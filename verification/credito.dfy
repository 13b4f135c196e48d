/** routers/credito_router.py: creditos, created, updated and deleted from
    an HTML form. The model keeps the check on the owning usuario and the
    effect on the creditos table. These handlers write no audit row: the rows
    they build do not have the shape of the audit table. */
module Creditos {
  import opened Wrappers
  import opened Entities

  /** crear_credito: the usuario must exist; then a credito with exactly the
      given amount, term, type and usuario, and no description, is stored. */
  function CrearCredito(s: Store, monto: real, plazo: int, tipo: string, usuarioId: int): (r: Reply<int>)
    ensures r.Fail? <==> usuarioId !in s.usuarios
    ensures r.Fail? ==> r.err == NotFound
    ensures r.Done? ==> r.value !in s.creditos
    ensures r.Done? ==> r.store == s.(creditos := s.creditos[r.value := Credito(monto, plazo, tipo, None, usuarioId)])
  {
    if usuarioId !in s.usuarios then Fail(NotFound)
    else
      var id := NextKey(s.creditos);
      Done(s.(creditos := s.creditos[id := Credito(monto, plazo, tipo, None, usuarioId)]), id)
  }

  /** actualizar_credito: an unknown credito is 404; otherwise the amount,
      term and type are overwritten and the usuario and description kept. */
  function ActualizarCredito(s: Store, id: int, monto: real, plazo: int, tipo: string): (r: Reply<Credito>)
    ensures r.Fail? <==> id !in s.creditos
    ensures r.Fail? ==> r.err == NotFound
    ensures r.Done? ==> && r.value.monto == monto && r.value.plazo == plazo && r.value.tipo == tipo
                        && r.value.usuarioId == s.creditos[id].usuarioId
                        && r.value.descripcion == s.creditos[id].descripcion
    ensures r.Done? ==> r.store == s.(creditos := s.creditos[id := r.value])
  {
    if id !in s.creditos then Fail(NotFound)
    else
      var c := s.creditos[id].(monto := monto, plazo := plazo, tipo := tipo);
      Done(s.(creditos := s.creditos[id := c]), c)
  }

  /** eliminar_credito as written: the audit row it adds to the same commit
      as the deletion leaves the table's required columns (entity,
      description, date) empty, so the commit fails and is rolled back. An
      unknown credito is 404; a known one is an unhandled error, and the
      credito stays. */
  function EliminarCreditoAsWritten(s: Store, id: int): (r: Reply<()>)
    ensures r.Fail?
    ensures r.err == (if id in s.creditos then Unhandled else NotFound)
  {
    if id !in s.creditos then Fail(NotFound)
    else Fail(Unhandled)
  }

  /** eliminar_credito as intended: an unknown credito is 404; otherwise that
      credito, and nothing else, is removed. */
  function EliminarCredito(s: Store, id: int): (r: Reply<()>)
    ensures r.Fail? <==> id !in s.creditos
    ensures r.Fail? ==> r.err == NotFound
    ensures r.Done? ==> r.store == s.(creditos := s.creditos - {id})
  {
    if id !in s.creditos then Fail(NotFound)
    else Done(s.(creditos := s.creditos - {id}), ())
  }

  // ---------------------------------------------------------------------
  // Properties
  // ---------------------------------------------------------------------

  /** A created credito belongs to an existing usuario, so the store keeps
      its integrity; the table gains exactly one row. */
  lemma CrearCreditoSound(s: Store, monto: real, plazo: int, tipo: string, usuarioId: int)
    requires Valid(s)
    ensures var r := CrearCredito(s, monto, plazo, tipo, usuarioId);
      r.Done? ==> && Valid(r.store)
                  && r.store.creditos.Keys == s.creditos.Keys + {r.value}
                  && |r.store.creditos.Keys| == |s.creditos.Keys| + 1
  {
    var r := CrearCredito(s, monto, plazo, tipo, usuarioId);
    if r.Done? {
      var m, m' := s.creditos, r.store.creditos;
      assert m'.Keys == m.Keys + {r.value};
    }
  }

  /** An update keeps the store's integrity, and sending the same values
      again changes nothing more. */
  lemma ActualizarCreditoSound(s: Store, id: int, monto: real, plazo: int, tipo: string)
    requires Valid(s)
    ensures var r := ActualizarCredito(s, id, monto, plazo, tipo);
      r.Done? ==> && Valid(r.store)
                  && ActualizarCredito(r.store, id, monto, plazo, tipo) == Done(r.store, r.value)
  {
    var r := ActualizarCredito(s, id, monto, plazo, tipo);
    if r.Done? {
      assert r.store.creditos[id := r.value] == r.store.creditos;
    }
  }

  /** Deleting a credito keeps the store's integrity: no credito is left
      without its usuario and no link loses its categoria. */
  lemma EliminarCreditoSound(s: Store, id: int)
    requires Valid(s)
    ensures var r := EliminarCredito(s, id);
      r.Done? ==> Valid(r.store) && r.store.creditos.Keys == s.creditos.Keys - {id}
  {
  }

  /** Deleting the credito just created gives back the creditos table from
      before the creation. */
  lemma CrearThenEliminar(s: Store, monto: real, plazo: int, tipo: string, usuarioId: int)
    ensures var r := CrearCredito(s, monto, plazo, tipo, usuarioId);
      r.Done? ==> EliminarCredito(r.store, r.value) == Done(s, ())
  {
    var r := CrearCredito(s, monto, plazo, tipo, usuarioId);
    if r.Done? {
      assert r.store.creditos - {r.value} == s.creditos;
    }
  }

  /** The deletion as written never deletes: on a store holding credito 1,
      it fails where the intended deletion removes the credito. */
  lemma EliminarCreditoAsWrittenNeverDeletes()
    ensures var s := Empty.(usuarios := map[1 := Usuario("Ana", 1.0, 0.0, "ana@example.com", "300", None)],
                            creditos := map[1 := Credito(1000.0, 12, "Personal", None, 1)]);
      && EliminarCreditoAsWritten(s, 1) == Fail(Unhandled)
      && EliminarCredito(s, 1) == Done(s.(creditos := map[]), ())
  {
    var s := Empty.(usuarios := map[1 := Usuario("Ana", 1.0, 0.0, "ana@example.com", "300", None)],
                    creditos := map[1 := Credito(1000.0, 12, "Personal", None, 1)]);
    assert s.creditos - {1} == map[];
  }
}
