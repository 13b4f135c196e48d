/** routers/interes_router.py: intereses, each tied to a credito. */
module Intereses {
  import opened Wrappers
  import opened Entities

  /** The query parameters of the listing; `None` is "no such filter". */
  datatype InteresFiltro = InteresFiltro(creditoId: Option<int>, tipo: Option<string>, tasaMin: Option<real>, tasaMax: Option<real>)

  /** The query parameters of a partial update; `None` is "not sent". */
  datatype InteresPatch = InteresPatch(tasa: Option<real>, tipo: Option<string>, creditoId: Option<int>)

  /** Every interes names an existing credito. */
  ghost predicate InteresesLinked(s: Store) {
    forall k | k in s.intereses :: s.intereses[k].creditoId in s.creditos
  }

  /** crear_interes: the credito must exist; then an interes with exactly the
      given rate, type and credito is stored and the creation audited. */
  function CrearInteres(s: Store, tasa: real, tipo: string, creditoId: int, now: int): (r: Reply<int>)
    ensures r.Fail? <==> creditoId !in s.creditos
    ensures r.Fail? ==> r.err == NotFound
    ensures r.Done? ==> r.value !in s.intereses && r.store.intereses == s.intereses[r.value := Interes(tasa, tipo, creditoId)]
    ensures r.Done? ==> Frame(s, r.store, {Intereses}) && Appended(s.historial, r.store.historial, INTERES, CREAR, now)
  {
    if creditoId !in s.creditos then Fail(NotFound)
    else
      var id := NextKey(s.intereses);
      Done(Audit(s.(intereses := s.intereses[id := Interes(tasa, tipo, creditoId)]), INTERES, CREAR, "", now), id)
  }

  /** The listing's filters, each one only when given: the same credito, the
      same type when a non-empty one is given, a rate within the inclusive
      bounds. */
  predicate InteresMatches(q: InteresFiltro, x: Interes) {
    && (q.creditoId.Some? ==> x.creditoId == q.creditoId.value)
    && (q.tipo.Some? && q.tipo.value != "" ==> x.tipo == q.tipo.value)
    && (q.tasaMin.Some? ==> x.tasa >= q.tasaMin.value)
    && (q.tasaMax.Some? ==> x.tasa <= q.tasaMax.value)
  }

  /** The `where` clauses of the listing, one per filter; a filter that is
      not given contributes a clause every row satisfies. */
  function InteresClauses(q: InteresFiltro): seq<Interes -> bool> {
    [ (x: Interes) => q.creditoId.Some? ==> x.creditoId == q.creditoId.value,
      (x: Interes) => q.tipo.Some? && q.tipo.value != "" ==> x.tipo == q.tipo.value,
      (x: Interes) => q.tasaMin.Some? ==> x.tasa >= q.tasaMin.value,
      (x: Interes) => q.tasaMax.Some? ==> x.tasa <= q.tasaMax.value ]
  }

  /** listar_intereses */
  function ListarIntereses(s: Store, q: InteresFiltro): (r: map<int, Interes>)
    ensures forall k :: k in r <==> k in s.intereses && InteresMatches(q, s.intereses[k])
    ensures forall k | k in r :: r[k] == s.intereses[k]
  {
    var cs := InteresClauses(q);
    forall k | k in s.intereses ensures AllHold(cs, s.intereses[k]) <==> InteresMatches(q, s.intereses[k]) {
      var x := s.intereses[k];
      assert cs[0](x) && cs[1](x) && cs[2](x) && cs[3](x) <==> InteresMatches(q, x);
    }
    Select(s.intereses, cs)
  }

  /** obtener_interes */
  function ObtenerInteres(s: Store, id: int): (r: Result<Interes>)
    ensures r.Ok? <==> id in s.intereses
    ensures r.Ok? ==> r.value == s.intereses[id]
    ensures r.Error? ==> r.err == NotFound
  {
    Get(s.intereses, id)
  }

  /** actualizar_interes (PUT): always replaces rate and type; moves the
      interes to another credito only when one is given, and that credito
      must exist. */
  function ActualizarInteres(s: Store, id: int, tasa: real, tipo: string, creditoId: Option<int>, now: int): (r: Reply<Interes>)
    ensures r.Fail? <==> id !in s.intereses || (creditoId.Some? && creditoId.value !in s.creditos)
    ensures r.Fail? ==> r.err == NotFound
    ensures r.Done? ==> id in s.intereses
    ensures r.Done? ==> r.value == Interes(tasa, tipo, if creditoId.Some? then creditoId.value else s.intereses[id].creditoId)
    ensures r.Done? ==> r.store.intereses == s.intereses[id := r.value]
    ensures r.Done? ==> Frame(s, r.store, {Intereses}) && Appended(s.historial, r.store.historial, INTERES, ACTUALIZAR, now)
  {
    if id !in s.intereses then Fail(NotFound)
    else if creditoId.Some? && creditoId.value !in s.creditos then Fail(NotFound)
    else
      var x := Interes(tasa, tipo, creditoId.GetOr(s.intereses[id].creditoId));
      Done(Audit(s.(intereses := s.intereses[id := x]), INTERES, ACTUALIZAR, "", now), x)
  }

  /** The names of the fields a partial update sends, in the handler's order. */
  function InteresCambios(p: InteresPatch): (cambios: seq<string>)
    ensures forall n :: n in cambios <==>
      || (n == "tasa" && p.tasa.Some?)
      || (n == "tipo" && p.tipo.Some?)
      || (n == "credito_id" && p.creditoId.Some?)
    ensures cambios == [] <==> p == InteresPatch(None, None, None)
  {
    AddIf(p.tasa.Some?, "tasa",
    AddIf(p.tipo.Some?, "tipo",
    AddIf(p.creditoId.Some?, "credito_id", [])))
  }

  /** The interes `x` with the fields of `p` that were sent. */
  function Patched(x: Interes, p: InteresPatch): Interes {
    Interes(p.tasa.GetOr(x.tasa), p.tipo.GetOr(x.tipo), p.creditoId.GetOr(x.creditoId))
  }

  /** actualizar_interes_parcial (PATCH): an unknown credito rejects the
      whole request; otherwise only the fields sent change, audited when
      some field was sent. */
  function ActualizarInteresParcial(s: Store, id: int, p: InteresPatch, now: int): (r: Reply<Interes>)
    ensures r.Fail? <==> id !in s.intereses || (p.creditoId.Some? && p.creditoId.value !in s.creditos)
    ensures r.Fail? ==> r.err == NotFound
    ensures r.Done? ==> id in s.intereses && r.value == Patched(s.intereses[id], p)
    ensures r.Done? ==> r.store == s.(intereses := s.intereses[id := r.value], historial := r.store.historial)
    ensures r.Done? && InteresCambios(p) == [] ==> r.store.historial == s.historial
    ensures r.Done? && InteresCambios(p) != [] ==>
      Appended(s.historial, r.store.historial, INTERES, ACTUALIZAR_PARCIAL, now) &&
      LastNote(r.store) == ChangeNote(InteresCambios(p))
  {
    if id !in s.intereses then Fail(NotFound)
    else if p.creditoId.Some? && p.creditoId.value !in s.creditos then Fail(NotFound)
    else
      var y := Patched(s.intereses[id], p);
      var cambios := InteresCambios(p);
      var t := s.(intereses := s.intereses[id := y]);
      if cambios == [] then Done(t, y)
      else
        var note := ChangeNote(cambios);
        var u := Audit(t, INTERES, ACTUALIZAR_PARCIAL, note, now);
        assert LastNote(u) == note;
        Done(u, y)
  }

  /** eliminar_interes */
  function EliminarInteres(s: Store, id: int, now: int): (r: Reply<()>)
    ensures r.Fail? <==> id !in s.intereses
    ensures r.Fail? ==> r.err == NotFound
    ensures r.Done? ==> r.store.intereses == s.intereses - {id}
    ensures r.Done? ==> Frame(s, r.store, {Intereses}) && Appended(s.historial, r.store.historial, INTERES, ELIMINAR, now)
  {
    if id !in s.intereses then Fail(NotFound)
    else Done(Audit(s.(intereses := s.intereses - {id}), INTERES, ELIMINAR, "", now), ())
  }

  // ---------------------------------------------------------------------
  // Properties
  // ---------------------------------------------------------------------

  /** A created interes reads back with the given fields, and the store
      keeps its integrity and gains no dangling credito. */
  lemma CrearInteresSound(s: Store, tasa: real, tipo: string, creditoId: int, now: int)
    requires Valid(s) && InteresesLinked(s)
    ensures var r := CrearInteres(s, tasa, tipo, creditoId, now);
      r.Done? ==> Valid(r.store) && InteresesLinked(r.store) && ObtenerInteres(r.store, r.value) == Ok(Interes(tasa, tipo, creditoId))
  {
    var r := CrearInteres(s, tasa, tipo, creditoId, now);
    if r.Done? {
      AppendKeepsIdsUnique(s.historial, r.store.historial, INTERES, CREAR, now);
      OtherTablesKeepValid(s, r.store, {Intereses});
    }
  }

  /** A full update keeps the store's integrity and every interes linked. */
  lemma ActualizarInteresSound(s: Store, id: int, tasa: real, tipo: string, creditoId: Option<int>, now: int)
    requires Valid(s) && InteresesLinked(s)
    ensures var r := ActualizarInteres(s, id, tasa, tipo, creditoId, now);
      r.Done? ==> Valid(r.store) && InteresesLinked(r.store) && ObtenerInteres(r.store, id) == Ok(r.value)
  {
    var r := ActualizarInteres(s, id, tasa, tipo, creditoId, now);
    if r.Done? {
      AppendKeepsIdsUnique(s.historial, r.store.historial, INTERES, ACTUALIZAR, now);
      OtherTablesKeepValid(s, r.store, {Intereses});
    }
  }

  /** A partial update keeps the store's integrity and every interes linked. */
  lemma ActualizarInteresParcialSound(s: Store, id: int, p: InteresPatch, now: int)
    requires Valid(s) && InteresesLinked(s)
    ensures var r := ActualizarInteresParcial(s, id, p, now);
      r.Done? ==> Valid(r.store) && InteresesLinked(r.store) && ObtenerInteres(r.store, id) == Ok(r.value)
  {
    var r := ActualizarInteresParcial(s, id, p, now);
    if r.Done? {
      if InteresCambios(p) != [] {
        AppendKeepsIdsUnique(s.historial, r.store.historial, INTERES, ACTUALIZAR_PARCIAL, now);
      }
      OtherTablesKeepValid(s, r.store, {Intereses});
    }
  }

  /** Sending the same partial update again is accepted and leaves the
      interes as the first one left it. */
  lemma ActualizarInteresParcialTwice(s: Store, id: int, p: InteresPatch, now: int, later: int)
    ensures var r := ActualizarInteresParcial(s, id, p, now);
      r.Done? ==>
        var r2 := ActualizarInteresParcial(r.store, id, p, later);
        r2.Done? && r2.value == r.value && r2.store.intereses == r.store.intereses
  {
    var r := ActualizarInteresParcial(s, id, p, now);
    if r.Done? {
      assert r.store.intereses[id := r.value] == r.store.intereses;
    }
  }

  /** A partial update that sends no field changes nothing and writes no audit row. */
  lemma ParcialWithoutFieldsIsNoOp(s: Store, id: int, now: int)
    requires id in s.intereses
    ensures ActualizarInteresParcial(s, id, InteresPatch(None, None, None), now) == Done(s, s.intereses[id])
  {
    var x := s.intereses[id];
    assert Patched(x, InteresPatch(None, None, None)) == x;
    assert s.intereses[id := x] == s.intereses;
  }

  /** A partial update that sends every field is the full update with the
      same values, up to the audit text. */
  lemma ParcialWithAllFieldsIsPut(s: Store, id: int, tasa: real, tipo: string, creditoId: int, now: int)
    ensures var p := ActualizarInteresParcial(s, id, InteresPatch(Some(tasa), Some(tipo), Some(creditoId)), now);
      var q := ActualizarInteres(s, id, tasa, tipo, Some(creditoId), now);
      && (p.Fail? <==> q.Fail?)
      && (p.Fail? ==> p.err == q.err)
      && (p.Done? ==> p.value == q.value && p.store.(historial := []) == q.store.(historial := []))
  {
  }

  /** A partial update refused for its credito commits none of the other
      fields sent with it. */
  lemma ParcialBadCreditoCommitsNothing(s: Store, id: int, p: InteresPatch, now: int)
    requires id in s.intereses && p.creditoId.Some? && p.creditoId.value !in s.creditos
    ensures ActualizarInteresParcial(s, id, p, now) == Fail(NotFound)
  {
  }

  /** Deleting an interes removes exactly it. */
  lemma EliminarInteresSound(s: Store, id: int, now: int)
    requires Valid(s) && InteresesLinked(s)
    ensures var r := EliminarInteres(s, id, now);
      && (r.Done? ==> Valid(r.store) && InteresesLinked(r.store) && ObtenerInteres(r.store, id) == Error(NotFound))
      && (r.Done? ==> forall k | k in s.intereses && k != id :: ObtenerInteres(r.store, k) == Ok(s.intereses[k]))
  {
    var r := EliminarInteres(s, id, now);
    if r.Done? {
      AppendKeepsIdsUnique(s.historial, r.store.historial, INTERES, ELIMINAR, now);
      OtherTablesKeepValid(s, r.store, {Intereses});
    }
  }
}
