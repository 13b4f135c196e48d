/** routers/simulacion_router.py: simulaciones, each tied to an interes. */
module Simulaciones {
  import opened Wrappers
  import opened Entities

  /** The query parameters of the listing; `None` is "no such filter". */
  datatype SimulacionFiltro = SimulacionFiltro(interesId: Option<int>, cuotaMin: Option<real>, cuotaMax: Option<real>)

  /** The query parameters of a partial update; `None` is "not sent". */
  datatype SimulacionPatch = SimulacionPatch(
    cuotaMensual: Option<real>, interesTotal: Option<real>, saldoFinal: Option<real>, interesId: Option<int>)

  /** Every simulacion names an existing interes. */
  ghost predicate SimulacionesLinked(s: Store) {
    forall k | k in s.simulaciones :: s.simulaciones[k].interesId in s.intereses
  }

  /** crear_simulacion: the interes must exist; then the simulacion is stored
      under a fresh key and the creation audited. */
  function CrearSimulacion(s: Store, x: Simulacion, now: int): (r: Reply<int>)
    ensures r.Fail? <==> x.interesId !in s.intereses
    ensures r.Fail? ==> r.err == BadRequest
    ensures r.Done? ==> r.value !in s.simulaciones && r.store.simulaciones == s.simulaciones[r.value := x]
    ensures r.Done? ==> Frame(s, r.store, {Simulaciones}) && Appended(s.historial, r.store.historial, SIMULACION, CREAR, now)
  {
    if x.interesId !in s.intereses then Fail(BadRequest)
    else
      var id := NextKey(s.simulaciones);
      Done(Audit(s.(simulaciones := s.simulaciones[id := x]), SIMULACION, CREAR, "", now), id)
  }

  /** The listing's filters, each one only when given: the same interes and
      a monthly payment within the inclusive bounds. */
  predicate SimulacionMatches(q: SimulacionFiltro, x: Simulacion) {
    && (q.interesId.Some? ==> x.interesId == q.interesId.value)
    && (q.cuotaMin.Some? ==> x.cuotaMensual >= q.cuotaMin.value)
    && (q.cuotaMax.Some? ==> x.cuotaMensual <= q.cuotaMax.value)
  }

  /** The `where` clauses of the listing, one per filter; a filter that is
      not given contributes a clause every row satisfies. */
  function SimulacionClauses(q: SimulacionFiltro): seq<Simulacion -> bool> {
    [ (x: Simulacion) => q.interesId.Some? ==> x.interesId == q.interesId.value,
      (x: Simulacion) => q.cuotaMin.Some? ==> x.cuotaMensual >= q.cuotaMin.value,
      (x: Simulacion) => q.cuotaMax.Some? ==> x.cuotaMensual <= q.cuotaMax.value ]
  }

  /** listar_simulaciones */
  function ListarSimulaciones(s: Store, q: SimulacionFiltro): (r: map<int, Simulacion>)
    ensures forall k :: k in r <==> k in s.simulaciones && SimulacionMatches(q, s.simulaciones[k])
    ensures forall k | k in r :: r[k] == s.simulaciones[k]
  {
    var cs := SimulacionClauses(q);
    forall k | k in s.simulaciones ensures AllHold(cs, s.simulaciones[k]) <==> SimulacionMatches(q, s.simulaciones[k]) {
      var x := s.simulaciones[k];
      assert cs[0](x) && cs[1](x) && cs[2](x) <==> SimulacionMatches(q, x);
    }
    Select(s.simulaciones, cs)
  }

  /** obtener_simulacion */
  function ObtenerSimulacion(s: Store, id: int): (r: Result<Simulacion>)
    ensures r.Ok? <==> id in s.simulaciones
    ensures r.Ok? ==> r.value == s.simulaciones[id]
    ensures r.Error? ==> r.err == NotFound
  {
    Get(s.simulaciones, id)
  }

  /** actualizar_simulacion (PUT): checks the interes only when it changes,
      then replaces the three amounts and the interes. */
  function ActualizarSimulacion(s: Store, id: int, datos: Simulacion, now: int): (r: Reply<Simulacion>)
    ensures r.Fail? <==> (id !in s.simulaciones ||
      (datos.interesId != s.simulaciones[id].interesId && datos.interesId !in s.intereses))
    ensures r.Fail? ==> r.err == (if id !in s.simulaciones then NotFound else BadRequest)
    ensures r.Done? ==> r.value == datos && r.store.simulaciones == s.simulaciones[id := datos]
    ensures r.Done? ==> Frame(s, r.store, {Simulaciones}) && Appended(s.historial, r.store.historial, SIMULACION, ACTUALIZAR, now)
  {
    if id !in s.simulaciones then Fail(NotFound)
    else if datos.interesId != s.simulaciones[id].interesId && datos.interesId !in s.intereses then Fail(BadRequest)
    else
      var x := Simulacion(datos.cuotaMensual, datos.interesTotal, datos.saldoFinal, datos.interesId);
      Done(Audit(s.(simulaciones := s.simulaciones[id := x]), SIMULACION, ACTUALIZAR, "", now), x)
  }

  /** The names of the fields a partial update sends, in the handler's order. */
  function SimulacionCambios(p: SimulacionPatch): (cambios: seq<string>)
    ensures forall n :: n in cambios <==>
      || (n == "cuotaMensual" && p.cuotaMensual.Some?)
      || (n == "interesTotal" && p.interesTotal.Some?)
      || (n == "saldoFinal" && p.saldoFinal.Some?)
      || (n == "interes_id" && p.interesId.Some?)
    ensures cambios == [] <==> p == SimulacionPatch(None, None, None, None)
  {
    AddIf(p.cuotaMensual.Some?, "cuotaMensual",
    AddIf(p.interesTotal.Some?, "interesTotal",
    AddIf(p.saldoFinal.Some?, "saldoFinal",
    AddIf(p.interesId.Some?, "interes_id", []))))
  }

  /** The simulacion `x` with the fields of `p` that were sent. */
  function Patched(x: Simulacion, p: SimulacionPatch): Simulacion {
    Simulacion(p.cuotaMensual.GetOr(x.cuotaMensual), p.interesTotal.GetOr(x.interesTotal),
               p.saldoFinal.GetOr(x.saldoFinal), p.interesId.GetOr(x.interesId))
  }

  /** actualizar_simulacion_parcial (PATCH): an unknown interes rejects the
      whole request, amounts included; otherwise only the fields sent change
      and the change is audited when some field was sent. */
  function ActualizarSimulacionParcial(s: Store, id: int, p: SimulacionPatch, now: int): (r: Reply<Simulacion>)
    ensures r.Fail? <==> id !in s.simulaciones || (p.interesId.Some? && p.interesId.value !in s.intereses)
    ensures r.Fail? ==> r.err == (if id !in s.simulaciones then NotFound else BadRequest)
    ensures r.Done? ==> id in s.simulaciones && r.value == Patched(s.simulaciones[id], p)
    ensures r.Done? ==> r.store == s.(simulaciones := s.simulaciones[id := r.value], historial := r.store.historial)
    ensures r.Done? && SimulacionCambios(p) == [] ==> r.store.historial == s.historial
    ensures r.Done? && SimulacionCambios(p) != [] ==>
      Appended(s.historial, r.store.historial, SIMULACION, ACTUALIZAR_PARCIAL, now) &&
      LastNote(r.store) == ChangeNote(SimulacionCambios(p))
  {
    if id !in s.simulaciones then Fail(NotFound)
    else if p.interesId.Some? && p.interesId.value !in s.intereses then Fail(BadRequest)
    else
      var y := Patched(s.simulaciones[id], p);
      var cambios := SimulacionCambios(p);
      var t := s.(simulaciones := s.simulaciones[id := y]);
      if cambios == [] then Done(t, y)
      else
        var note := ChangeNote(cambios);
        var u := Audit(t, SIMULACION, ACTUALIZAR_PARCIAL, note, now);
        assert LastNote(u) == note;
        Done(u, y)
  }

  /** eliminar_simulacion */
  function EliminarSimulacion(s: Store, id: int, now: int): (r: Reply<()>)
    ensures r.Fail? <==> id !in s.simulaciones
    ensures r.Fail? ==> r.err == NotFound
    ensures r.Done? ==> r.store.simulaciones == s.simulaciones - {id}
    ensures r.Done? ==> Frame(s, r.store, {Simulaciones}) && Appended(s.historial, r.store.historial, SIMULACION, ELIMINAR, now)
  {
    if id !in s.simulaciones then Fail(NotFound)
    else Done(Audit(s.(simulaciones := s.simulaciones - {id}), SIMULACION, ELIMINAR, "", now), ())
  }

  // ---------------------------------------------------------------------
  // Properties
  // ---------------------------------------------------------------------

  /** A created simulacion reads back unchanged, and the store keeps its
      integrity and gains no dangling interes. */
  lemma CrearSimulacionSound(s: Store, x: Simulacion, now: int)
    requires Valid(s) && SimulacionesLinked(s)
    ensures var r := CrearSimulacion(s, x, now);
      r.Done? ==> Valid(r.store) && SimulacionesLinked(r.store) && ObtenerSimulacion(r.store, r.value) == Ok(x)
  {
    var r := CrearSimulacion(s, x, now);
    if r.Done? {
      AppendKeepsIdsUnique(s.historial, r.store.historial, SIMULACION, CREAR, now);
      OtherTablesKeepValid(s, r.store, {Simulaciones});
    }
  }

  /** A full update keeps the store's integrity; since an unchanged interes
      is not checked again, it keeps simulaciones linked only when they were. */
  lemma ActualizarSimulacionSound(s: Store, id: int, datos: Simulacion, now: int)
    requires Valid(s) && SimulacionesLinked(s)
    ensures var r := ActualizarSimulacion(s, id, datos, now);
      r.Done? ==> Valid(r.store) && SimulacionesLinked(r.store) && ObtenerSimulacion(r.store, id) == Ok(datos)
  {
    var r := ActualizarSimulacion(s, id, datos, now);
    if r.Done? {
      AppendKeepsIdsUnique(s.historial, r.store.historial, SIMULACION, ACTUALIZAR, now);
      OtherTablesKeepValid(s, r.store, {Simulaciones});
    }
  }

  /** A partial update keeps the store's integrity and every simulacion linked. */
  lemma ActualizarSimulacionParcialSound(s: Store, id: int, p: SimulacionPatch, now: int)
    requires Valid(s) && SimulacionesLinked(s)
    ensures var r := ActualizarSimulacionParcial(s, id, p, now);
      r.Done? ==> Valid(r.store) && SimulacionesLinked(r.store) && ObtenerSimulacion(r.store, id) == Ok(r.value)
  {
    var r := ActualizarSimulacionParcial(s, id, p, now);
    if r.Done? {
      if SimulacionCambios(p) != [] {
        AppendKeepsIdsUnique(s.historial, r.store.historial, SIMULACION, ACTUALIZAR_PARCIAL, now);
      }
      OtherTablesKeepValid(s, r.store, {Simulaciones});
    }
  }

  /** Sending the same partial update again is accepted and leaves the
      simulacion as the first one left it. */
  lemma ActualizarSimulacionParcialTwice(s: Store, id: int, p: SimulacionPatch, now: int, later: int)
    ensures var r := ActualizarSimulacionParcial(s, id, p, now);
      r.Done? ==>
        var r2 := ActualizarSimulacionParcial(r.store, id, p, later);
        r2.Done? && r2.value == r.value && r2.store.simulaciones == r.store.simulaciones
  {
    var r := ActualizarSimulacionParcial(s, id, p, now);
    if r.Done? {
      assert r.store.simulaciones[id := r.value] == r.store.simulaciones;
    }
  }

  /** A partial update that sends no field changes nothing and writes no audit row. */
  lemma ParcialWithoutFieldsIsNoOp(s: Store, id: int, now: int)
    requires id in s.simulaciones
    ensures ActualizarSimulacionParcial(s, id, SimulacionPatch(None, None, None, None), now) == Done(s, s.simulaciones[id])
  {
    var x := s.simulaciones[id];
    assert Patched(x, SimulacionPatch(None, None, None, None)) == x;
    assert s.simulaciones[id := x] == s.simulaciones;
  }

  /** A partial update that sends every field writes the same row as the
      full update with those values. It checks the interes even when it is
      unchanged, so it may refuse where the full update succeeds, never the
      other way round. */
  lemma ParcialWithAllFieldsIsPut(s: Store, id: int, x: Simulacion, now: int)
    ensures var p := ActualizarSimulacionParcial(s, id,
              SimulacionPatch(Some(x.cuotaMensual), Some(x.interesTotal), Some(x.saldoFinal), Some(x.interesId)), now);
      var q := ActualizarSimulacion(s, id, x, now);
      && (p.Done? ==> q.Done? && p.value == q.value && p.store.(historial := []) == q.store.(historial := []))
      && (q.Done? && x.interesId in s.intereses ==> p.Done?)
  {
  }

  /** A partial update refused for its interes commits none of the amounts
      sent with it. */
  lemma ParcialBadInteresCommitsNothing(s: Store, id: int, p: SimulacionPatch, now: int)
    requires id in s.simulaciones && p.interesId.Some? && p.interesId.value !in s.intereses
    ensures ActualizarSimulacionParcial(s, id, p, now) == Fail(BadRequest)
  {
  }

  /** Deleting a simulacion removes exactly it. */
  lemma EliminarSimulacionSound(s: Store, id: int, now: int)
    requires Valid(s) && SimulacionesLinked(s)
    ensures var r := EliminarSimulacion(s, id, now);
      && (r.Done? ==> Valid(r.store) && SimulacionesLinked(r.store) && ObtenerSimulacion(r.store, id) == Error(NotFound))
      && (r.Done? ==> forall k | k in s.simulaciones && k != id :: ObtenerSimulacion(r.store, k) == Ok(s.simulaciones[k]))
  {
    var r := EliminarSimulacion(s, id, now);
    if r.Done? {
      AppendKeepsIdsUnique(s.historial, r.store.historial, SIMULACION, ELIMINAR, now);
      OtherTablesKeepValid(s, r.store, {Simulaciones});
    }
  }
}
