/** routers/reporte_router.py: reportes and their three optional references
    to a usuario, a credito and a simulacion. */
module Reportes {
  import opened Wrappers
  import opened Entities
  import SqlLike

  /** The body of a create or full-update request: a reporte whose `fecha`
      may be missing. */
  datatype ReporteDatos = ReporteDatos(
    titulo: string, descripcion: Option<string>, fecha: Option<int>,
    usuarioId: Option<int>, creditoId: Option<int>, simulacionId: Option<int>)

  /** The query parameters of a partial update; `None` is "not sent". */
  datatype ReportePatch = ReportePatch(
    titulo: Option<string>, descripcion: Option<string>, fecha: Option<int>,
    usuarioId: Option<int>, creditoId: Option<int>, simulacionId: Option<int>)

  /** The query parameters of the listing; `None` is "no such filter". */
  datatype ReporteFiltro = ReporteFiltro(
    usuarioId: Option<int>, creditoId: Option<int>, simulacionId: Option<int>,
    desde: Option<int>, hasta: Option<int>, titulo: Option<string>)

  /** A reference that is either absent or names a key of `m`. */
  predicate RefOk<T>(m: map<int, T>, ref: Option<int>) {
    ref.None? || ref.value in m
  }

  /** All three references are absent or name existing rows. */
  predicate RelacionesExisten(s: Store, usuarioId: Option<int>, creditoId: Option<int>, simulacionId: Option<int>) {
    RefOk(s.usuarios, usuarioId) && RefOk(s.creditos, creditoId) && RefOk(s.simulaciones, simulacionId)
  }

  /** The stored reporte names no missing row. */
  predicate ReporteLinked(s: Store, r: Reporte) {
    RelacionesExisten(s, r.usuarioId, r.creditoId, r.simulacionId)
  }

  /** No stored reporte names a missing row. */
  ghost predicate ReportesLinked(s: Store) {
    forall k | k in s.reportes :: ReporteLinked(s, s.reportes[k])
  }

  /** _validar_relaciones_reporte: each reference that is given must name an
      existing row; the first one that does not rejects the request. */
  function ValidarRelaciones(s: Store, usuarioId: Option<int>, creditoId: Option<int>, simulacionId: Option<int>): (r: Result<()>)
    ensures r.Ok? <==> RelacionesExisten(s, usuarioId, creditoId, simulacionId)
    ensures r.Error? ==> r.err == BadRequest
  {
    if usuarioId.Some? && usuarioId.value !in s.usuarios then Error(BadRequest)
    else if creditoId.Some? && creditoId.value !in s.creditos then Error(BadRequest)
    else if simulacionId.Some? && simulacionId.value !in s.simulaciones then Error(BadRequest)
    else Ok(())
  }

  /** crear_reporte: validates the references, stamps `now` when no date was
      sent, stores the reporte under a fresh key and audits the creation. */
  function CrearReporte(s: Store, d: ReporteDatos, now: int): (r: Reply<int>)
    ensures r.Fail? <==> !RelacionesExisten(s, d.usuarioId, d.creditoId, d.simulacionId)
    ensures r.Fail? ==> r.err == BadRequest
    ensures r.Done? ==> r.value !in s.reportes && r.value in r.store.reportes
    ensures r.Done? ==> r.store.reportes == s.reportes[r.value := r.store.reportes[r.value]]
    ensures r.Done? ==> var x := r.store.reportes[r.value];
      && x.titulo == d.titulo && x.descripcion == d.descripcion
      && x.fecha == (if d.fecha.Some? then d.fecha.value else now)
      && x.usuarioId == d.usuarioId && x.creditoId == d.creditoId && x.simulacionId == d.simulacionId
    ensures r.Done? ==> Frame(s, r.store, {Reportes}) && Appended(s.historial, r.store.historial, REPORTE, CREAR, now)
  {
    match ValidarRelaciones(s, d.usuarioId, d.creditoId, d.simulacionId)
    case Error(e) => Fail(e)
    case Ok(_) =>
      var id := NextKey(s.reportes);
      var x := Reporte(d.titulo, d.descripcion, d.fecha.GetOr(now), d.usuarioId, d.creditoId, d.simulacionId);
      Done(Audit(s.(reportes := s.reportes[id := x]), REPORTE, CREAR, "", now), id)
  }

  /** The listing's filters, each one only when given, all of them together:
      equal references, a date within the inclusive bounds, and a title
      containing a non-empty search text. */
  predicate ReporteMatches(q: ReporteFiltro, x: Reporte) {
    && (q.usuarioId.Some? ==> x.usuarioId == q.usuarioId)
    && (q.creditoId.Some? ==> x.creditoId == q.creditoId)
    && (q.simulacionId.Some? ==> x.simulacionId == q.simulacionId)
    && (q.desde.Some? ==> x.fecha >= q.desde.value)
    && (q.hasta.Some? ==> x.fecha <= q.hasta.value)
    && (q.titulo.Some? && q.titulo.value != "" ==> SqlLike.Contains(x.titulo, q.titulo.value))
  }

  /** The `where` clauses of the listing, one per filter; a filter that is
      not given contributes a clause every row satisfies. */
  function ReporteClauses(q: ReporteFiltro): seq<Reporte -> bool> {
    [ (x: Reporte) => q.usuarioId.Some? ==> x.usuarioId == q.usuarioId,
      (x: Reporte) => q.creditoId.Some? ==> x.creditoId == q.creditoId,
      (x: Reporte) => q.simulacionId.Some? ==> x.simulacionId == q.simulacionId,
      (x: Reporte) => q.desde.Some? ==> x.fecha >= q.desde.value,
      (x: Reporte) => q.hasta.Some? ==> x.fecha <= q.hasta.value,
      (x: Reporte) => q.titulo.Some? && q.titulo.value != "" ==> SqlLike.Contains(x.titulo, q.titulo.value) ]
  }

  /** listar_reportes: the query with one `where` per filter given. */
  function ListarReportes(s: Store, q: ReporteFiltro): (r: map<int, Reporte>)
    ensures forall k :: k in r <==> k in s.reportes && ReporteMatches(q, s.reportes[k])
    ensures forall k | k in r :: r[k] == s.reportes[k]
  {
    var cs := ReporteClauses(q);
    forall k | k in s.reportes ensures AllHold(cs, s.reportes[k]) <==> ReporteMatches(q, s.reportes[k]) {
      var x := s.reportes[k];
      assert cs[0](x) && cs[1](x) && cs[2](x) && cs[3](x) && cs[4](x) && cs[5](x) <==> ReporteMatches(q, x);
    }
    Select(s.reportes, cs)
  }

  /** obtener_reporte */
  function ObtenerReporte(s: Store, id: int): (r: Result<Reporte>)
    ensures r.Ok? <==> id in s.reportes
    ensures r.Ok? ==> r.value == s.reportes[id]
    ensures r.Error? ==> r.err == NotFound
  {
    Get(s.reportes, id)
  }

  /** actualizar_reporte (PUT): replaces every field, keeps the stored date
      when none is sent, and sets each reference to what was sent, absent
      ones included. */
  function ActualizarReporte(s: Store, id: int, d: ReporteDatos, now: int): (r: Reply<Reporte>)
    ensures r.Fail? <==> id !in s.reportes || !RelacionesExisten(s, d.usuarioId, d.creditoId, d.simulacionId)
    ensures r.Fail? ==> r.err == (if id !in s.reportes then NotFound else BadRequest)
    ensures r.Done? ==> id in s.reportes && r.store.reportes == s.reportes[id := r.value]
    ensures r.Done? ==> && r.value.titulo == d.titulo && r.value.descripcion == d.descripcion
                        && r.value.fecha == (if d.fecha.Some? then d.fecha.value else s.reportes[id].fecha)
                        && r.value.usuarioId == d.usuarioId && r.value.creditoId == d.creditoId
                        && r.value.simulacionId == d.simulacionId
    ensures r.Done? ==> Frame(s, r.store, {Reportes}) && Appended(s.historial, r.store.historial, REPORTE, ACTUALIZAR, now)
  {
    if id !in s.reportes then Fail(NotFound)
    else
      match ValidarRelaciones(s, d.usuarioId, d.creditoId, d.simulacionId)
      case Error(e) => Fail(e)
      case Ok(_) =>
        var x := Reporte(d.titulo, d.descripcion, d.fecha.GetOr(s.reportes[id].fecha),
                         d.usuarioId, d.creditoId, d.simulacionId);
        Done(Audit(s.(reportes := s.reportes[id := x]), REPORTE, ACTUALIZAR, "", now), x)
  }

  /** The reference a partial update checks and keeps: the one sent, else
      the stored one. */
  function MergeRef(sent: Option<int>, stored: Option<int>): Option<int> {
    if sent.Some? then sent else stored
  }

  /** The names of the fields a partial update sends, in the handler's order. */
  function ReporteCambios(p: ReportePatch): (cambios: seq<string>)
    ensures forall n :: n in cambios <==>
      || (n == "titulo" && p.titulo.Some?)
      || (n == "descripcion" && p.descripcion.Some?)
      || (n == "fecha" && p.fecha.Some?)
      || (n == "usuario_id" && p.usuarioId.Some?)
      || (n == "credito_id" && p.creditoId.Some?)
      || (n == "simulacion_id" && p.simulacionId.Some?)
    ensures cambios == [] <==> p == ReportePatch(None, None, None, None, None, None)
  {
    AddIf(p.titulo.Some?, "titulo",
    AddIf(p.descripcion.Some?, "descripcion",
    AddIf(p.fecha.Some?, "fecha",
    AddIf(p.usuarioId.Some?, "usuario_id",
    AddIf(p.creditoId.Some?, "credito_id",
    AddIf(p.simulacionId.Some?, "simulacion_id", []))))))
  }

  /** The reporte `x` with the fields of `p` that were sent. */
  function Patched(x: Reporte, p: ReportePatch): Reporte {
    Reporte(p.titulo.GetOr(x.titulo), if p.descripcion.Some? then p.descripcion else x.descripcion,
            p.fecha.GetOr(x.fecha), MergeRef(p.usuarioId, x.usuarioId),
            MergeRef(p.creditoId, x.creditoId), MergeRef(p.simulacionId, x.simulacionId))
  }

  /** actualizar_reporte_parcial (PATCH): checks the references the reporte
      would have afterwards (sent, else stored), changes only the fields sent
      and audits only when some field was sent. */
  function ActualizarReporteParcial(s: Store, id: int, p: ReportePatch, now: int): (r: Reply<Reporte>)
    ensures r.Fail? <==> (id !in s.reportes ||
      !RelacionesExisten(s, MergeRef(p.usuarioId, s.reportes[id].usuarioId),
                            MergeRef(p.creditoId, s.reportes[id].creditoId),
                            MergeRef(p.simulacionId, s.reportes[id].simulacionId)))
    ensures r.Fail? ==> r.err == (if id !in s.reportes then NotFound else BadRequest)
    ensures r.Done? ==> id in s.reportes && r.value == Patched(s.reportes[id], p)
    ensures r.Done? ==> r.store == s.(reportes := s.reportes[id := r.value], historial := r.store.historial)
    ensures r.Done? && ReporteCambios(p) == [] ==> r.store.historial == s.historial
    ensures r.Done? && ReporteCambios(p) != [] ==>
      Appended(s.historial, r.store.historial, REPORTE, ACTUALIZAR_PARCIAL, now) &&
      LastNote(r.store) == ChangeNote(ReporteCambios(p))
  {
    if id !in s.reportes then Fail(NotFound)
    else
      var x := s.reportes[id];
      match ValidarRelaciones(s, MergeRef(p.usuarioId, x.usuarioId), MergeRef(p.creditoId, x.creditoId),
                              MergeRef(p.simulacionId, x.simulacionId))
      case Error(e) => Fail(e)
      case Ok(_) =>
        var y := Patched(x, p);
        var cambios := ReporteCambios(p);
        var t := s.(reportes := s.reportes[id := y]);
        if cambios == [] then Done(t, y)
        else
          var note := ChangeNote(cambios);
          var u := Audit(t, REPORTE, ACTUALIZAR_PARCIAL, note, now);
          assert LastNote(u) == note;
          Done(u, y)
  }

  /** eliminar_reporte: removes the reporte and audits the removal. */
  function EliminarReporte(s: Store, id: int, now: int): (r: Reply<()>)
    ensures r.Fail? <==> id !in s.reportes
    ensures r.Fail? ==> r.err == NotFound
    ensures r.Done? ==> r.store.reportes == s.reportes - {id}
    ensures r.Done? ==> Frame(s, r.store, {Reportes}) && Appended(s.historial, r.store.historial, REPORTE, ELIMINAR, now)
  {
    if id !in s.reportes then Fail(NotFound)
    else Done(Audit(s.(reportes := s.reportes - {id}), REPORTE, ELIMINAR, "", now), ())
  }

  // ---------------------------------------------------------------------
  // Properties
  // ---------------------------------------------------------------------

  /** A created reporte reads back with the sent fields, and the store keeps
      its integrity and gains no dangling reference. */
  lemma CrearReporteSound(s: Store, d: ReporteDatos, now: int)
    requires Valid(s) && ReportesLinked(s)
    ensures var r := CrearReporte(s, d, now);
      r.Done? ==> && Valid(r.store) && ReportesLinked(r.store)
                  && ObtenerReporte(r.store, r.value)
                     == Ok(Reporte(d.titulo, d.descripcion, d.fecha.GetOr(now), d.usuarioId, d.creditoId, d.simulacionId))
  {
    var r := CrearReporte(s, d, now);
    if r.Done? {
      AppendKeepsIdsUnique(s.historial, r.store.historial, REPORTE, CREAR, now);
      OtherTablesKeepValid(s, r.store, {Reportes});
    }
  }

  /** A full update keeps the store's integrity and gains no dangling reference. */
  lemma ActualizarReporteSound(s: Store, id: int, d: ReporteDatos, now: int)
    requires Valid(s) && ReportesLinked(s)
    ensures var r := ActualizarReporte(s, id, d, now);
      r.Done? ==> Valid(r.store) && ReportesLinked(r.store) && ObtenerReporte(r.store, id) == Ok(r.value)
  {
    var r := ActualizarReporte(s, id, d, now);
    if r.Done? {
      AppendKeepsIdsUnique(s.historial, r.store.historial, REPORTE, ACTUALIZAR, now);
      OtherTablesKeepValid(s, r.store, {Reportes});
    }
  }

  /** A partial update keeps the store's integrity, and the reporte it
      writes names no missing row even if the stored one did. */
  lemma ActualizarReporteParcialSound(s: Store, id: int, p: ReportePatch, now: int)
    requires Valid(s)
    ensures var r := ActualizarReporteParcial(s, id, p, now);
      r.Done? ==> Valid(r.store) && ReporteLinked(r.store, r.value) && ObtenerReporte(r.store, id) == Ok(r.value)
  {
    var r := ActualizarReporteParcial(s, id, p, now);
    if r.Done? {
      if ReporteCambios(p) != [] {
        AppendKeepsIdsUnique(s.historial, r.store.historial, REPORTE, ACTUALIZAR_PARCIAL, now);
      }
      OtherTablesKeepValid(s, r.store, {Reportes});
    }
  }

  /** A partial update keeps every reporte linked when they all were. */
  lemma ActualizarReporteParcialKeepsLinked(s: Store, id: int, p: ReportePatch, now: int)
    requires ReportesLinked(s)
    ensures var r := ActualizarReporteParcial(s, id, p, now);
      r.Done? ==> ReportesLinked(r.store)
  {
  }

  /** Sending the same partial update again is accepted and leaves the
      reporte as the first one left it. */
  lemma ActualizarReporteParcialTwice(s: Store, id: int, p: ReportePatch, now: int, later: int)
    ensures var r := ActualizarReporteParcial(s, id, p, now);
      r.Done? ==>
        var r2 := ActualizarReporteParcial(r.store, id, p, later);
        r2.Done? && r2.value == r.value && r2.store.reportes == r.store.reportes
  {
    var r := ActualizarReporteParcial(s, id, p, now);
    if r.Done? {
      assert r.store.reportes[id := r.value] == r.store.reportes;
    }
  }

  /** A partial update that sends no field changes nothing and writes no
      audit row, but is still refused when a stored reference is dangling. */
  lemma ParcialWithoutFields(s: Store, id: int, now: int)
    requires id in s.reportes
    ensures var r := ActualizarReporteParcial(s, id, ReportePatch(None, None, None, None, None, None), now);
      && (r.Fail? <==> !ReporteLinked(s, s.reportes[id]))
      && (r.Done? ==> r == Done(s, s.reportes[id]))
  {
    var x := s.reportes[id];
    var p := ReportePatch(None, None, None, None, None, None);
    assert Patched(x, p) == x;
    assert s.reportes[id := x] == s.reportes;
  }

  /** A partial update that sends every field agrees with the full update
      carrying the same values: same acceptance, same row, same tables. A
      full update can also clear a reference or the description, which a
      partial update cannot express. */
  lemma ParcialWithAllFieldsIsPut(s: Store, id: int, titulo: string, descripcion: string, fecha: int,
                                  usuarioId: int, creditoId: int, simulacionId: int, now: int)
    ensures var p := ActualizarReporteParcial(s, id,
              ReportePatch(Some(titulo), Some(descripcion), Some(fecha), Some(usuarioId), Some(creditoId), Some(simulacionId)), now);
      var q := ActualizarReporte(s, id,
              ReporteDatos(titulo, Some(descripcion), Some(fecha), Some(usuarioId), Some(creditoId), Some(simulacionId)), now);
      && (p.Fail? <==> q.Fail?)
      && (p.Fail? ==> p.err == q.err)
      && (p.Done? ==> p.value == q.value && p.store.(historial := []) == q.store.(historial := []))
  {
  }

  /** Deleting a reporte removes exactly it: it no longer reads back and
      every other reporte is untouched. */
  lemma EliminarReporteSound(s: Store, id: int, now: int)
    requires Valid(s) && ReportesLinked(s)
    ensures var r := EliminarReporte(s, id, now);
      && (r.Done? ==> Valid(r.store) && ReportesLinked(r.store) && ObtenerReporte(r.store, id) == Error(NotFound))
      && (r.Done? ==> forall k | k in s.reportes && k != id :: ObtenerReporte(r.store, k) == Ok(s.reportes[k]))
  {
    var r := EliminarReporte(s, id, now);
    if r.Done? {
      AppendKeepsIdsUnique(s.historial, r.store.historial, REPORTE, ELIMINAR, now);
      OtherTablesKeepValid(s, r.store, {Reportes});
    }
  }

  /** With no filter given, the listing is the whole table. */
  lemma ListarSinFiltros(s: Store)
    ensures ListarReportes(s, ReporteFiltro(None, None, None, None, None, None)) == s.reportes
  {
  }

  /** With only a wildcard-free title filter, the listing is the reportes
      whose title contains the text, ignoring the case of ASCII letters. */
  lemma ListarPorTitulo(s: Store, texto: string)
    requires SqlLike.Literal(texto)
    ensures var r := ListarReportes(s, ReporteFiltro(None, None, None, None, None, Some(texto)));
      forall k :: k in r <==> k in s.reportes && SqlLike.OccursFolded(texto, s.reportes[k].titulo)
  {
    var r := ListarReportes(s, ReporteFiltro(None, None, None, None, None, Some(texto)));
    forall k ensures k in r <==> k in s.reportes && SqlLike.OccursFolded(texto, s.reportes[k].titulo) {
      if k in s.reportes {
        SqlLike.ContainsLiteral(s.reportes[k].titulo, texto);
        if texto == "" {
          SqlLike.ContainsEmpty(s.reportes[k].titulo);
        }
      }
    }
  }
}
