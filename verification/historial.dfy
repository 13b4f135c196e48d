/** routers/historial_router.py: reading and pruning the audit table. The
    listing filters, orders by date, newest first, and returns one page. */
module Historiales {
  import opened Wrappers
  import opened Entities
  import SqlLike

  /** The query parameters of the listing; `None` is "no such filter". */
  datatype HistorialFiltro = HistorialFiltro(
    entidad: Option<string>, accion: Option<string>, descripcion: Option<string>,
    desde: Option<int>, hasta: Option<int>, limit: int, offset: int)

  /** The default page: the first 100 rows. */
  const LIMIT_DEFAULT := 100
  /** The largest page a client may ask for. */
  const LIMIT_MAX := 1000

  /** The listing's filters, each one only when given: the same entity and
      the same action when non-empty ones are given, a description
      containing a non-empty search text, a date within the inclusive bounds. */
  predicate HistorialMatches(q: HistorialFiltro, x: Historial) {
    && (q.entidad.Some? && q.entidad.value != "" ==> x.entidad == q.entidad.value)
    && (q.accion.Some? && q.accion.value != "" ==> x.accion == q.accion.value)
    && (q.descripcion.Some? && q.descripcion.value != "" ==> SqlLike.Contains(x.descripcion, q.descripcion.value))
    && (q.desde.Some? ==> x.fecha >= q.desde.value)
    && (q.hasta.Some? ==> x.fecha <= q.hasta.value)
  }

  /** The rows of `h` that pass the filters, in table order. */
  function Filtrar(h: seq<Historial>, q: HistorialFiltro): (r: seq<Historial>)
    ensures forall i | 0 <= i < |r| :: HistorialMatches(q, r[i])
    ensures forall x :: multiset(r)[x] == (if HistorialMatches(q, x) then multiset(h)[x] else 0)
  {
    if |h| == 0 then []
    else
      var rest := Filtrar(h[1..], q);
      assert h == [h[0]] + h[1..];
      if HistorialMatches(q, h[0]) then [h[0]] + rest else rest
  }

  /** Dates do not increase along `r`: `ORDER BY fecha DESC`. */
  predicate SortedDesc(r: seq<Historial>) {
    forall i, j | 0 <= i < j < |r| :: r[i].fecha >= r[j].fecha
  }

  /** `x` placed into the date-ordered `r` ahead of the rows with its date. */
  function InsertDesc(x: Historial, r: seq<Historial>): (t: seq<Historial>)
    requires SortedDesc(r)
    ensures SortedDesc(t)
    ensures multiset(t) == multiset(r) + multiset{x}
  {
    if |r| == 0 then [x]
    else if x.fecha >= r[0].fecha then [x] + r
    else
      var t := InsertDesc(x, r[1..]);
      InsertedBelowHead(x, r, t);
      ConsSortedDesc(r[0], t);
      assert r == [r[0]] + r[1..];
      [r[0]] + t
  }

  /** Every row of `t`, which holds the tail of `r` and a row `x` dated
      before `r`'s head, is dated no later than that head. */
  lemma InsertedBelowHead(x: Historial, r: seq<Historial>, t: seq<Historial>)
    requires SortedDesc(r) && |r| > 0 && x.fecha < r[0].fecha
    requires multiset(t) == multiset(r[1..]) + multiset{x}
    ensures forall j | 0 <= j < |t| :: r[0].fecha >= t[j].fecha
  {
    forall j | 0 <= j < |t| ensures r[0].fecha >= t[j].fecha {
      assert t[j] in multiset(t);
      if t[j] != x {
        assert t[j] in r[1..];
        var k :| 0 <= k < |r[1..]| && r[1..][k] == t[j];
        assert r[k + 1] == t[j];
      }
    }
  }

  /** A row dated no earlier than every row of a date-ordered `t` can go
      in front of it. */
  lemma ConsSortedDesc(a: Historial, t: seq<Historial>)
    requires SortedDesc(t) && forall j | 0 <= j < |t| :: a.fecha >= t[j].fecha
    ensures SortedDesc([a] + t)
  {
    var u := [a] + t;
    forall i, j | 0 <= i < j < |u| ensures u[i].fecha >= u[j].fecha {
      assert u[j] == t[j - 1];
      if i > 0 { assert u[i] == t[i - 1]; }
    }
  }

  /** The rows of `h` ordered by date, newest first; rows with the same date
      keep their table order. */
  function SortDesc(h: seq<Historial>): (r: seq<Historial>)
    ensures SortedDesc(r)
    ensures multiset(r) == multiset(h)
  {
    if |h| == 0 then []
    else
      assert h == [h[0]] + h[1..];
      InsertDesc(h[0], SortDesc(h[1..]))
  }

  /** `OFFSET offset LIMIT limit` applied to `r`. */
  function Window<T>(r: seq<T>, offset: nat, limit: nat): (w: seq<T>)
    ensures |w| == if offset >= |r| then 0 else if offset + limit <= |r| then limit else |r| - offset
    ensures forall i | 0 <= i < |w| :: w[i] == r[offset + i]
  {
    var lo := if offset <= |r| then offset else |r|;
    var hi := if offset + limit <= |r| then offset + limit else |r|;
    r[lo..hi]
  }

  /** The page `w` is rows `offset` to `offset + limit` of some ordering of
      the rows in `all` by date, newest first. */
  ghost predicate IsPage(w: seq<Historial>, all: multiset<Historial>, offset: nat, limit: nat) {
    exists ordered: seq<Historial> :: multiset(ordered) == all && SortedDesc(ordered) && w == Window(ordered, offset, limit)
  }

  /** listar_historial: rejects a page size outside 1..1000 or a negative
      offset; otherwise returns one page of the matching rows, newest first. */
  function ListarHistorial(s: Store, q: HistorialFiltro): (r: Result<seq<Historial>>)
    ensures r.Error? <==> !(1 <= q.limit <= LIMIT_MAX && q.offset >= 0)
    ensures r.Error? ==> r.err == BadRequest
    ensures r.Ok? ==> |r.value| <= q.limit
    ensures r.Ok? ==> forall i | 0 <= i < |r.value| :: r.value[i] in s.historial && HistorialMatches(q, r.value[i])
    ensures r.Ok? ==> SortedDesc(r.value)
    ensures r.Ok? ==> IsPage(r.value, multiset(Filtrar(s.historial, q)), q.offset, q.limit)
  {
    if !(1 <= q.limit <= LIMIT_MAX && q.offset >= 0) then Error(BadRequest)
    else
      var matching := Filtrar(s.historial, q);
      var ordered := SortDesc(matching);
      var w := Window(ordered, q.offset, q.limit);
      WindowOfSorted(ordered, q.offset, q.limit);
      forall i | 0 <= i < |w| ensures w[i] in s.historial && HistorialMatches(q, w[i]) {
        assert w[i] in multiset(ordered);
        assert w[i] in multiset(matching);
      }
      assert IsPage(w, multiset(matching), q.offset, q.limit);
      Ok(w)
  }

  /** A page of a date-ordered sequence is date-ordered and drawn from it. */
  lemma WindowOfSorted(r: seq<Historial>, offset: nat, limit: nat)
    requires SortedDesc(r)
    ensures SortedDesc(Window(r, offset, limit))
    ensures forall i | 0 <= i < |Window(r, offset, limit)| :: Window(r, offset, limit)[i] in multiset(r)
  {
    var w := Window(r, offset, limit);
    forall i, j | 0 <= i < j < |w| ensures w[i].fecha >= w[j].fecha {
      assert w[i] == r[offset + i] && w[j] == r[offset + j];
    }
    forall i | 0 <= i < |w| ensures w[i] in multiset(r) {
      assert w[i] == r[offset + i];
    }
  }

  /** The position of the first row keyed `id`, if any. */
  function Find(h: seq<Historial>, id: int): (r: Option<nat>)
    ensures r.Some? ==> r.value < |h| && h[r.value].idHistorial == id
    ensures r.Some? ==> forall i | 0 <= i < r.value :: h[i].idHistorial != id
    ensures r.None? ==> forall i | 0 <= i < |h| :: h[i].idHistorial != id
  {
    if |h| == 0 then None
    else if h[0].idHistorial == id then Some(0)
    else
      match Find(h[1..], id)
      case None => None
      case Some(i) => Some(i + 1)
  }

  /** obtener_historial */
  function ObtenerHistorial(s: Store, id: int): (r: Result<Historial>)
    ensures r.Ok? <==> exists i | 0 <= i < |s.historial| :: s.historial[i].idHistorial == id
    ensures r.Ok? ==> r.value in s.historial && r.value.idHistorial == id
    ensures r.Error? ==> r.err == NotFound
  {
    match Find(s.historial, id)
    case None => Error(NotFound)
    case Some(i) => Ok(s.historial[i])
  }

  /** The rows of `h` not keyed `id`, in table order. */
  function Without(h: seq<Historial>, id: int): (r: seq<Historial>)
    ensures forall x :: x in r <==> x in h && x.idHistorial != id
  {
    if |h| == 0 then []
    else
      var rest := Without(h[1..], id);
      assert forall x :: x in h <==> x == h[0] || x in h[1..] by {
        assert h == [h[0]] + h[1..];
      }
      if h[0].idHistorial == id then rest else [h[0]] + rest
  }

  /** eliminar_historial: removes the row with that key; it writes no audit
      row of its own and touches no other table. */
  function EliminarHistorial(s: Store, id: int): (r: Reply<()>)
    ensures r.Fail? <==> forall i | 0 <= i < |s.historial| :: s.historial[i].idHistorial != id
    ensures r.Fail? ==> r.err == NotFound
    ensures r.Done? ==> forall x :: x in r.store.historial <==> x in s.historial && x.idHistorial != id
    ensures r.Done? ==> r.store == s.(historial := r.store.historial)
  {
    match Find(s.historial, id)
    case None => Fail(NotFound)
    case Some(_) =>
      var h := Without(s.historial, id);
      Done(s.(historial := h), ())
  }

  // ---------------------------------------------------------------------
  // Properties
  // ---------------------------------------------------------------------

  /** Dropping the first row keeps audit keys distinct. */
  lemma TailKeepsIdsUnique(h: seq<Historial>)
    requires |h| > 0 && HistorialIdsUnique(h)
    ensures HistorialIdsUnique(h[1..])
  {
    forall a, b | 0 <= a < b < |h[1..]| ensures h[1..][a].idHistorial != h[1..][b].idHistorial {
      assert h[1..][a] == h[a + 1] && h[1..][b] == h[b + 1];
    }
  }

  /** Removing a key no row carries changes nothing. */
  lemma {:induction false} WithoutKeepsAll(h: seq<Historial>, id: int)
    requires forall j | 0 <= j < |h| :: h[j].idHistorial != id
    ensures Without(h, id) == h
  {
    if |h| > 0 {
      assert forall j | 0 <= j < |h[1..]| :: h[1..][j].idHistorial != id by {
        forall j | 0 <= j < |h[1..]| ensures h[1..][j].idHistorial != id {
          assert h[1..][j] == h[j + 1];
        }
      }
      WithoutKeepsAll(h[1..], id);
      assert h == [h[0]] + h[1..];
    }
  }

  /** With distinct keys, removing the key of the row at position `i` cuts
      out exactly that position. */
  lemma {:induction false} WithoutCutsOne(h: seq<Historial>, id: int, i: nat)
    requires HistorialIdsUnique(h) && i < |h| && h[i].idHistorial == id
    ensures Without(h, id) == h[..i] + h[i + 1..]
  {
    if i == 0 {
      forall j | 0 <= j < |h[1..]| ensures h[1..][j].idHistorial != id {
        assert h[1..][j] == h[j + 1];
      }
      WithoutKeepsAll(h[1..], id);
      assert h[i + 1..] == h[1..];
    } else {
      TailKeepsIdsUnique(h);
      assert h[1..][i - 1] == h[i];
      WithoutCutsOne(h[1..], id, i - 1);
      assert h[0].idHistorial != id;
      CutOfTail(h, i);
    }
  }

  /** Cutting position `i - 1` out of the tail and putting the head back is
      cutting position `i` out of the whole. */
  lemma CutOfTail<T>(h: seq<T>, i: nat)
    requires 0 < i < |h|
    ensures [h[0]] + (h[1..][..i - 1] + h[1..][i..]) == h[..i] + h[i + 1..]
  {
    assert h[1..][..i - 1] == h[1..i] && h[1..][i..] == h[i + 1..];
    assert h[..i] == [h[0]] + h[1..i];
  }

  /** Cutting one position out keeps audit keys distinct. */
  lemma CutKeepsIdsUnique(h: seq<Historial>, i: nat)
    requires HistorialIdsUnique(h) && i < |h|
    ensures HistorialIdsUnique(h[..i] + h[i + 1..])
  {
    var t := h[..i] + h[i + 1..];
    forall a, b | 0 <= a < b < |t| ensures t[a].idHistorial != t[b].idHistorial {
      var a' := if a < i then a else a + 1;
      var b' := if b < i then b else b + 1;
      assert t[a] == h[a'] && t[b] == h[b'];
    }
  }

  /** Deleting an audit row removes exactly that row: the table is the old
      one with one position cut out, so the store keeps its integrity. */
  lemma EliminarHistorialSound(s: Store, id: int)
    requires Valid(s)
    ensures var r := EliminarHistorial(s, id);
      r.Done? ==> && Valid(r.store)
                  && exists i | 0 <= i < |s.historial| ::
                       s.historial[i].idHistorial == id && r.store.historial == s.historial[..i] + s.historial[i + 1..]
  {
    var r := EliminarHistorial(s, id);
    if r.Done? {
      var i := Find(s.historial, id).value;
      WithoutCutsOne(s.historial, id, i);
      CutKeepsIdsUnique(s.historial, i);
    }
  }

  /** A deleted audit row no longer reads back. */
  lemma EliminarThenObtener(s: Store, id: int)
    ensures var r := EliminarHistorial(s, id);
      r.Done? ==> ObtenerHistorial(r.store, id) == Error(NotFound)
  {
  }

  /** Two consecutive pages of the same query put together are the page
      spanning both. */
  lemma PagesConcatenate<T>(r: seq<T>, offset: nat, a: nat, b: nat)
    ensures Window(r, offset, a) + Window(r, offset + a, b) == Window(r, offset, a + b)
  {
  }

  /** The first page with a limit covering every match holds every matching
      row of the table. */
  lemma FirstPageIsComplete(s: Store, q: HistorialFiltro, x: Historial)
    requires q.offset == 0 && 1 <= q.limit <= LIMIT_MAX && |Filtrar(s.historial, q)| <= q.limit
    requires x in s.historial && HistorialMatches(q, x)
    ensures var r := ListarHistorial(s, q); r.Ok? && x in r.value
  {
    var r := ListarHistorial(s, q);
    var all := multiset(Filtrar(s.historial, q));
    var ordered :| multiset(ordered) == all && SortedDesc(ordered) && r.value == Window(ordered, 0, q.limit);
    assert |ordered| == |Filtrar(s.historial, q)| by {
      assert |multiset(ordered)| == |ordered|;
      assert |multiset(Filtrar(s.historial, q))| == |Filtrar(s.historial, q)|;
    }
    assert r.value == ordered;
    assert x in multiset(s.historial);
    assert x in all;
  }
}
