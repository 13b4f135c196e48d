/** The tables of the credit-simulation store (the models package), the store as one
    immutable value, the audit trail every handler writes to, and the
    integrity properties the handlers are meant to keep.

    Every table is a map from primary key to row. The audit table (Historial)
    is a sequence in insertion order, each row carrying its own key, because
    its listing is ordered and paginated. */
module Entities {
  import opened Wrappers
  import Text

  // ---------------------------------------------------------------------
  // Rows (the models package). Primary keys are the map keys of the store.
  // Floating-point amounts are only stored and compared, so they are `real`.
  // Timestamps are instants on one integer time line.
  // ---------------------------------------------------------------------

  /** models/usuario.py: `cedula` is the stored path of the uploaded ID scan. */
  datatype Usuario = Usuario(
    nombre: string, ingresos: real, gastos: real, correo: string, telefono: string,
    cedula: Option<string>)

  /** models/credito.py */
  datatype Credito = Credito(
    monto: real, plazo: int, tipo: string, descripcion: Option<string>, usuarioId: int)

  /** models/interes.py */
  datatype Interes = Interes(tasa: real, tipo: string, creditoId: int)

  /** models/simulacion.py */
  datatype Simulacion = Simulacion(
    cuotaMensual: real, interesTotal: real, saldoFinal: real, interesId: int)

  /** models/reporte.py: the three references are optional. */
  datatype Reporte = Reporte(
    titulo: string, descripcion: Option<string>, fecha: int,
    usuarioId: Option<int>, creditoId: Option<int>, simulacionId: Option<int>)

  /** models/categoria.py */
  datatype Categoria = Categoria(nombre: string, descripcion: Option<string>)

  /** models/credito_categoria.py: one row of the Credito-Categoria link table. */
  datatype CreditoCategoria = CreditoCategoria(creditoId: int, categoriaId: int)

  /** models/historial.py: one audit row. */
  datatype Historial = Historial(
    idHistorial: int, entidad: string, accion: string, descripcion: string, fecha: int)

  /** The whole database. */
  datatype Store = Store(
    usuarios: map<int, Usuario>,
    creditos: map<int, Credito>,
    intereses: map<int, Interes>,
    simulaciones: map<int, Simulacion>,
    reportes: map<int, Reporte>,
    categorias: map<int, Categoria>,
    links: map<int, CreditoCategoria>,
    historial: seq<Historial>)

  /** The answer of a handler that may write: the store after its single
      commit and the value it returns, or a rejection. A rejection carries no
      store: a rejected request commits nothing. */
  datatype Reply<+T> = Done(store: Store, value: T) | Fail(err: Err)

  /** A freshly created database. */
  const Empty := Store(map[], map[], map[], map[], map[], map[], map[], [])

  /** The tables other than the audit table, for stating what a handler leaves alone. */
  datatype Table = Usuarios | Creditos | Intereses | Simulaciones | Reportes | Categorias | Links

  /** `t` differs from `s` at most in the tables listed in `touched` and in
      the audit table. */
  ghost predicate Frame(s: Store, t: Store, touched: set<Table>) {
    && (Usuarios !in touched ==> t.usuarios == s.usuarios)
    && (Creditos !in touched ==> t.creditos == s.creditos)
    && (Intereses !in touched ==> t.intereses == s.intereses)
    && (Simulaciones !in touched ==> t.simulaciones == s.simulaciones)
    && (Reportes !in touched ==> t.reportes == s.reportes)
    && (Categorias !in touched ==> t.categorias == s.categorias)
    && (Links !in touched ==> t.links == s.links)
  }

  // ---------------------------------------------------------------------
  // Primary keys. The tables are SQLite `INTEGER PRIMARY KEY` columns
  // without AUTOINCREMENT: a new row gets one more than the largest key in
  // its table, or 1 in an empty table.
  // ---------------------------------------------------------------------

  predicate IsMax(ks: set<int>, m: int) {
    m in ks && forall k | k in ks :: k <= m
  }

  predicate IsMin(ks: set<int>, m: int) {
    m in ks && forall k | k in ks :: m <= k
  }

  lemma NonEmptyHasElement(ks: set<int>)
    requires ks != {}
    ensures exists k :: k in ks
  {
    if forall k :: k !in ks {
      assert false;
    }
  }

  /** Every finite non-empty set of integers has a largest and a smallest element. */
  lemma {:induction false} ExtremesExist(ks: set<int>)
    requires ks != {}
    ensures exists m :: IsMax(ks, m)
    ensures exists m :: IsMin(ks, m)
    decreases |ks|
  {
    NonEmptyHasElement(ks);
    var x :| x in ks;
    if ks == {x} {
      assert IsMax(ks, x) && IsMin(ks, x);
    } else {
      var rest := ks - {x};
      assert rest != {} by { NonEmptyHasElement(ks - {x}) ; }
      ExtremesExist(rest);
      var hi :| IsMax(rest, hi);
      var lo :| IsMin(rest, lo);
      assert forall k | k in ks :: k == x || k in rest;
      if x > hi { assert IsMax(ks, x); } else { assert IsMax(ks, hi); }
      if x < lo { assert IsMin(ks, x); } else { assert IsMin(ks, lo); }
    }
  }

  function MaxKey(ks: set<int>): (m: int)
    requires ks != {}
    ensures IsMax(ks, m)
  {
    ExtremesExist(ks);
    var m :| IsMax(ks, m); m
  }

  /** The smallest key: the row a `.first()` over an unordered SQLite query
      returns, since SQLite scans a table in key order. */
  function MinKey(ks: set<int>): (m: int)
    requires ks != {}
    ensures IsMin(ks, m)
  {
    ExtremesExist(ks);
    var m :| IsMin(ks, m); m
  }

  /** The key SQLite gives the next row inserted into `m`. */
  function NextKey<T>(m: map<int, T>): (k: int)
    ensures k !in m
    ensures forall j | j in m :: j < k
    ensures m == map[] ==> k == 1
  {
    if m == map[] then 1 else MaxKey(m.Keys) + 1
  }

  /** The largest key of a non-empty audit table. */
  function MaxHistorialId(h: seq<Historial>): (m: int)
    requires |h| > 0
    ensures forall i | 0 <= i < |h| :: h[i].idHistorial <= m
    ensures exists i | 0 <= i < |h| :: h[i].idHistorial == m
  {
    var last := h[|h| - 1].idHistorial;
    if |h| == 1 then last
    else
      var m := MaxHistorialId(h[..|h| - 1]);
      assert forall i | 0 <= i < |h| - 1 :: h[..|h| - 1][i] == h[i];
      if last > m then last else m
  }

  /** The key SQLite gives the next audit row. */
  function NextHistorialId(h: seq<Historial>): (k: int)
    ensures forall i | 0 <= i < |h| :: h[i].idHistorial < k
    ensures |h| == 0 ==> k == 1
  {
    if |h| == 0 then 1 else MaxHistorialId(h) + 1
  }

  // ---------------------------------------------------------------------
  // The audit trail.
  // ---------------------------------------------------------------------

  const USUARIO := "Usuario"
  const CATEGORIA := "Categoría"
  const CATEGORIA_CREDITO := "Categoría-Crédito"
  const REPORTE := "Reporte"
  const SIMULACION := "Simulación"
  const INTERES := "Interés"
  const SISTEMA := "Sistema"

  const CREAR := "CREAR"
  const ACTUALIZAR := "ACTUALIZAR"
  const ACTUALIZAR_PARCIAL := "ACTUALIZAR_PARCIAL"
  const ELIMINAR := "ELIMINAR"
  const ASIGNAR := "ASIGNAR"
  const DESASIGNAR := "DESASIGNAR"
  const INICIALIZACION := "INICIALIZACIÓN"

  /** The part of a partial-update audit text that lists the changed fields. */
  function ChangeNote(cambios: seq<string>): string {
    "Campos modificados: " + Text.Join(cambios, ", ")
  }

  /** `rest` led by `name` when that field was sent: one step in building
      the list of changed fields a partial update reports. */
  function AddIf(sent: bool, name: string, rest: seq<string>): (r: seq<string>)
    ensures forall n :: n in r <==> (sent && n == name) || n in rest
    ensures r == [] <==> !sent && rest == []
  {
    if sent then [name] + rest else rest
  }

  /** `h2` is `h` plus one row with the given entity, action and time, under
      a key larger than every earlier one. */
  ghost predicate Appended(h: seq<Historial>, h2: seq<Historial>, entidad: string, accion: string, now: int) {
    && |h2| == |h| + 1
    && h2[..|h|] == h
    && h2[|h|].entidad == entidad && h2[|h|].accion == accion && h2[|h|].fecha == now
    && forall i | 0 <= i < |h| :: h[i].idHistorial < h2[|h|].idHistorial
  }

  /** `h2` is `h` plus two rows stamped `now`: first one for `accion1` on
      `entidad1`, then one for `accion2` on `entidad2`. */
  ghost predicate AppendedTwo(h: seq<Historial>, h2: seq<Historial>,
                              entidad1: string, accion1: string, entidad2: string, accion2: string, now: int) {
    && |h2| == |h| + 2
    && Appended(h, h2[..|h| + 1], entidad1, accion1, now)
    && Appended(h2[..|h| + 1], h2, entidad2, accion2, now)
  }

  /** Adds one audit row stamped `now` under the next audit key. */
  function Audit(s: Store, entidad: string, accion: string, descripcion: string, now: int): (t: Store)
    ensures Appended(s.historial, t.historial, entidad, accion, now)
    ensures t.historial[|s.historial|].descripcion == descripcion
    ensures t == s.(historial := t.historial)
  {
    var h := s.historial + [Historial(NextHistorialId(s.historial), entidad, accion, descripcion, now)];
    assert h[..|s.historial|] == s.historial;
    s.(historial := h)
  }

  /** The description of the last audit row of `t`. */
  function LastNote(t: Store): string
    requires |t.historial| > 0
  {
    t.historial[|t.historial| - 1].descripcion
  }

  // ---------------------------------------------------------------------
  // Integrity the handlers are meant to keep.
  // ---------------------------------------------------------------------

  /** No two categorias share a name. */
  ghost predicate NamesUnique(s: Store) {
    forall a, b | a in s.categorias && b in s.categorias && a != b ::
      s.categorias[a].nombre != s.categorias[b].nombre
  }

  /** No (credito, categoria) pair is linked twice. */
  ghost predicate PairsUnique(s: Store) {
    forall a, b | a in s.links && b in s.links && a != b :: s.links[a] != s.links[b]
  }

  /** Every credito belongs to an existing usuario. */
  ghost predicate CreditosOwned(s: Store) {
    forall k | k in s.creditos :: s.creditos[k].usuarioId in s.usuarios
  }

  /** Every link names an existing categoria. */
  ghost predicate LinksCategorized(s: Store) {
    forall k | k in s.links :: s.links[k].categoriaId in s.categorias
  }

  /** No two audit rows share a key. */
  ghost predicate HistorialIdsUnique(h: seq<Historial>) {
    forall i, j | 0 <= i < j < |h| :: h[i].idHistorial != h[j].idHistorial
  }

  /** The integrity every handler keeps. */
  ghost predicate Valid(s: Store) {
    && NamesUnique(s)
    && PairsUnique(s)
    && CreditosOwned(s)
    && LinksCategorized(s)
    && HistorialIdsUnique(s.historial)
  }

  /** Writing an audit row keeps the store's integrity. */
  lemma AppendKeepsIdsUnique(h: seq<Historial>, h2: seq<Historial>, entidad: string, accion: string, now: int)
    requires HistorialIdsUnique(h) && Appended(h, h2, entidad, accion, now)
    ensures HistorialIdsUnique(h2)
  {
    forall i, j | 0 <= i < j < |h2| ensures h2[i].idHistorial != h2[j].idHistorial {
      assert h2[i] == h[i];
      if j < |h| { assert h2[j] == h[j]; }
    }
  }

  /** Writing two audit rows keeps the audit keys distinct. */
  lemma AppendTwoKeepsIdsUnique(h: seq<Historial>, h2: seq<Historial>,
                                entidad1: string, accion1: string, entidad2: string, accion2: string, now: int)
    requires HistorialIdsUnique(h) && AppendedTwo(h, h2, entidad1, accion1, entidad2, accion2, now)
    ensures HistorialIdsUnique(h2)
  {
    AppendKeepsIdsUnique(h, h2[..|h| + 1], entidad1, accion1, now);
    AppendKeepsIdsUnique(h2[..|h| + 1], h2, entidad2, accion2, now);
  }

  /** A handler that writes neither usuarios, creditos, categorias nor links
      and keeps audit keys distinct keeps the store's integrity. */
  lemma OtherTablesKeepValid(s: Store, t: Store, touched: set<Table>)
    requires Valid(s) && Frame(s, t, touched) && HistorialIdsUnique(t.historial)
    requires Usuarios !in touched && Creditos !in touched && Categorias !in touched && Links !in touched
    ensures Valid(t)
  {
  }

  // ---------------------------------------------------------------------
  // Query building blocks: `select(T).where(...)`.
  // ---------------------------------------------------------------------

  /** The rows of `m` that satisfy `keep`, under their own keys. */
  function Where<T>(m: map<int, T>, keep: T -> bool): (r: map<int, T>)
    ensures forall k :: k in r <==> k in m && keep(m[k])
    ensures forall k | k in r :: r[k] == m[k]
  {
    map k | k in m && keep(m[k]) :: m[k]
  }

  /** Every clause of `cs` holds of `x`. */
  predicate AllHold<T>(cs: seq<T -> bool>, x: T) {
    forall i | 0 <= i < |cs| :: cs[i](x)
  }

  /** `select(T)` followed by one `.where(c)` for each clause `c` of `cs`, in
      order: the rows satisfying every clause. */
  function Select<T>(m: map<int, T>, cs: seq<T -> bool>): (r: map<int, T>)
    ensures forall k :: k in r <==> k in m && AllHold(cs, m[k])
    ensures forall k | k in r :: r[k] == m[k]
    decreases |cs|
  {
    if cs == [] then m
    else
      var r := Select(Where(m, cs[0]), cs[1..]);
      forall k | k in m ensures AllHold(cs, m[k]) <==> cs[0](m[k]) && AllHold(cs[1..], m[k]) {
        if cs[0](m[k]) && AllHold(cs[1..], m[k]) {
          forall i | 0 <= i < |cs| ensures cs[i](m[k]) {
            if i > 0 { assert cs[i] == cs[1..][i - 1]; }
          }
        }
      }
      r
  }

  /** The result of `session.get(T, id)`. */
  function Get<T>(m: map<int, T>, id: int): (r: Result<T>)
    ensures r.Ok? <==> id in m
    ensures r.Ok? ==> r.value == m[id]
    ensures r.Error? ==> r.err == NotFound
  {
    if id in m then Ok(m[id]) else Error(NotFound)
  }
}
