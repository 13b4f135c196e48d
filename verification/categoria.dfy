/** routers/categoria_router.py: categorias, their links to creditos, and
    the two HTML-form handlers. Names are compared exactly (SQLite `=`), and
    the form handlers strip their text fields first. */
module Categorias {
  import opened Wrappers
  import opened Entities
  import Text
  import SqlLike

  /** Some categoria is named exactly `nombre`: the duplicate-name query. */
  predicate NameTaken(s: Store, nombre: string) {
    exists k | k in s.categorias :: s.categorias[k].nombre == nombre
  }

  /** Some link joins `creditoId` and `categoriaId`. */
  predicate Linked(s: Store, creditoId: int, categoriaId: int) {
    exists k | k in s.links :: s.links[k] == CreditoCategoria(creditoId, categoriaId)
  }

  /** The keys of the links joining `creditoId` and `categoriaId`. */
  function LinksFor(s: Store, creditoId: int, categoriaId: int): (ks: set<int>)
    ensures forall k :: k in ks <==> k in s.links && s.links[k] == CreditoCategoria(creditoId, categoriaId)
  {
    set k | k in s.links && s.links[k] == CreditoCategoria(creditoId, categoriaId)
  }

  /** The links of every categoria other than `categoriaId`. */
  function LinksWithout(links: map<int, CreditoCategoria>, categoriaId: int): (r: map<int, CreditoCategoria>)
    ensures forall k :: k in r <==> k in links && links[k].categoriaId != categoriaId
    ensures forall k | k in r :: r[k] == links[k]
  {
    Where(links, (l: CreditoCategoria) => l.categoriaId != categoriaId)
  }

  // ---------------------------------------------------------------------
  // JSON API
  // ---------------------------------------------------------------------

  /** crear_categoria: rejects a name already in use, else stores the
      categoria under a fresh key and audits the creation. */
  function CrearCategoria(s: Store, c: Categoria, now: int): (r: Reply<int>)
    ensures r.Fail? <==> exists k | k in s.categorias :: s.categorias[k].nombre == c.nombre
    ensures r.Fail? ==> r.err == BadRequest
    ensures r.Done? ==> r.value !in s.categorias && r.store.categorias == s.categorias[r.value := c]
    ensures r.Done? ==> Frame(s, r.store, {Categorias}) && Appended(s.historial, r.store.historial, CATEGORIA, CREAR, now)
  {
    if NameTaken(s, c.nombre) then Fail(BadRequest)
    else
      var id := NextKey(s.categorias);
      Done(Audit(s.(categorias := s.categorias[id := c]), CATEGORIA, CREAR, "", now), id)
  }

  /** listar_categorias: every categoria, or, when a non-empty `nombre` is
      given, those whose name contains it. */
  function ListarCategorias(s: Store, nombre: Option<string>): (r: map<int, Categoria>)
    ensures forall k :: k in r <==> (k in s.categorias &&
      (nombre.Some? && nombre.value != "" ==> SqlLike.Contains(s.categorias[k].nombre, nombre.value)))
    ensures forall k | k in r :: r[k] == s.categorias[k]
  {
    if nombre.Some? && nombre.value != "" then
      var x := nombre.value;
      Where(s.categorias, (c: Categoria) => SqlLike.Contains(c.nombre, x))
    else s.categorias
  }

  /** obtener_categoria */
  function ObtenerCategoria(s: Store, id: int): (r: Result<Categoria>)
    ensures r.Ok? <==> id in s.categorias
    ensures r.Ok? ==> r.value == s.categorias[id]
    ensures r.Error? ==> r.err == NotFound
  {
    Get(s.categorias, id)
  }

  /** actualizar_categoria (PUT): replaces name and description; a new name
      must not belong to any categoria, keeping the current one is allowed. */
  function ActualizarCategoria(s: Store, id: int, datos: Categoria, now: int): (r: Reply<Categoria>)
    ensures r.Fail? <==> (id !in s.categorias ||
      (datos.nombre != s.categorias[id].nombre && exists k | k in s.categorias :: s.categorias[k].nombre == datos.nombre))
    ensures r.Fail? ==> r.err == (if id !in s.categorias then NotFound else BadRequest)
    ensures r.Done? ==> r.value == datos && r.store.categorias == s.categorias[id := datos]
    ensures r.Done? ==> Frame(s, r.store, {Categorias}) && Appended(s.historial, r.store.historial, CATEGORIA, ACTUALIZAR, now)
  {
    if id !in s.categorias then Fail(NotFound)
    else if datos.nombre != s.categorias[id].nombre && NameTaken(s, datos.nombre) then Fail(BadRequest)
    else
      var c := Categoria(datos.nombre, datos.descripcion);
      Done(Audit(s.(categorias := s.categorias[id := c]), CATEGORIA, ACTUALIZAR, "", now), c)
  }

  /** The fields a PATCH changes, in the order the handler lists them: the
      name only when it differs from the current one. */
  function CategoriaCambios(actual: Categoria, nombre: Option<string>, descripcion: Option<string>): (cambios: seq<string>)
    ensures "nombre" in cambios <==> nombre.Some? && nombre.value != actual.nombre
    ensures "descripcion" in cambios <==> descripcion.Some?
    ensures cambios == [] <==> (nombre.None? || nombre.value == actual.nombre) && descripcion.None?
  {
    AddIf(nombre.Some? && nombre.value != actual.nombre, "nombre",
    AddIf(descripcion.Some?, "descripcion", []))
  }

  /** actualizar_categoria_parcial (PATCH): changes only the supplied fields
      and audits only when something changed. */
  function ActualizarCategoriaParcial(s: Store, id: int, nombre: Option<string>, descripcion: Option<string>, now: int): (r: Reply<Categoria>)
    ensures r.Fail? <==> (id !in s.categorias ||
      (nombre.Some? && nombre.value != s.categorias[id].nombre && exists k | k in s.categorias :: s.categorias[k].nombre == nombre.value))
    ensures r.Fail? ==> r.err == (if id !in s.categorias then NotFound else BadRequest)
    ensures r.Done? ==> id in s.categorias
    ensures r.Done? ==> r.value.nombre == nombre.GetOr(s.categorias[id].nombre)
    ensures r.Done? ==> r.value.descripcion == (if descripcion.Some? then descripcion else s.categorias[id].descripcion)
    ensures r.Done? ==> r.store == s.(categorias := s.categorias[id := r.value], historial := r.store.historial)
    ensures r.Done? ==>
      var cambios := CategoriaCambios(s.categorias[id], nombre, descripcion);
      if cambios == [] then r.store.historial == s.historial
      else Appended(s.historial, r.store.historial, CATEGORIA, ACTUALIZAR_PARCIAL, now)
  {
    if id !in s.categorias then Fail(NotFound)
    else
      var actual := s.categorias[id];
      if nombre.Some? && nombre.value != actual.nombre && NameTaken(s, nombre.value) then Fail(BadRequest)
      else
        var c := Categoria(nombre.GetOr(actual.nombre), if descripcion.Some? then descripcion else actual.descripcion);
        var cambios := CategoriaCambios(actual, nombre, descripcion);
        var t := s.(categorias := s.categorias[id := c]);
        if cambios == [] then Done(t, c)
        else
          Done(Audit(t, CATEGORIA, ACTUALIZAR_PARCIAL, ChangeNote(cambios), now), c)
  }

  /** eliminar_categoria: removes the categoria and every link to it. */
  function EliminarCategoria(s: Store, id: int, now: int): (r: Reply<()>)
    ensures r.Fail? <==> id !in s.categorias
    ensures r.Fail? ==> r.err == NotFound
    ensures r.Done? ==> r.store.categorias == s.categorias - {id}
    ensures r.Done? ==> forall k :: k in r.store.links <==> k in s.links && s.links[k].categoriaId != id
    ensures r.Done? ==> forall k | k in r.store.links :: r.store.links[k] == s.links[k]
    ensures r.Done? ==> Frame(s, r.store, {Categorias, Links}) && Appended(s.historial, r.store.historial, CATEGORIA, ELIMINAR, now)
  {
    if id !in s.categorias then Fail(NotFound)
    else
      var t := s.(categorias := s.categorias - {id}, links := LinksWithout(s.links, id));
      Done(Audit(t, CATEGORIA, ELIMINAR, "", now), ())
  }

  /** asignar_categoria_a_credito: links an existing categoria to an
      existing credito unless they are already linked. */
  function AsignarCategoria(s: Store, categoriaId: int, creditoId: int, now: int): (r: Reply<int>)
    ensures r.Fail? <==> (categoriaId !in s.categorias || creditoId !in s.creditos ||
      exists k | k in s.links :: s.links[k] == CreditoCategoria(creditoId, categoriaId))
    ensures r.Fail? ==> r.err == (if categoriaId in s.categorias && creditoId in s.creditos then BadRequest else NotFound)
    ensures r.Done? ==> r.value !in s.links && r.store.links == s.links[r.value := CreditoCategoria(creditoId, categoriaId)]
    ensures r.Done? ==> Frame(s, r.store, {Links}) && Appended(s.historial, r.store.historial, CATEGORIA_CREDITO, ASIGNAR, now)
  {
    if categoriaId !in s.categorias then Fail(NotFound)
    else if creditoId !in s.creditos then Fail(NotFound)
    else if Linked(s, creditoId, categoriaId) then Fail(BadRequest)
    else
      var k := NextKey(s.links);
      Done(Audit(s.(links := s.links[k := CreditoCategoria(creditoId, categoriaId)]), CATEGORIA_CREDITO, ASIGNAR, "", now), k)
  }

  /** quitar_categoria_de_credito: removes the first link joining the pair.
      The handler reads the categoria's name and the credito's key for its
      audit text without checking that they exist; when either is gone the
      request fails with nothing committed. */
  function QuitarCategoria(s: Store, categoriaId: int, creditoId: int, now: int): (r: Reply<()>)
    ensures r.Fail? <==> LinksFor(s, creditoId, categoriaId) == {} || categoriaId !in s.categorias || creditoId !in s.creditos
    ensures r.Fail? ==> r.err == (if LinksFor(s, creditoId, categoriaId) == {} then NotFound else Unhandled)
    ensures r.Done? ==> exists k | k in LinksFor(s, creditoId, categoriaId) :: r.store.links == s.links - {k}
    ensures r.Done? ==> Frame(s, r.store, {Links}) && Appended(s.historial, r.store.historial, CATEGORIA_CREDITO, DESASIGNAR, now)
  {
    var matches := LinksFor(s, creditoId, categoriaId);
    if matches == {} then Fail(NotFound)
    else if categoriaId !in s.categorias || creditoId !in s.creditos then Fail(Unhandled)
    else
      var k := MinKey(matches);
      Done(Audit(s.(links := s.links - {k}), CATEGORIA_CREDITO, DESASIGNAR, "", now), ())
  }

  // ---------------------------------------------------------------------
  // HTML forms
  // ---------------------------------------------------------------------

  /** The creation form's checks fail: a blank field, an unknown credito, or a
      stripped name already in use. */
  predicate FormRejected(s: Store, nombre: string, descripcion: string, creditoId: int) {
    || Text.Blank(nombre) || Text.Blank(descripcion) || creditoId !in s.creditos
    || exists k | k in s.categorias :: s.categorias[k].nombre == Text.Strip(nombre)
  }

  /** crear_categoria_form: both text fields must be non-blank, the credito
      must exist and the stripped name must be free; then the categoria, one
      link to the credito and two audit rows are stored. */
  function CrearCategoriaForm(s: Store, nombre: string, descripcion: string, creditoId: int, now: int): (r: Reply<int>)
    ensures r.Fail? <==> FormRejected(s, nombre, descripcion, creditoId)
    ensures r.Fail? ==> r.err == BadRequest
    ensures r.Done? ==> r.value !in s.categorias
    ensures r.Done? ==> r.store.categorias == s.categorias[r.value := Categoria(Text.Strip(nombre), Some(Text.Strip(descripcion)))]
    ensures r.Done? ==> r.store.links == s.links[NextKey(s.links) := CreditoCategoria(creditoId, r.value)]
    ensures r.Done? ==> Frame(s, r.store, {Categorias, Links})
    ensures r.Done? ==> AppendedTwo(s.historial, r.store.historial, CATEGORIA, CREAR, CATEGORIA_CREDITO, ASIGNAR, now)
  {
    Text.StripEmptyIffBlank(nombre);
    Text.StripEmptyIffBlank(descripcion);
    var n := Text.Strip(nombre);
    var d := Text.Strip(descripcion);
    if n == [] || d == [] then Fail(BadRequest)
    else if creditoId !in s.creditos then Fail(BadRequest)
    else if NameTaken(s, n) then Fail(BadRequest)
    else
      var id := NextKey(s.categorias);
      var lk := NextKey(s.links);
      var t := s.(categorias := s.categorias[id := Categoria(n, Some(d))],
                  links := s.links[lk := CreditoCategoria(creditoId, id)]);
      var t1 := Audit(t, CATEGORIA, CREAR, "", now);
      var t2 := Audit(t1, CATEGORIA_CREDITO, ASIGNAR, "", now);
      assert t2.historial[..|s.historial| + 1] == t1.historial;
      Done(t2, id)
  }

  /** actualizar_categoria_form: after the same checks as the creation form
      (the name only when it changes), replaces name and description and
      leaves the categoria linked to exactly the chosen credito. */
  function ActualizarCategoriaForm(s: Store, id: int, nombre: string, descripcion: string, creditoId: int, now: int): (r: Reply<Categoria>)
    ensures r.Fail? <==> (id !in s.categorias || Text.Blank(nombre) || Text.Blank(descripcion) || creditoId !in s.creditos ||
      (Text.Strip(nombre) != s.categorias[id].nombre && exists k | k in s.categorias :: s.categorias[k].nombre == Text.Strip(nombre)))
    ensures r.Fail? ==> r.err == (if id !in s.categorias then NotFound else BadRequest)
    ensures r.Done? ==> r.value == Categoria(Text.Strip(nombre), Some(Text.Strip(descripcion)))
    ensures r.Done? ==> r.store.categorias == s.categorias[id := r.value]
    ensures r.Done? ==> exists k | k !in LinksWithout(s.links, id) ::
      r.store.links == LinksWithout(s.links, id)[k := CreditoCategoria(creditoId, id)]
    ensures r.Done? ==> Frame(s, r.store, {Categorias, Links}) && Appended(s.historial, r.store.historial, CATEGORIA, ACTUALIZAR, now)
  {
    Text.StripEmptyIffBlank(nombre);
    Text.StripEmptyIffBlank(descripcion);
    var n := Text.Strip(nombre);
    var d := Text.Strip(descripcion);
    if id !in s.categorias then Fail(NotFound)
    else if n == [] || d == [] then Fail(BadRequest)
    else if creditoId !in s.creditos then Fail(BadRequest)
    else if n != s.categorias[id].nombre && NameTaken(s, n) then Fail(BadRequest)
    else
      var c := Categoria(n, Some(d));
      var lk := NextKey(s.links);
      var t := s.(categorias := s.categorias[id := c],
                  links := LinksWithout(s.links, id)[lk := CreditoCategoria(creditoId, id)]);
      Done(Audit(t, CATEGORIA, ACTUALIZAR, "", now), c)
  }

  // ---------------------------------------------------------------------
  // Properties
  // ---------------------------------------------------------------------

  /** The keys of the links that name categoria `categoriaId`. */
  function LinksOf(s: Store, categoriaId: int): (ks: set<int>)
    ensures forall k :: k in ks <==> k in s.links && s.links[k].categoriaId == categoriaId
  {
    set k | k in s.links && s.links[k].categoriaId == categoriaId
  }

  /** Creating a categoria keeps the store's integrity, and the new key reads
      back the categoria just stored. */
  lemma CrearCategoriaSound(s: Store, c: Categoria, now: int)
    requires Valid(s)
    ensures var r := CrearCategoria(s, c, now);
      r.Done? ==> Valid(r.store) && ObtenerCategoria(r.store, r.value) == Ok(c)
  {
    var r := CrearCategoria(s, c, now);
    if r.Done? {
      AppendKeepsIdsUnique(s.historial, r.store.historial, CATEGORIA, CREAR, now);
    }
  }

  /** A full update keeps the store's integrity. */
  lemma ActualizarCategoriaSound(s: Store, id: int, datos: Categoria, now: int)
    requires Valid(s)
    ensures var r := ActualizarCategoria(s, id, datos, now);
      r.Done? ==> Valid(r.store) && ObtenerCategoria(r.store, id) == Ok(datos)
  {
    var r := ActualizarCategoria(s, id, datos, now);
    if r.Done? {
      AppendKeepsIdsUnique(s.historial, r.store.historial, CATEGORIA, ACTUALIZAR, now);
    }
  }

  /** A partial update keeps the store's integrity. */
  lemma ActualizarCategoriaParcialSound(s: Store, id: int, nombre: Option<string>, descripcion: Option<string>, now: int)
    requires Valid(s)
    ensures var r := ActualizarCategoriaParcial(s, id, nombre, descripcion, now);
      r.Done? ==> Valid(r.store) && ObtenerCategoria(r.store, id) == Ok(r.value)
  {
    var r := ActualizarCategoriaParcial(s, id, nombre, descripcion, now);
    if r.Done? && CategoriaCambios(s.categorias[id], nombre, descripcion) != [] {
      AppendKeepsIdsUnique(s.historial, r.store.historial, CATEGORIA, ACTUALIZAR_PARCIAL, now);
    }
  }

  /** The audit row of a PATCH lists the fields it changed. */
  lemma ActualizarCategoriaParcialNote(s: Store, id: int, nombre: Option<string>, descripcion: Option<string>, now: int)
    ensures var r := ActualizarCategoriaParcial(s, id, nombre, descripcion, now);
      r.Done? && CategoriaCambios(s.categorias[id], nombre, descripcion) != [] ==>
        LastNote(r.store) == ChangeNote(CategoriaCambios(s.categorias[id], nombre, descripcion))
  {
  }

  /** A PATCH that supplies no field changes nothing and writes no audit row. */
  lemma ParcialWithoutFieldsIsNoOp(s: Store, id: int, now: int)
    requires id in s.categorias
    ensures ActualizarCategoriaParcial(s, id, None, None, now) == Done(s, s.categorias[id])
  {
    assert s.categorias[id := s.categorias[id]] == s.categorias;
  }

  /** A PATCH that supplies both fields agrees with the PUT carrying the same
      fields: same acceptance, same row, same tables, one audit row each. The
      PUT can also clear the description, which a PATCH cannot express. */
  lemma ParcialWithAllFieldsIsPut(s: Store, id: int, nombre: string, descripcion: string, now: int)
    ensures var p := ActualizarCategoriaParcial(s, id, Some(nombre), Some(descripcion), now);
      var q := ActualizarCategoria(s, id, Categoria(nombre, Some(descripcion)), now);
      && (p.Fail? <==> q.Fail?)
      && (p.Fail? ==> p.err == q.err)
      && (p.Done? ==> p.value == q.value && p.store.(historial := []) == q.store.(historial := []))
      && (p.Done? ==> |p.store.historial| == |q.store.historial| == |s.historial| + 1)
  {
  }

  /** Deleting a categoria keeps the store's integrity: no link is left
      pointing at it. */
  lemma EliminarCategoriaSound(s: Store, id: int, now: int)
    requires Valid(s)
    ensures var r := EliminarCategoria(s, id, now);
      r.Done? ==> Valid(r.store) && LinksOf(r.store, id) == {} && ObtenerCategoria(r.store, id) == Error(NotFound)
  {
    var r := EliminarCategoria(s, id, now);
    if r.Done? {
      AppendKeepsIdsUnique(s.historial, r.store.historial, CATEGORIA, ELIMINAR, now);
    }
  }

  /** Linking keeps the store's integrity: a pair is never linked twice. */
  lemma AsignarCategoriaSound(s: Store, categoriaId: int, creditoId: int, now: int)
    requires Valid(s)
    ensures var r := AsignarCategoria(s, categoriaId, creditoId, now);
      r.Done? ==> Valid(r.store) && LinksFor(r.store, creditoId, categoriaId) == {r.value}
  {
    var r := AsignarCategoria(s, categoriaId, creditoId, now);
    if r.Done? {
      AppendKeepsIdsUnique(s.historial, r.store.historial, CATEGORIA_CREDITO, ASIGNAR, now);
    }
  }

  /** Unlinking keeps the store's integrity, and in a store without duplicate
      pairs leaves the pair unlinked. */
  lemma QuitarCategoriaSound(s: Store, categoriaId: int, creditoId: int, now: int)
    requires Valid(s)
    ensures var r := QuitarCategoria(s, categoriaId, creditoId, now);
      r.Done? ==> Valid(r.store) && !Linked(r.store, creditoId, categoriaId)
  {
    var r := QuitarCategoria(s, categoriaId, creditoId, now);
    if r.Done? {
      AppendKeepsIdsUnique(s.historial, r.store.historial, CATEGORIA_CREDITO, DESASIGNAR, now);
      var k :| k in LinksFor(s, creditoId, categoriaId) && r.store.links == s.links - {k};
    }
  }

  /** Linking a pair and then unlinking it restores the links. */
  lemma AsignarThenQuitar(s: Store, categoriaId: int, creditoId: int, now: int, later: int)
    requires Valid(s)
    ensures var a := AsignarCategoria(s, categoriaId, creditoId, now);
      a.Done? ==>
        var q := QuitarCategoria(a.store, categoriaId, creditoId, later);
        q.Done? && q.store.links == s.links
  {
    var a := AsignarCategoria(s, categoriaId, creditoId, now);
    if a.Done? {
      AsignarCategoriaSound(s, categoriaId, creditoId, now);
      var q := QuitarCategoria(a.store, categoriaId, creditoId, later);
      assert q.store.links == a.store.links - {a.value};
      assert q.store.links == s.links;
    }
  }

  /** No link names a key that is not a categoria's. */
  lemma FreshCategoriaUnlinked(s: Store, id: int)
    requires LinksCategorized(s) && id !in s.categorias
    ensures LinksOf(s, id) == {}
  {
    forall j | j in s.links ensures s.links[j].categoriaId != id {
      assert s.links[j].categoriaId in s.categorias;
    }
  }

  /** Storing a categoria under `id` keeps names unique when no other
      categoria has its name. */
  lemma NewNameKeepsNamesUnique(s: Store, t: Store, id: int, c: Categoria)
    requires NamesUnique(s) && t.categorias == s.categorias[id := c]
    requires forall k | k in s.categorias && k != id :: s.categorias[k].nombre != c.nombre
    ensures NamesUnique(t)
  {
  }

  /** Adding a link for a pair not yet linked keeps pairs unique. */
  lemma NewPairKeepsPairsUnique(s: Store, t: Store, k: int, l: CreditoCategoria)
    requires PairsUnique(s) && k !in s.links && t.links == s.links[k := l]
    requires !Linked(s, l.creditoId, l.categoriaId)
    ensures PairsUnique(t)
  {
    forall a, b | a in t.links && b in t.links && a != b ensures t.links[a] != t.links[b] {
      if a != k && b != k {
        assert t.links[a] == s.links[a] && t.links[b] == s.links[b];
      } else if a == k {
        assert t.links[b] == s.links[b];
      } else {
        assert t.links[a] == s.links[a];
      }
    }
  }

  /** Storing a fresh categoria with a new name and one link from an
      existing credito to it keeps the store's integrity. */
  lemma NewLinkedCategoriaKeepsValid(s: Store, t: Store, id: int, c: Categoria, k: int, creditoId: int)
    requires Valid(s) && id !in s.categorias && k !in s.links && creditoId in s.creditos
    requires forall j | j in s.categorias :: s.categorias[j].nombre != c.nombre
    requires t.categorias == s.categorias[id := c] && t.links == s.links[k := CreditoCategoria(creditoId, id)]
    requires t.creditos == s.creditos && t.usuarios == s.usuarios && HistorialIdsUnique(t.historial)
    ensures Valid(t)
  {
    FreshCategoriaUnlinked(s, id);
    NewPairKeepsPairsUnique(s, t, k, CreditoCategoria(creditoId, id));
    NewNameKeepsNamesUnique(s, t, id, c);
  }

  /** The creation form keeps the store's integrity. */
  lemma CrearCategoriaFormKeepsValid(s: Store, nombre: string, descripcion: string, creditoId: int, now: int)
    requires Valid(s)
    ensures var r := CrearCategoriaForm(s, nombre, descripcion, creditoId, now);
      r.Done? ==> Valid(r.store)
  {
    var r := CrearCategoriaForm(s, nombre, descripcion, creditoId, now);
    if r.Done? {
      AppendTwoKeepsIdsUnique(s.historial, r.store.historial, CATEGORIA, CREAR, CATEGORIA_CREDITO, ASIGNAR, now);
      NewLinkedCategoriaKeepsValid(s, r.store, r.value, r.store.categorias[r.value], NextKey(s.links), creditoId);
    }
  }

  /** A link added under a fresh key is the only link of a categoria that
      had none. */
  lemma OnlyLink(s: Store, t: Store, id: int, k: int, creditoId: int)
    requires LinksOf(s, id) == {} && t.links == s.links[k := CreditoCategoria(creditoId, id)]
    ensures LinksOf(t, id) == {k} && t.links[k] == CreditoCategoria(creditoId, id)
  {
  }

  /** The creation form leaves the new categoria linked to exactly the
      chosen credito. */
  lemma CrearCategoriaFormLinksOnce(s: Store, nombre: string, descripcion: string, creditoId: int, now: int)
    requires LinksCategorized(s)
    ensures var r := CrearCategoriaForm(s, nombre, descripcion, creditoId, now);
      r.Done? ==> exists k :: LinksOf(r.store, r.value) == {k} && r.store.links[k] == CreditoCategoria(creditoId, r.value)
  {
    var r := CrearCategoriaForm(s, nombre, descripcion, creditoId, now);
    if r.Done? {
      FreshCategoriaUnlinked(s, r.value);
      OnlyLink(s, r.store, r.value, NextKey(s.links), creditoId);
    }
  }

  /** Renaming categoria `id` to a name no other categoria has, and making
      one link from an existing credito its only link, keeps the store's
      integrity. */
  lemma RelinkedCategoriaKeepsValid(s: Store, t: Store, id: int, c: Categoria, k: int, creditoId: int)
    requires Valid(s) && id in s.categorias && creditoId in s.creditos
    requires c.nombre == s.categorias[id].nombre || forall j | j in s.categorias :: s.categorias[j].nombre != c.nombre
    requires k !in LinksWithout(s.links, id)
    requires t.categorias == s.categorias[id := c] && t.links == LinksWithout(s.links, id)[k := CreditoCategoria(creditoId, id)]
    requires t.creditos == s.creditos && t.usuarios == s.usuarios && HistorialIdsUnique(t.historial)
    ensures Valid(t)
  {
    NewNameKeepsNamesUnique(s, t, id, c);
    var rest := LinksWithout(s.links, id);
    forall a, b | a in t.links && b in t.links && a != b ensures t.links[a] != t.links[b] {
      if a != k && b != k {
        assert t.links[a] == s.links[a] && t.links[b] == s.links[b];
      } else if a == k {
        assert t.links[b] == s.links[b];
      } else {
        assert t.links[a] == s.links[a];
      }
    }
  }

  /** The update form keeps the store's integrity. */
  lemma ActualizarCategoriaFormKeepsValid(s: Store, id: int, nombre: string, descripcion: string, creditoId: int, now: int)
    requires Valid(s)
    ensures var r := ActualizarCategoriaForm(s, id, nombre, descripcion, creditoId, now);
      r.Done? ==> Valid(r.store)
  {
    var r := ActualizarCategoriaForm(s, id, nombre, descripcion, creditoId, now);
    if r.Done? {
      AppendKeepsIdsUnique(s.historial, r.store.historial, CATEGORIA, ACTUALIZAR, now);
      var rest := LinksWithout(s.links, id);
      var k :| k !in rest && r.store.links == rest[k := CreditoCategoria(creditoId, id)];
      RelinkedCategoriaKeepsValid(s, r.store, id, r.value, k, creditoId);
    }
  }

  /** A link added under a fresh key to the links of every other categoria
      is categoria `id`'s only link. */
  lemma OnlyLinkAfterRelink(s: Store, t: Store, id: int, k: int, creditoId: int)
    requires t.links == LinksWithout(s.links, id)[k := CreditoCategoria(creditoId, id)]
    ensures LinksOf(t, id) == {k} && t.links[k] == CreditoCategoria(creditoId, id)
  {
  }

  /** The update form leaves the categoria linked to exactly the chosen
      credito, whatever it was linked to before. */
  lemma ActualizarCategoriaFormLinksOnce(s: Store, id: int, nombre: string, descripcion: string, creditoId: int, now: int)
    ensures var r := ActualizarCategoriaForm(s, id, nombre, descripcion, creditoId, now);
      r.Done? ==> exists k :: LinksOf(r.store, id) == {k} && r.store.links[k] == CreditoCategoria(creditoId, id)
  {
    var r := ActualizarCategoriaForm(s, id, nombre, descripcion, creditoId, now);
    if r.Done? {
      var rest := LinksWithout(s.links, id);
      var k :| k !in rest && r.store.links == rest[k := CreditoCategoria(creditoId, id)];
      OnlyLinkAfterRelink(s, r.store, id, k, creditoId);
    }
  }
}
