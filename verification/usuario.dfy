/** routers/usuario_router.py: usuarios, created and updated from an HTML
    form that may carry a scan of the usuario's ID card (the cédula). The
    file itself is written to disk under a random name; the model keeps only
    the path the row stores, with the random part passed in as `token`. */
module Usuarios {
  import opened Wrappers
  import opened Entities
  import Text

  /** The directory uploaded scans are written to. */
  const UPLOAD_DIR := "upload/cedulas"

  /** The extensions a scan may have, lower-cased. */
  const EXTENSIONES := [".pdf", ".jpg", ".jpeg"]

  /** A scan was sent: the form carried a file with a non-empty name
      (`cedula and cedula.filename`). `None` is "no file part". */
  predicate FileSent(cedula: Option<string>) {
    cedula.Some? && cedula.value != ""
  }

  /** The extension of a file name as the handlers check it: the part
      `os.path.splitext` splits off, lower-cased. */
  function CedulaExt(filename: string): (e: string)
    ensures |e| > 0 ==> e[0] == '.'
    ensures forall i | 0 <= i < |e| :: !('A' <= e[i] <= 'Z')
  {
    Text.Lower(Text.SplitExt(filename).1)
  }

  /** The file name is accepted as a scan. */
  predicate CedulaAceptada(filename: string) {
    CedulaExt(filename) in EXTENSIONES
  }

  /** `p` ends with `e`. */
  predicate EndsWith(p: string, e: string) {
    |e| <= |p| && p[|p| - |e|..] == e
  }

  /** The path a scan accepted under `filename` is stored at: the upload
      directory, the random token, then the lower-cased extension. */
  function CedulaPath(filename: string, token: string): (p: string)
    requires CedulaAceptada(filename)
    ensures EndsWith(p, CedulaExt(filename))
  {
    var e := CedulaExt(filename);
    var p := UPLOAD_DIR + "/" + token + e;
    assert p[|p| - |e|..] == e;
    p
  }

  /** Every stored scan path ends with an accepted extension. */
  ghost predicate CedulasAceptadas(s: Store) {
    forall k | k in s.usuarios && s.usuarios[k].cedula.Some? ::
      exists e | e in EXTENSIONES :: EndsWith(s.usuarios[k].cedula.value, e)
  }

  /** listar_usuarios: every usuario under its key. */
  function ListarUsuarios(s: Store): (r: map<int, Usuario>)
    ensures forall k :: k in r <==> k in s.usuarios
    ensures forall k | k in r :: r[k] == s.usuarios[k]
  {
    s.usuarios
  }

  /** crear_usuario_form: a scan with an extension other than .pdf, .jpg or
      .jpeg (in any case) is refused; otherwise the usuario is stored with the
      scan's path, or with no path when no file was sent, and the creation is
      audited. */
  function CrearUsuarioForm(s: Store, nombre: string, ingresos: real, gastos: real, correo: string,
                            telefono: string, cedula: Option<string>, token: string, now: int): (r: Reply<int>)
    ensures r.Fail? <==> FileSent(cedula) && !CedulaAceptada(cedula.value)
    ensures r.Fail? ==> r.err == BadRequest
    ensures r.Done? ==> r.value !in s.usuarios && r.value in r.store.usuarios
    ensures r.Done? ==> r.store.usuarios == s.usuarios[r.value := Usuario(nombre, ingresos, gastos, correo, telefono, r.store.usuarios[r.value].cedula)]
    ensures r.Done? && !FileSent(cedula) ==> r.store.usuarios[r.value].cedula == None
    ensures r.Done? && FileSent(cedula) ==> r.store.usuarios[r.value].cedula == Some(CedulaPath(cedula.value, token))
    ensures r.Done? ==> Frame(s, r.store, {Usuarios}) && Appended(s.historial, r.store.historial, USUARIO, CREAR, now)
  {
    if FileSent(cedula) && !CedulaAceptada(cedula.value) then Fail(BadRequest)
    else
      var path := if FileSent(cedula) then Some(CedulaPath(cedula.value, token)) else None;
      var id := NextKey(s.usuarios);
      var u := Usuario(nombre, ingresos, gastos, correo, telefono, path);
      Done(Audit(s.(usuarios := s.usuarios[id := u]), USUARIO, CREAR, "", now), id)
  }

  /** actualizar_usuario_form: an unknown usuario is 404, then a scan with a
      refused extension is 400; otherwise the five fields are overwritten, the
      stored path is replaced only when a new scan was sent, and the update
      is audited. */
  function ActualizarUsuarioForm(s: Store, id: int, nombre: string, ingresos: real, gastos: real, correo: string,
                                 telefono: string, cedula: Option<string>, token: string, now: int): (r: Reply<Usuario>)
    ensures r.Fail? <==> id !in s.usuarios || (FileSent(cedula) && !CedulaAceptada(cedula.value))
    ensures r.Fail? ==> r.err == (if id !in s.usuarios then NotFound else BadRequest)
    ensures r.Done? ==> (&& r.value.nombre == nombre && r.value.ingresos == ingresos && r.value.gastos == gastos
                         && r.value.correo == correo && r.value.telefono == telefono)
    ensures r.Done? && !FileSent(cedula) ==> r.value.cedula == s.usuarios[id].cedula
    ensures r.Done? && FileSent(cedula) ==> r.value.cedula == Some(CedulaPath(cedula.value, token))
    ensures r.Done? ==> r.store == s.(usuarios := s.usuarios[id := r.value], historial := r.store.historial)
    ensures r.Done? ==> Appended(s.historial, r.store.historial, USUARIO, ACTUALIZAR, now)
  {
    if id !in s.usuarios then Fail(NotFound)
    else if FileSent(cedula) && !CedulaAceptada(cedula.value) then Fail(BadRequest)
    else
      var path := if FileSent(cedula) then Some(CedulaPath(cedula.value, token)) else s.usuarios[id].cedula;
      var u := Usuario(nombre, ingresos, gastos, correo, telefono, path);
      Done(Audit(s.(usuarios := s.usuarios[id := u]), USUARIO, ACTUALIZAR, "", now), u)
  }

  // ---------------------------------------------------------------------
  // Properties
  // ---------------------------------------------------------------------

  /** A created usuario keeps the store's integrity: the new key is fresh
      and the new audit row takes an unused id. */
  lemma CrearUsuarioKeepsValid(s: Store, nombre: string, ingresos: real, gastos: real, correo: string,
                               telefono: string, cedula: Option<string>, token: string, now: int)
    requires Valid(s)
    ensures var r := CrearUsuarioForm(s, nombre, ingresos, gastos, correo, telefono, cedula, token, now);
      r.Done? ==> Valid(r.store)
  {
    var r := CrearUsuarioForm(s, nombre, ingresos, gastos, correo, telefono, cedula, token, now);
    if r.Done? {
      AppendKeepsIdsUnique(s.historial, r.store.historial, USUARIO, CREAR, now);
    }
  }

  /** A created usuario keeps the extension rule for stored scans. */
  lemma CrearUsuarioKeepsCedulas(s: Store, nombre: string, ingresos: real, gastos: real, correo: string,
                                 telefono: string, cedula: Option<string>, token: string, now: int)
    requires CedulasAceptadas(s)
    ensures var r := CrearUsuarioForm(s, nombre, ingresos, gastos, correo, telefono, cedula, token, now);
      r.Done? ==> CedulasAceptadas(r.store)
  {
    var r := CrearUsuarioForm(s, nombre, ingresos, gastos, correo, telefono, cedula, token, now);
    if r.Done? && FileSent(cedula) {
      assert CedulaExt(cedula.value) in EXTENSIONES;
    }
  }

  /** A created usuario is listed with the given name, and the listing grows
      by exactly one. */
  lemma CrearUsuarioListed(s: Store, nombre: string, ingresos: real, gastos: real, correo: string,
                           telefono: string, cedula: Option<string>, token: string, now: int)
    ensures var r := CrearUsuarioForm(s, nombre, ingresos, gastos, correo, telefono, cedula, token, now);
      r.Done? ==> && r.value in ListarUsuarios(r.store)
                  && ListarUsuarios(r.store)[r.value].nombre == nombre
                  && |ListarUsuarios(r.store).Keys| == |ListarUsuarios(s).Keys| + 1
  {
    var r := CrearUsuarioForm(s, nombre, ingresos, gastos, correo, telefono, cedula, token, now);
    if r.Done? {
      var m, m' := s.usuarios, r.store.usuarios;
      assert m'.Keys == m.Keys + {r.value};
    }
  }

  /** An update keeps the store's integrity and the extension rule for
      stored scans, and the usuario reads back as returned. */
  lemma ActualizarUsuarioSound(s: Store, id: int, nombre: string, ingresos: real, gastos: real, correo: string,
                               telefono: string, cedula: Option<string>, token: string, now: int)
    requires Valid(s) && CedulasAceptadas(s)
    ensures var r := ActualizarUsuarioForm(s, id, nombre, ingresos, gastos, correo, telefono, cedula, token, now);
      r.Done? ==> && Valid(r.store) && CedulasAceptadas(r.store)
                  && ListarUsuarios(r.store)[id] == r.value
                  && ListarUsuarios(r.store).Keys == ListarUsuarios(s).Keys
  {
    var r := ActualizarUsuarioForm(s, id, nombre, ingresos, gastos, correo, telefono, cedula, token, now);
    if r.Done? {
      AppendKeepsIdsUnique(s.historial, r.store.historial, USUARIO, ACTUALIZAR, now);
    }
  }

  /** Sending the same form twice: the second request is accepted and leaves
      the five fields as the first one did. Each upload is stored under its
      own random token, so with a scan the path is the second request's; with
      no scan the usuario is exactly as after the first request. */
  lemma ActualizarUsuarioTwice(s: Store, id: int, nombre: string, ingresos: real, gastos: real, correo: string,
                               telefono: string, cedula: Option<string>, token: string, token2: string,
                               now: int, later: int)
    ensures var r := ActualizarUsuarioForm(s, id, nombre, ingresos, gastos, correo, telefono, cedula, token, now);
      r.Done? ==>
        var r2 := ActualizarUsuarioForm(r.store, id, nombre, ingresos, gastos, correo, telefono, cedula, token2, later);
        && r2.Done? && r2.value == r.value.(cedula := r2.value.cedula)
        && (FileSent(cedula) ==> r2.value.cedula == Some(CedulaPath(cedula.value, token2)))
        && (!FileSent(cedula) ==> r2.value == r.value && r2.store.usuarios == r.store.usuarios)
  {
  }

  /** For a file name made of a stem without slashes that is not all dots
      and one extension, the check is exactly the extension, lower-cased,
      being one of the accepted ones. */
  lemma NameAccepted(stem: string, ext: string)
    requires Text.HasNonDot(stem) && forall j | 0 <= j < |stem| :: stem[j] != '/'
    requires |ext| > 0 && ext[0] == '.' && forall j | 1 <= j < |ext| :: ext[j] != '.' && ext[j] != '/'
    ensures CedulaAceptada(stem + ext) <==> Text.Lower(ext) in EXTENSIONES
  {
    Text.SplitExtOfName(stem, ext);
  }

  /** The extension check ignores case. */
  lemma UpperCaseExtensionAccepted()
    ensures CedulaAceptada("scan.PDF")
  {
    assert "scan"[0] != '.';
    NameAccepted("scan", ".PDF");
    assert "scan" + ".PDF" == "scan.PDF";
    assert Text.Lower(".PDF") == ".pdf";
  }

  /** Only the last extension counts: whatever extension comes before it,
      a name is accepted exactly when its last extension is. */
  lemma LastExtensionCounts(stem: string, inner: string, ext: string)
    requires Text.HasNonDot(stem) && forall j | 0 <= j < |stem| :: stem[j] != '/'
    requires |inner| > 0 && Text.IsExt(inner)
    requires |ext| > 0 && Text.IsExt(ext)
    ensures CedulaAceptada(stem + inner + ext) <==> Text.Lower(ext) in EXTENSIONES
  {
    var n := stem + inner;
    var i :| 0 <= i < |stem| && stem[i] != '.';
    assert n[i] == stem[i];
    forall j | 0 <= j < |n| ensures n[j] != '/' {
      if j >= |stem| { assert n[j] == inner[j - |stem|]; }
    }
    NameAccepted(n, ext);
  }

  /** A scan named "scan.pdf.exe" is refused. */
  lemma LastExtensionChecked()
    ensures !CedulaAceptada("scan.pdf.exe")
  {
    assert "scan"[0] != '.';
    LastExtensionCounts("scan", ".pdf", ".exe");
    assert "scan" + ".pdf" + ".exe" == "scan.pdf.exe";
    assert Text.Lower(".exe") == ".exe";
  }

  /** A name that is only an extension is refused: for `os.path.splitext`,
      ".pdf" has no extension at all. */
  lemma DotNameRefused()
    ensures !CedulaAceptada(".pdf")
  {
    Text.SplitExtOfDotName(".pdf");
  }
}
