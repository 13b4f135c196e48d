# Credit-simulation store: a Dafny model of its entity discipline

The application is a FastAPI service over one SQLite database, reached through SQLModel. It keeps:

- usuarios and their creditos;
- the interes of each credito;
- simulaciones of an interes;
- reportes that may reference a usuario, a credito and a simulacion;
- categorias, linked to creditos through a join table;
- an audit table (Historial) that most handlers append to.

This project models what the request handlers do to that database:

- the foreign-key checks they make;
- the uniqueness they enforce: categoria names and (credito, categoria) link pairs;
- full (PUT) and partial (PATCH) updates;
- the deletion of a categoria's links together with it;
- the audit rows they write;
- the filters, ordering and pagination of the listings;
- the sample data loaded at start-up.

The whole database is one immutable value, `Entities.Store`:

- one `map<int, Row>` per table, keyed by primary key;
- the audit table as a sequence in insertion order.

Every handler is a pure function of the store, its request inputs and the current time `now`. It returns one of two things:

- `Done(store, value)`: the store after the handler's writes, plus the response value.
- `Fail(err)`: the request was rejected. `Fail` carries no store, so a rejected request commits nothing.

Error kinds:

- `BadRequest` is status 400 (and FastAPI's 422 for a query parameter out of range).
- `NotFound` is 404.
- `Unhandled` is an exception the handler does not catch.

New rows take the key SQLite gives an `INTEGER PRIMARY KEY` without AUTOINCREMENT: one more than the largest key in the table, or 1 in an empty table.

The integrity the handlers keep is `Entities.Valid`:

- categoria names are distinct;
- link pairs are distinct;
- every credito has its usuario;
- every link has its categoria;
- audit keys are distinct.

Three further invariants cover the references the handlers check: `Reportes.ReportesLinked`, `Simulaciones.SimulacionesLinked` and `Intereses.InteresesLinked`.

Modules:

| module | file | models |
|---|---|---|
| Wrappers | wrappers.dfy | `Option`, `Result`, the error kinds |
| Text | text.dfy | `str.strip`, `str.lower` on ASCII letters, `os.path.splitext`, `str.join` |
| SqlLike | sql_like.dfy | SQLite's `LIKE`, the operator behind SQLModel's `.contains()` |
| Entities | entities.dfy | rows, the store, keys, the audit trail, integrity, `select ... where` |
| Categorias | categoria.dfy | routers/categoria_router.py |
| Reportes | reporte.dfy | routers/reporte_router.py |
| Simulaciones | simulacion.dfy | routers/simulacion_router.py |
| Intereses | interes.dfy | routers/interes_router.py |
| Usuarios | usuario.dfy | routers/usuario_router.py |
| Historiales | historial.dfy | routers/historial_router.py |
| Creditos | credito.dfy | routers/credito_router.py |
| Database | database.dfy | database.py |

The "contains" filters use `.contains()`, which SQLite evaluates as `LIKE '%x%'`. That match ignores the case of ASCII letters and treats `%` and `_` in the search text as wildcards. `SqlLike.Like` models the operator, and `SqlLike.ContainsLiteral` shows that for a search text without wildcards it is case-insensitive substring search.

## Model

| member | source | states |
|---|---|---|
| Entities.NextKey | models/categoria.py:9 | a new key is not in use, exceeds every key in the table, and is 1 in an empty table |
| Entities.Audit | models/historial.py:8-13 | an audit row with the given entity, action, text and time is appended under a key larger than every earlier one; no other table changes |
| Entities.AppendKeepsIdsUnique | models/historial.py:9 | appending an audit row keeps audit keys distinct |
| Entities.Select | routers/reporte_router.py:132-153 | a query with one `where` per clause yields exactly the rows that satisfy every clause, unchanged |
| Entities.Get | routers/categoria_router.py:89-92 | `session.get` finds the row exactly when the key is in the table, else 404 |
| Text.Strip | routers/categoria_router.py:352 | the stripped text is a slice of the input; everything cut off is white space; it neither starts nor ends with white space |
| Text.StripEmptyIffBlank | routers/categoria_router.py:352 | `not x.strip()` holds exactly when every character is white space |
| Text.SplitExt | routers/usuario_router.py:50 | name and extension concatenate back to the file name, and the extension is empty or a dot followed by no dot or slash |
| Text.SplitExtOfName | routers/usuario_router.py:50 | a stem without slashes that is not all dots, plus one extension, splits into exactly those two parts |
| Text.SplitExtOfDotName | routers/usuario_router.py:50 | a name whose only dot is its leading one, such as ".pdf", has no extension |
| SqlLike.ContainsLiteral | routers/historial_router.py:55-56 | with a wildcard-free search text, `.contains()` holds exactly when the text occurs in the column up to ASCII case |
| SqlLike.ContainsEmpty | routers/categoria_router.py:73-74 | an empty search text matches every row, which is why the handlers skip it |
| Categorias.CrearCategoria | routers/categoria_router.py:23-53 | a name equal to an existing categoria's is 400 with nothing written; otherwise exactly one categoria is added under a fresh key, plus one CREAR audit row, and no other table changes |
| Categorias.ListarCategorias | routers/categoria_router.py:60-75 | every categoria, or with a non-empty name filter exactly those whose name contains it |
| Categorias.ObtenerCategoria | routers/categoria_router.py:82-92 | the categoria under that key, else 404 |
| Categorias.ActualizarCategoria | routers/categoria_router.py:99-140 | unknown key is 404; renaming to another categoria's name is 400; keeping the current name is allowed; on success both fields are replaced and one ACTUALIZAR row is written |
| Categorias.CategoriaCambios | routers/categoria_router.py:160-172 | a PATCH counts the name as changed only when it differs from the current one, and the description whenever it is sent |
| Categorias.ActualizarCategoriaParcial | routers/categoria_router.py:147-195 | PATCH changes only the fields sent; it is audited (ACTUALIZAR_PARCIAL) only when the change list is non-empty; the name check and errors are those of PUT |
| Categorias.ActualizarCategoriaParcialNote | routers/categoria_router.py:178-188 | the audit row of a PATCH that changed something lists the changed fields |
| Categorias.EliminarCategoria | routers/categoria_router.py:202-232 | removes the categoria and exactly the links naming it, keeps every other link, and writes one ELIMINAR row |
| Categorias.AsignarCategoria | routers/categoria_router.py:239-288 | missing categoria or credito is 404; an existing pair is 400; otherwise exactly one link is added, plus one ASIGNAR row |
| Categorias.QuitarCategoria | routers/categoria_router.py:295-333 | a pair not linked is 404; a linked pair whose categoria or credito is gone fails unhandled; otherwise one link of the pair is removed and DESASIGNAR written |
| Categorias.CrearCategoriaForm | routers/categoria_router.py:341-412 | rejected exactly when `FormRejected`, with 400; otherwise stores the stripped fields, one link to the credito, and two audit rows (CREAR, then ASIGNAR) |
| Categorias.ActualizarCategoriaForm | routers/categoria_router.py:416-488 | unknown key is 404; blank field, unknown credito, or a changed name in use is 400; otherwise the stripped fields are stored, the old links dropped, one link to the chosen credito added, and ACTUALIZAR written |
| Categorias.CrearCategoriaSound | routers/categoria_router.py:30-51 | creation keeps the store's integrity, and the new key reads back the categoria |
| Categorias.ActualizarCategoriaSound | routers/categoria_router.py:111-125 | PUT keeps names unique and the integrity of the store |
| Categorias.ActualizarCategoriaParcialSound | routers/categoria_router.py:162-193 | PATCH keeps names unique and the integrity of the store |
| Categorias.ParcialWithoutFieldsIsNoOp | routers/categoria_router.py:160-195 | a PATCH sending nothing leaves the store, audit table included, unchanged |
| Categorias.ParcialWithAllFieldsIsPut | routers/categoria_router.py:107-195 | a PATCH sending both fields agrees with the PUT of the same fields on acceptance, error, row and tables, with one audit row each |
| Categorias.EliminarCategoriaSound | routers/categoria_router.py:215-230 | after deletion no link names the categoria, it no longer reads back, and integrity holds |
| Categorias.AsignarCategoriaSound | routers/categoria_router.py:256-286 | after assigning, exactly one link joins the pair and integrity holds |
| Categorias.QuitarCategoriaSound | routers/categoria_router.py:303-331 | after unassigning, with pairs unique, the pair is no longer linked and integrity holds |
| Categorias.AsignarThenQuitar | routers/categoria_router.py:247-331 | assigning and then unassigning the same pair restores the links table |
| Categorias.FreshCategoriaUnlinked | routers/categoria_router.py:376-399 | a key that names no categoria has no link, so a new categoria starts unlinked |
| Categorias.NewNameKeepsNamesUnique | routers/categoria_router.py:30-38 | storing a name no other categoria has keeps names unique |
| Categorias.NewPairKeepsPairsUnique | routers/categoria_router.py:256-276 | adding a link for a pair not yet linked keeps pairs unique |
| Categorias.CrearCategoriaFormKeepsValid | routers/categoria_router.py:341-412 | the creation form keeps the store's integrity |
| Categorias.CrearCategoriaFormLinksOnce | routers/categoria_router.py:383-399 | the created categoria has exactly one link, to the chosen credito |
| Categorias.ActualizarCategoriaFormKeepsValid | routers/categoria_router.py:416-488 | the update form keeps the store's integrity |
| Categorias.ActualizarCategoriaFormLinksOnce | routers/categoria_router.py:459-473 | after the update form the categoria has exactly one link, to the chosen credito |
| Reportes.ValidarRelaciones | routers/reporte_router.py:22-54 | passes exactly when each given usuario, credito and simulacion exists; otherwise 400 |
| Reportes.CrearReporte | routers/reporte_router.py:61-98 | invalid references are 400; otherwise the reporte is stored with `now` only when no date was sent, plus one CREAR row |
| Reportes.ListarReportes | routers/reporte_router.py:105-153 | exactly the reportes satisfying every filter given: equal references, inclusive date bounds, a title containing a non-empty search text |
| Reportes.ObtenerReporte | routers/reporte_router.py:160-170 | the reporte under that key, else 404 |
| Reportes.ActualizarReporte | routers/reporte_router.py:177-221 | unknown key is 404; invalid references are 400; otherwise every field is replaced, the date kept when none is sent, and the references set as sent, absent ones included |
| Reportes.ReporteCambios | routers/reporte_router.py:258-280 | the change list holds the name of a field exactly when that field is sent, and nothing else; it is empty exactly when no field is sent |
| Reportes.ActualizarReporteParcial | routers/reporte_router.py:228-298 | checks the merged references; changes only the fields sent; audits (ACTUALIZAR_PARCIAL) only when some field was sent |
| Reportes.EliminarReporte | routers/reporte_router.py:305-326 | unknown key is 404; otherwise exactly that reporte is removed and ELIMINAR written |
| Reportes.CrearReporteSound | routers/reporte_router.py:70-96 | the new reporte reads back as sent, with the date filled in; no dangling reference appears; integrity holds |
| Reportes.ActualizarReporteSound | routers/reporte_router.py:185-219 | PUT introduces no dangling reference and keeps integrity |
| Reportes.ActualizarReporteParcialSound | routers/reporte_router.py:245-296 | the reporte PATCH writes names no missing row, even if the stored one did |
| Reportes.ActualizarReporteParcialKeepsLinked | routers/reporte_router.py:245-296 | PATCH keeps every reporte linked when all were |
| Reportes.ParcialWithoutFields | routers/reporte_router.py:245-298 | a PATCH sending nothing changes nothing and writes no audit row, yet is refused when a stored reference dangles |
| Reportes.ParcialWithAllFieldsIsPut | routers/reporte_router.py:185-298 | a PATCH sending every field agrees with the PUT of the same values on acceptance, row and tables |
| Reportes.ActualizarReporteParcialTwice | routers/reporte_router.py:228-298 | sending the same PATCH again is accepted and leaves the same row and the same table |
| Reportes.EliminarReporteSound | routers/reporte_router.py:312-324 | the deleted reporte no longer reads back, every other reporte is untouched, and integrity holds |
| Reportes.ListarSinFiltros | routers/reporte_router.py:132-153 | with no filter, the listing is the whole table |
| Reportes.ListarPorTitulo | routers/reporte_router.py:150-151 | with only a wildcard-free title filter, the listing is exactly the reportes whose title contains the text up to ASCII case |
| Simulaciones.CrearSimulacion | routers/simulacion_router.py:21-55 | an unknown interes is 400 with nothing written; otherwise the simulacion is stored as sent, plus one CREAR row |
| Simulaciones.ListarSimulaciones | routers/simulacion_router.py:62-91 | exactly the simulaciones with the given interes and a monthly payment within the inclusive bounds |
| Simulaciones.ObtenerSimulacion | routers/simulacion_router.py:98-108 | the simulacion under that key, else 404 |
| Simulaciones.ActualizarSimulacion | routers/simulacion_router.py:115-159 | unknown key is 404; the interes is checked only when it changes (400); otherwise the row is replaced and ACTUALIZAR written |
| Simulaciones.SimulacionCambios | routers/simulacion_router.py:184-197 | the change list holds the name of a field exactly when that field is sent, and nothing else; it is empty exactly when no field is sent |
| Simulaciones.ActualizarSimulacionParcial | routers/simulacion_router.py:166-223 | an unknown interes rejects the whole PATCH; otherwise only the fields sent change, audited only when some field was sent |
| Simulaciones.EliminarSimulacion | routers/simulacion_router.py:230-251 | unknown key is 404; otherwise exactly that simulacion is removed and ELIMINAR written |
| Simulaciones.CrearSimulacionSound | routers/simulacion_router.py:29-53 | the new simulacion reads back unchanged; no dangling interes appears; integrity holds |
| Simulaciones.ActualizarSimulacionSound | routers/simulacion_router.py:123-157 | PUT keeps every simulacion linked and the store's integrity |
| Simulaciones.ActualizarSimulacionParcialSound | routers/simulacion_router.py:178-221 | PATCH keeps every simulacion linked and the store's integrity |
| Simulaciones.ParcialWithoutFieldsIsNoOp | routers/simulacion_router.py:178-223 | a PATCH sending nothing leaves the store unchanged and writes no audit row |
| Simulaciones.ParcialWithAllFieldsIsPut | routers/simulacion_router.py:123-223 | a PATCH sending every field writes the same row as the PUT, and refuses only where the PUT would also refuse or the unchanged interes is missing |
| Simulaciones.ActualizarSimulacionParcialTwice | routers/simulacion_router.py:166-223 | sending the same PATCH again is accepted and leaves the same row and the same table |
| Simulaciones.ParcialBadInteresCommitsNothing | routers/simulacion_router.py:182-204 | a PATCH with a missing interes commits none of the amounts sent with it |
| Simulaciones.EliminarSimulacionSound | routers/simulacion_router.py:237-249 | the deleted simulacion no longer reads back and integrity holds |
| Intereses.CrearInteres | routers/interes_router.py:21-52 | an unknown credito is 404; otherwise an interes with exactly the given rate, type and credito is stored, plus one CREAR row |
| Intereses.ListarIntereses | routers/interes_router.py:59-95 | exactly the intereses with the given credito, the given non-empty type, and a rate within the inclusive bounds |
| Intereses.ObtenerInteres | routers/interes_router.py:102-112 | the interes under that key, else 404 |
| Intereses.ActualizarInteres | routers/interes_router.py:119-161 | unknown key or unknown given credito is 404; rate and type are always replaced; the credito is kept when none is sent |
| Intereses.InteresCambios | routers/interes_router.py:184-201 | the change list holds the name of a field exactly when that field is sent, and nothing else; it is empty exactly when no field is sent |
| Intereses.ActualizarInteresParcial | routers/interes_router.py:168-219 | an unknown credito rejects the whole PATCH; otherwise only the fields sent change, audited only when some field was sent |
| Intereses.EliminarInteres | routers/interes_router.py:226-247 | unknown key is 404; otherwise exactly that interes is removed and ELIMINAR written |
| Intereses.CrearInteresSound | routers/interes_router.py:31-50 | the new interes reads back with the given fields; no dangling credito appears; integrity holds |
| Intereses.ActualizarInteresSound | routers/interes_router.py:130-159 | PUT keeps every interes linked and the store's integrity |
| Intereses.ActualizarInteresParcialSound | routers/interes_router.py:178-217 | PATCH keeps every interes linked and the store's integrity |
| Intereses.ParcialWithoutFieldsIsNoOp | routers/interes_router.py:178-219 | a PATCH sending nothing leaves the store unchanged and writes no audit row |
| Intereses.ParcialWithAllFieldsIsPut | routers/interes_router.py:130-219 | a PATCH sending every field agrees with the PUT of the same values on acceptance, row and tables |
| Intereses.ActualizarInteresParcialTwice | routers/interes_router.py:168-219 | sending the same PATCH again is accepted and leaves the same row and the same table |
| Intereses.ParcialBadCreditoCommitsNothing | routers/interes_router.py:182-201 | a PATCH with a missing credito commits none of the other fields |
| Intereses.EliminarInteresSound | routers/interes_router.py:233-245 | the deleted interes no longer reads back, every other one is untouched, and integrity holds |
| Usuarios.CedulaExt | routers/usuario_router.py:50-51 | the checked extension is empty or starts with a dot and has no capital ASCII letter |
| Usuarios.CedulaPath | routers/usuario_router.py:58-67 | the stored path of an accepted scan ends with its lower-cased extension |
| Usuarios.ListarUsuarios | routers/usuario_router.py:29-31 | every usuario, under its key |
| Usuarios.CrearUsuarioForm | routers/usuario_router.py:37-91 | a scan whose lower-cased extension is not .pdf, .jpg or .jpeg is 400 with no usuario created; otherwise one usuario is added (path `None` when no file was sent) plus one CREAR row |
| Usuarios.ActualizarUsuarioForm | routers/usuario_router.py:97-151 | unknown key is 404, then a refused extension is 400; otherwise the five fields are overwritten, the path replaced only when a new scan was sent, and ACTUALIZAR written |
| Usuarios.CrearUsuarioKeepsValid | routers/usuario_router.py:69-88 | creating a usuario keeps the store's integrity |
| Usuarios.CrearUsuarioKeepsCedulas | routers/usuario_router.py:49-88 | after a creation every stored scan path still ends with an accepted extension |
| Usuarios.CrearUsuarioListed | routers/usuario_router.py:69-88 | the new usuario is listed with its name and the listing grows by exactly one |
| Usuarios.ActualizarUsuarioSound | routers/usuario_router.py:108-149 | the update keeps the key set, reads back as returned, keeps every stored path's extension accepted, and keeps integrity |
| Usuarios.ActualizarUsuarioTwice | routers/usuario_router.py:108-149 | sending the same update form again is accepted and leaves the same five fields; without a scan the usuario and the table are as after the first request, with a scan the stored path is the one built from the second request's random name |
| Usuarios.NameAccepted | routers/usuario_router.py:49-56 | for a stem without slashes that is not all dots plus one extension, acceptance is exactly the lower-cased extension being one of the three |
| Usuarios.UpperCaseExtensionAccepted | routers/usuario_router.py:50-52 | "scan.PDF" is accepted |
| Usuarios.LastExtensionCounts | routers/usuario_router.py:50-56 | only the last extension counts: a stem followed by any extension and then a last one is accepted exactly when the last one, lower-cased, is accepted |
| Usuarios.LastExtensionChecked | routers/usuario_router.py:50-56 | "scan.pdf.exe" is refused |
| Usuarios.DotNameRefused | routers/usuario_router.py:50-56 | ".pdf" is refused, having no extension for `splitext` |
| Historiales.Filtrar | routers/historial_router.py:47-62 | keeps every row that passes the given filters, as many times as it occurs, and no other |
| Historiales.InsertDesc | routers/historial_router.py:64 | inserting into a date-ordered sequence keeps it ordered and adds exactly that row |
| Historiales.SortDesc | routers/historial_router.py:64 | the rows ordered by date, newest first, as a permutation of the input |
| Historiales.Window | routers/historial_router.py:65 | `OFFSET o LIMIT l` has `min(l, n - o)` rows (none past the end), row `i` being row `o + i` |
| Historiales.ListarHistorial | routers/historial_router.py:19-68 | a limit outside 1..1000 or a negative offset is refused; otherwise at most `limit` rows, each in the table and matching, newest first, forming the page at `offset` of a date ordering of all matches |
| Historiales.WindowOfSorted | routers/historial_router.py:64-65 | a page of a date-ordered sequence is date-ordered and drawn from it |
| Historiales.Find | routers/historial_router.py:82 | the first position holding the key, or none when no row has it |
| Historiales.ObtenerHistorial | routers/historial_router.py:75-85 | the row with that key, else 404 |
| Historiales.Without | routers/historial_router.py:105 | keeps exactly the rows not keyed as given |
| Historiales.EliminarHistorial | routers/historial_router.py:92-108 | an unknown key is 404; otherwise the rows with that key go, every other row stays, no audit row is written, and no other table changes |
| Historiales.WithoutKeepsAll | routers/historial_router.py:101-106 | removing a key no row has changes nothing |
| Historiales.WithoutCutsOne | routers/historial_router.py:101-106 | with distinct keys, removing a row's key cuts out exactly that position |
| Historiales.CutKeepsIdsUnique | routers/historial_router.py:105-106 | cutting one row out keeps audit keys distinct |
| Historiales.EliminarHistorialSound | routers/historial_router.py:101-106 | on a valid store, the deletion removes exactly one row and nothing else, and integrity holds |
| Historiales.EliminarThenObtener | routers/historial_router.py:82-106 | a deleted audit row no longer reads back (404) |
| Historiales.PagesConcatenate | routers/historial_router.py:65 | the page at `o` of size `a` followed by the page at `o + a` of size `b` is the page at `o` of size `a + b` |
| Historiales.FirstPageIsComplete | routers/historial_router.py:36-37 | when all matches fit in the first page, every matching row is listed |
| Creditos.CrearCredito | routers/credito_router.py:32-39 | an unknown usuario is 404; otherwise a credito with exactly the given amount, term, type and usuario, and no description, is added; nothing else changes |
| Creditos.ActualizarCredito | routers/credito_router.py:61-69 | unknown key is 404; otherwise only amount, term and type change; usuario and description are kept |
| Creditos.EliminarCreditoAsWritten | routers/credito_router.py:85-97 | as written, an existing credito is never deleted: the request fails unhandled; an unknown one is 404 |
| Creditos.EliminarCredito | routers/credito_router.py:85-97 | as intended: unknown key is 404; otherwise exactly that credito is removed, with no cascade to other tables |
| Creditos.CrearCreditoSound | routers/credito_router.py:32-39 | the creditos table gains exactly one key, and integrity holds |
| Creditos.ActualizarCreditoSound | routers/credito_router.py:61-69 | the update keeps integrity, and repeating it changes nothing more |
| Creditos.EliminarCreditoSound | routers/credito_router.py:85-97 | the intended deletion removes exactly that key and keeps integrity |
| Creditos.CrearThenEliminar | routers/credito_router.py:32-97 | deleting the credito just created gives back the store from before the creation |
| Creditos.EliminarCreditoAsWrittenNeverDeletes | routers/credito_router.py:89-97 | on a store holding credito 1, the deletion as written fails where the intended one removes it |
| Database.CreateInitialData | database.py:42-101 | a no-op when a usuario exists; otherwise exactly the two sample usuarios (keys 1 and 2), two new creditos owned by them, one INICIALIZACIÓN row from the system, and no other table changes |
| Database.SeedIdempotent | database.py:49-51 | seeding twice gives the same store as seeding once |
| Database.SeedKeepsValid | database.py:54-91 | seeding keeps the store's integrity: both sample creditos belong to sample usuarios |
| Database.SeedEmpty | database.py:42-101 | a fresh database, seeded, holds exactly the two usuarios, their two creditos (keys 1 and 2) and one audit row keyed 1 |

## Left out

- HTTP and rendering: routing, form and query parsing, redirects, response bodies, and the `ver_creditos` template page (routers/credito_router.py:15-21). Status codes are collapsed into the three error kinds.
- File I/O for cédula scans: the directory creation and the file write. The random uuid in the file name is the `token` parameter of `Usuarios.CrearUsuarioForm` and `Usuarios.ActualizarUsuarioForm`.
- The clock: `datetime.now()` is the `now` parameter. Dates are instants on one integer time line.
- Mapper configuration: models/credito.py:19 declares `usuario` with `back_populates="creditos"`, but models/usuario.py defines no `creditos` relationship. SQLAlchemy would refuse to configure the mappers, which would make every handler that uses the ORM fail. The model assumes the mappers configure, and no row of it depends on that relationship.
- Engine and session plumbing (database.py:20-24, 30-36, 107-115) and main.py. main.py imports `crear_bd_y_tablas`, which database.py does not define; main.py is not part of this model.
- Commit structure: handlers that commit the row and its audit row separately are modelled as one atomic step. A failing commit is out of scope, except where it decides the outcome, as in `Creditos.EliminarCreditoAsWritten`.
- Audit description prose: service rows carry "" in place of their formatted text. PATCH rows carry "Campos modificados: " and the changed fields. The seed row carries its exact text.
- Creditos: the credito handlers write no audit row. The rows they build use `detalle` and `usuario_id`, which are not columns of the audit table.
- Creditos.CrearCredito: does not model that the response is an error after the commit. The handler reads `usuario.id`, which usuarios do not have, so the credito is stored but the request fails. A `Reply` carries no store alongside an error, so the model keeps the stored credito.
- Creditos.ActualizarCredito: does not model that the response is an error after the update is committed. The malformed audit row fails its own, separate commit.
- Creditos.EliminarCredito: does not model the ORM relationships from a credito to its interes and its category links. On deletion the ORM may null out the interes's required `credito_id`, which would fail the commit, and may remove the link rows. The model removes the credito alone and leaves every other table as it is.
- Intereses.EliminarInteres: does not model the ORM relationship from an interes to its simulaciones. When simulaciones reference the interes, the ORM may null out their required `interes_id`, which would fail the commit. The model deletes the interes and leaves those simulaciones as they are.
- Historiales.ListarHistorial: the order among rows with the same date is not fixed. SQLite leaves it unspecified, so the contract speaks of some date ordering of the matches.
- Floating point: amounts and rates are only stored and compared, so they are `real`.
- Text: lower-casing is modelled for ASCII letters only. Non-ASCII file extensions fall outside the accepted set either way.
- Keys: reuse of a deleted largest key, which SQLite's max+1 rule allows, is modelled as is. Client-supplied keys in JSON bodies are not modelled; new rows always take the next key.
- Concurrency: concurrent requests and last-writer-wins races.
- PATCH cannot clear a field: a `None` means "not sent". Clearing a reporte reference or description needs the PUT, which `Reportes.ActualizarReporte` models.

## Findings

| source | as written | input that shows it | evidently intended | confidence | as-written member | corrected member |
|---|---|---|---|---|---|---|
| routers/credito_router.py:89-97 | The audit row is built with `detalle` and `usuario_id`, which the audit table lacks, and leaves its required columns (entity, description, date) empty. It is committed together with the deletion, so the commit fails and the credito stays. | Delete credito 1 of a store holding one usuario and that credito. | The credito is removed. | medium; not executed | Creditos.EliminarCreditoAsWritten (exhibited by Creditos.EliminarCreditoAsWrittenNeverDeletes) | Creditos.EliminarCredito (with Creditos.EliminarCreditoSound and Creditos.CrearThenEliminar) |
