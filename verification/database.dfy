/** database.py: the sample data loaded when the application starts. */
module Database {
  import opened Wrappers
  import opened Entities

  const JUAN := Usuario("Juan Pérez", 3000000.0, 1200000.0, "juan.perez@example.com", "3001234567", None)
  const MARIA := Usuario("María López", 4500000.0, 1800000.0, "maria.lopez@example.com", "3109876543", None)

  /** The sample credito of the usuario keyed `owner`. */
  function CreditoPersonal(owner: int): Credito {
    Credito(10000000.0, 12, "Personal", None, owner)
  }

  function CreditoVehiculo(owner: int): Credito {
    Credito(20000000.0, 24, "Vehículo", None, owner)
  }

  /** The description of the audit row the seeding writes. */
  const NOTA_INICIAL := "Base de datos creada y datos de ejemplo cargados"

  /** create_initial_data: does nothing when some usuario exists. Otherwise
      it adds two sample usuarios, one sample credito for each, and one
      audit row for the system's initialisation; other tables are left
      alone. */
  function CreateInitialData(s: Store, now: int): (t: Store)
    ensures s.usuarios != map[] ==> t == s
    ensures s.usuarios == map[] ==> t.usuarios == map[1 := JUAN, 2 := MARIA]
    ensures s.usuarios == map[] ==>
      exists c1, c2 | c1 !in s.creditos && c2 !in s.creditos && c1 != c2 ::
        t.creditos == s.creditos[c1 := CreditoPersonal(1)][c2 := CreditoVehiculo(2)]
    ensures s.usuarios == map[] ==>
      && Frame(s, t, {Usuarios, Creditos})
      && Appended(s.historial, t.historial, SISTEMA, INICIALIZACION, now)
      && LastNote(t) == NOTA_INICIAL
  {
    if s.usuarios != map[] then s
    else
      var u1 := NextKey(s.usuarios);
      var us := s.usuarios[u1 := JUAN];
      var u2 := NextKey(us);
      var us' := us[u2 := MARIA];
      var c1 := NextKey(s.creditos);
      var cs := s.creditos[c1 := CreditoPersonal(u1)];
      var c2 := NextKey(cs);
      var cs' := cs[c2 := CreditoVehiculo(u2)];
      assert u1 == 1 && u2 == 2 by { assert us.Keys == {1}; }
      Audit(s.(usuarios := us', creditos := cs'), SISTEMA, INICIALIZACION, NOTA_INICIAL, now)
  }

  // ---------------------------------------------------------------------
  // Properties
  // ---------------------------------------------------------------------

  /** Seeding twice is seeding once: the second run finds the sample
      usuarios and does nothing. */
  lemma SeedIdempotent(s: Store, now: int, later: int)
    ensures CreateInitialData(CreateInitialData(s, now), later) == CreateInitialData(s, now)
  {
  }

  /** Seeding keeps the store's integrity: both sample creditos belong to a
      sample usuario. */
  lemma SeedKeepsValid(s: Store, now: int)
    requires Valid(s)
    ensures Valid(CreateInitialData(s, now))
  {
    var t := CreateInitialData(s, now);
    if s.usuarios == map[] {
      var c1, c2 :| c1 !in s.creditos && c2 !in s.creditos && c1 != c2 &&
        t.creditos == s.creditos[c1 := CreditoPersonal(1)][c2 := CreditoVehiculo(2)];
      AppendKeepsIdsUnique(s.historial, t.historial, SISTEMA, INICIALIZACION, now);
    }
  }

  /** A freshly created database, once seeded, holds exactly the sample
      data: two usuarios, their two creditos and one audit row. */
  lemma SeedEmpty(now: int)
    ensures CreateInitialData(Empty, now) == Empty.(
      usuarios := map[1 := JUAN, 2 := MARIA],
      creditos := map[1 := CreditoPersonal(1), 2 := CreditoVehiculo(2)],
      historial := [Historial(1, SISTEMA, INICIALIZACION, NOTA_INICIAL, now)])
  {
    var t := CreateInitialData(Empty, now);
    var cs := map[1 := CreditoPersonal(1)];
    assert NextKey(cs) == 2 by { assert cs.Keys == {1}; }
  }
}
