/**
 What logging in does on the database the first start builds from nothing:
 a seeded clinician gets the clinician role and a facility, the supervisor
 gets the supervisor role and no facility, and unknown credentials get
 nothing.
 */
module SeededLogins {
  import opened Tables
  import opened Schema
  import opened Seed
  import opened Queries

  /** On a database with no users, the users table after start-up is the
      user seeds resolved against the facilities start-up left. */
  lemma StartupUsers(db: Db)
    requires db.users == EmptyTable()
    ensures Startup(db).users == SeedUsers(Startup(db).facilities, EmptyTable(), UserSeeds)
  {
  }

  /** Seeding users into an empty table stores every entry's username, and
      each at most once. */
  lemma EntryRow(fac: Table<Facility>, es: seq<UserSeed>, k: int) returns (i: int)
    requires 0 <= k < |es|
    ensures UniqueKeys(SeedUsers(fac, EmptyTable(), es).rows, Username)
    ensures 0 <= i < |SeedUsers(fac, EmptyTable(), es).rows|
    ensures SeedUsers(fac, EmptyTable(), es).rows[i].data.username == es[k].username
  {
    var users := SeedUsers(fac, EmptyTable(), es);
    assert HasKey(users.rows, Username, es[k].username);
    i :| 0 <= i < |users.rows| && Username(users.rows[i].data) == es[k].username;
  }

  /** Seeding users into an empty table, the row carrying the username of
      an entry no other entry shares is that entry, resolved. */
  lemma UniqueEntryRow(fac: Table<Facility>, es: seq<UserSeed>, k: int, i: int)
    requires 0 <= k < |es|
    requires forall k' :: 0 <= k' < |es| && es[k'].username == es[k].username ==> k' == k
    requires 0 <= i < |SeedUsers(fac, EmptyTable(), es).rows|
    requires SeedUsers(fac, EmptyTable(), es).rows[i].data.username == es[k].username
    ensures SeedUsers(fac, EmptyTable(), es).rows[i].data == ResolvedUser(fac, es[k])
  {
    SeedUsersSound(fac, EmptyTable(), es, i);
    var ki :| 0 <= ki < |es| && ResolvedUser(fac, es[ki]) == SeedUsers(fac, EmptyTable(), es).rows[i].data;
    assert ki == k;
  }

  /** Seeding users into an empty table, an entry whose username no other
      entry shares signs in with its own password, with its own role and its
      resolved facility. */
  lemma SeededSignIn(fac: Table<Facility>, es: seq<UserSeed>, k: int)
    requires 0 <= k < |es|
    requires forall k' :: 0 <= k' < |es| && es[k'].username == es[k].username ==> k' == k
    ensures var a := Authenticate(SeedUsers(fac, EmptyTable(), es), es[k].username, es[k].password);
      a.Some? && a.value.role == es[k].role && a.value.facilityId == ResolveFacility(fac, es[k].facility)
  {
    var i := EntryRow(fac, es, k);
    UniqueEntryRow(fac, es, k, i);
    AuthenticateUnique(SeedUsers(fac, EmptyTable(), es), es[k].username, es[k].password, i);
  }

  /** Seeding users into an empty table, a username no entry carries signs
      in nobody, whatever the password. */
  lemma SeededReject(fac: Table<Facility>, es: seq<UserSeed>, username: string, password: string)
    requires forall k :: 0 <= k < |es| ==> es[k].username != username
    ensures Authenticate(SeedUsers(fac, EmptyTable(), es), username, password).None?
  {
    var users := SeedUsers(fac, EmptyTable(), es);
    forall i | 0 <= i < |users.rows|
      ensures users.rows[i].data.username != username
    {
      SeedUsersSound(fac, EmptyTable(), es, i);
    }
  }

  lemma ClinicianEntry()
    ensures UserSeeds[0] == UserSeed("obstetra1", "12345", "obstetra", Some("Establecimiento A"))
    ensures forall k :: 0 <= k < |UserSeeds| && UserSeeds[k].username == UserSeeds[0].username ==> k == 0
  {
  }

  lemma SupervisorEntryIsLast()
    ensures UserSeeds[10] == UserSeed("jefe", "admin123", "jefe", None)
    ensures forall k :: 0 <= k < |UserSeeds| && UserSeeds[k].username == UserSeeds[10].username ==> k == 10
  {
  }

  /** No user entry is named "x". */
  lemma NoEntryNamedX()
    ensures forall k :: 0 <= k < |UserSeeds| ==> UserSeeds[k].username != "x"
  {
  }

  lemma StoredResolves(fac: Table<Facility>, name: string)
    requires name != "" && HasKey(fac.rows, FacilityName, name)
    ensures ResolveFacility(fac, Some(name)).Some?
  {
  }

  /** Whatever the database held, "Establecimiento A" is stored after a
      start, because its micro-network "Acora" is. */
  lemma FacilityAStored(db: Db)
    ensures HasKey(Startup(db).facilities.rows, FacilityName, "Establecimiento A")
  {
    var nets := SeedNetworks(db.microNetworks, NetworkSeeds);
    assert NetworkSeeds[0] == "Acora";
    assert HasKey(nets.rows, NetworkName, "Acora");
    assert FacilitySeeds[0] == FacilitySeed("Establecimiento A", "Acora");
  }

  /** Against any facilities table holding "Establecimiento A", the seeded
      clinician "obstetra1" signs in with its seeded password as a clinician
      ("obstetra") linked to a facility. */
  lemma ClinicianSignsIn(fac: Table<Facility>)
    requires HasKey(fac.rows, FacilityName, "Establecimiento A")
    ensures var a := Authenticate(SeedUsers(fac, EmptyTable(), UserSeeds), "obstetra1", "12345");
      a.Some? && a.value.role == "obstetra" && a.value.facilityId.Some?
  {
    ClinicianEntry();
    SeededSignIn(fac, UserSeeds, 0);
    StoredResolves(fac, "Establecimiento A");
  }

  /** Against any facilities table, the seeded supervisor "jefe" signs in
      as supervisor with no facility. */
  lemma SupervisorSignsIn(fac: Table<Facility>)
    ensures var a := Authenticate(SeedUsers(fac, EmptyTable(), UserSeeds), "jefe", "admin123");
      a.Some? && a.value.role == "jefe" && a.value.facilityId.None?
  {
    SupervisorEntryIsLast();
    SeededSignIn(fac, UserSeeds, 10);
  }

  /** On the first start from an empty database, "obstetra1" signs in as a
      clinician linked to a facility. */
  lemma SeededClinicianSignsIn(db: Db)
    requires db == EmptyDb()
    ensures var a := Authenticate(Startup(db).users, "obstetra1", "12345");
      a.Some? && a.value.role == "obstetra" && a.value.facilityId.Some?
  {
    StartupUsers(db);
    FacilityAStored(db);
    ClinicianSignsIn(Startup(db).facilities);
  }

  /** On the first start from an empty database, "jefe" signs in as
      supervisor with no facility. */
  lemma SeededSupervisorSignsIn(db: Db)
    requires db == EmptyDb()
    ensures var a := Authenticate(Startup(db).users, "jefe", "admin123");
      a.Some? && a.value.role == "jefe" && a.value.facilityId.None?
  {
    StartupUsers(db);
    SupervisorSignsIn(Startup(db).facilities);
  }

  /** Against any facilities table, credentials of no seeded user sign in
      nobody. */
  lemma UnknownSignsInNobody(fac: Table<Facility>)
    ensures Authenticate(SeedUsers(fac, EmptyTable(), UserSeeds), "x", "y").None?
  {
    NoEntryNamedX();
    SeededReject(fac, UserSeeds, "x", "y");
  }

  /** On the first start from an empty database, credentials of no seeded
      user sign in nobody. */
  lemma UnknownUserRejected(db: Db)
    requires db == EmptyDb()
    ensures Authenticate(Startup(db).users, "x", "y").None?
  {
    StartupUsers(db);
    UnknownSignsInNobody(Startup(db).facilities);
  }
}
