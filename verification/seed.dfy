/**
 The start-up seeding of `app.py`: three check-before-insert loops that put
 the reference micro-networks, facilities and users into the database on
 every start, skipping each row whose unique name is already stored.
 */
module Seed {
  import opened Tables
  import opened Schema

  /** One entry of the facility list: its name and its micro-network's name. */
  datatype FacilitySeed = FacilitySeed(name: string, network: string)

  /** One entry of the user list; `facility` is a facility name or None. */
  datatype UserSeed = UserSeed(username: string, password: string, role: string, facility: Option<string>)

  const NetworkSeeds: seq<string> := [
    "Acora", "Capachica", "Jose Antonio Encinas", "Laraqueri", "Mañazo",
    "Metropolitano", "Simon Bolivar"]

  const FacilitySeeds: seq<FacilitySeed> := [
    FacilitySeed("Establecimiento A", "Acora"),
    FacilitySeed("Establecimiento B", "Acora"),
    FacilitySeed("Establecimiento C", "Capachica"),
    FacilitySeed("Establecimiento D", "Capachica"),
    FacilitySeed("Establecimiento E", "Jose Antonio Encinas"),
    FacilitySeed("Establecimiento F", "Jose Antonio Encinas"),
    FacilitySeed("Establecimiento G", "Laraqueri"),
    FacilitySeed("Establecimiento H", "Mañazo"),
    FacilitySeed("Establecimiento I", "Metropolitano"),
    FacilitySeed("Establecimiento J", "Simon Bolivar")]

  const UserSeeds: seq<UserSeed> := [
    UserSeed("obstetra1", "12345", "obstetra", Some("Establecimiento A")),
    UserSeed("obstetra2", "12345", "obstetra", Some("Establecimiento B")),
    UserSeed("obstetra3", "12345", "obstetra", Some("Establecimiento C")),
    UserSeed("obstetra4", "12345", "obstetra", Some("Establecimiento D")),
    UserSeed("obstetra5", "12345", "obstetra", Some("Establecimiento E")),
    UserSeed("obstetra6", "12345", "obstetra", Some("Establecimiento F")),
    UserSeed("obstetra7", "12345", "obstetra", Some("Establecimiento G")),
    UserSeed("obstetra8", "12345", "obstetra", Some("Establecimiento H")),
    UserSeed("obstetra9", "12345", "obstetra", Some("Establecimiento I")),
    UserSeed("obstetra10", "12345", "obstetra", Some("Establecimiento J")),
    UserSeed("jefe", "admin123", "jefe", None)]

  /** `b` is `a` with zero or more rows appended: no stored row changes. */
  ghost predicate Extends<T>(a: seq<Row<T>>, b: seq<Row<T>>) {
    |a| <= |b| && b[..|a|] == a
  }

  lemma ExtendsTrans<T>(a: seq<Row<T>>, b: seq<Row<T>>, c: seq<Row<T>>)
    requires Extends(a, b) && Extends(b, c)
    ensures Extends(a, c)
  {
    assert c[..|a|] == c[..|b|][..|a|];
  }

  // ---------------------------------------------------------------------
  // Micro-networks

  /** The micro-network loop: for each name, insert it unless a row with
      that name exists. Every listed name ends up present. */
  function SeedNetworks(t: Table<MicroNetwork>, names: seq<string>): (r: Table<MicroNetwork>)
    ensures Extends(t.rows, r.rows)
    ensures forall n :: n in names ==> HasKey(r.rows, NetworkName, n)
    ensures t.Valid() ==> r.Valid()
    ensures UniqueKeys(t.rows, NetworkName) ==> UniqueKeys(r.rows, NetworkName)
    decreases |names|
  {
    if names == [] then t
    else
      var t' := InsertIfAbsent(t, NetworkName, MicroNetwork(names[0]));
      var r := SeedNetworks(t', names[1..]);
      ExtendsTrans(t.rows, t'.rows, r.rows);
      ExtendKeepsKey(t'.rows, r.rows, NetworkName, names[0]);
      r
  }

  /** Every row the micro-network loop adds carries a listed name. */
  lemma {:induction false} SeedNetworksSound(t: Table<MicroNetwork>, names: seq<string>, i: int)
    requires |t.rows| <= i < |SeedNetworks(t, names).rows|
    ensures SeedNetworks(t, names).rows[i].data.name in names
    decreases |names|
  {
    var t' := InsertIfAbsent(t, NetworkName, MicroNetwork(names[0]));
    var r := SeedNetworks(t', names[1..]);
    assert r == SeedNetworks(t, names);
    if i < |t'.rows| {
      assert r.rows[i] == r.rows[..|t'.rows|][i] == t'.rows[i];
    } else {
      SeedNetworksSound(t', names[1..], i);
    }
  }

  /** When every name is already stored, the loop inserts nothing. */
  lemma {:induction false} SeedNetworksNoop(t: Table<MicroNetwork>, names: seq<string>)
    requires forall n :: n in names ==> HasKey(t.rows, NetworkName, n)
    ensures SeedNetworks(t, names) == t
    decreases |names|
  {
    if names != [] {
      assert names[0] in names;
      SeedNetworksNoop(t, names[1..]);
    }
  }

  /** Running the micro-network loop a second time changes nothing. */
  lemma SeedNetworksIdempotent(t: Table<MicroNetwork>, names: seq<string>)
    ensures SeedNetworks(SeedNetworks(t, names), names) == SeedNetworks(t, names)
  {
    SeedNetworksNoop(SeedNetworks(t, names), names);
  }

  /** Exactly one row carries the name `n`. */
  ghost predicate StoredOnce(rows: seq<Row<MicroNetwork>>, n: string) {
    exists i :: 0 <= i < |rows| && rows[i].data.name == n
      && forall j :: 0 <= j < |rows| && rows[j].data.name == n ==> j == i
  }

  /** Under the `UNIQUE` constraint every listed name ends up stored exactly
      once. */
  lemma SeedNetworksExactlyOnce(t: Table<MicroNetwork>, names: seq<string>, n: string)
    requires UniqueKeys(t.rows, NetworkName)
    requires n in names
    ensures StoredOnce(SeedNetworks(t, names).rows, n)
  {
    var r := SeedNetworks(t, names);
    assert UniqueKeys(r.rows, NetworkName);
    assert HasKey(r.rows, NetworkName, n);
    var i :| 0 <= i < |r.rows| && NetworkName(r.rows[i].data) == n;
    forall j | 0 <= j < |r.rows| && r.rows[j].data.name == n
      ensures j == i
    {
      assert NetworkName(r.rows[i].data) == NetworkName(r.rows[j].data);
    }
  }

  // ---------------------------------------------------------------------
  // Facilities

  /** The row the facility loop would insert for `e`: linked to the id of
      the micro-network named in `e`, or nothing when no such micro-network
      is stored. */
  function LinkedFacility(nets: Table<MicroNetwork>, e: FacilitySeed): (f: Option<Facility>)
    ensures f.Some? <==> HasKey(nets.rows, NetworkName, e.network)
    ensures f.Some? ==>
      && f.value.name == e.name
      && f.value.microNetworkId.Some?
      && exists j :: 0 <= j < |nets.rows| && nets.rows[j] == Row(f.value.microNetworkId.value, MicroNetwork(e.network))
  {
    match IdByKey(nets, NetworkName, e.network)
    case None => None
    case Some(mid) => Some(Facility(e.name, Some(mid)))
  }

  /** `f` is the linked row of one of the entries `es`. */
  ghost predicate SeededFacility(nets: Table<MicroNetwork>, es: seq<FacilitySeed>, f: Facility) {
    exists k :: 0 <= k < |es| && LinkedFacility(nets, es[k]) == Some(f)
  }

  lemma SeededFacilityTail(nets: Table<MicroNetwork>, es: seq<FacilitySeed>)
    requires |es| > 0
    ensures forall f :: SeededFacility(nets, es[1..], f) ==> SeededFacility(nets, es, f)
  {
    forall f | SeededFacility(nets, es[1..], f)
      ensures SeededFacility(nets, es, f)
    {
      var k :| 0 <= k < |es[1..]| && LinkedFacility(nets, es[1..][k]) == Some(f);
      assert es[k + 1] == es[1..][k];
    }
  }

  /** One step of the facility loop: skip the entry when its micro-network
      is not stored; otherwise insert the linked row unless a facility with
      that name exists. */
  function SeedFacility(nets: Table<MicroNetwork>, fac: Table<Facility>, e: FacilitySeed): Table<Facility> {
    match LinkedFacility(nets, e)
    case None => fac
    case Some(f) => InsertIfAbsent(fac, FacilityName, f)
  }

  /** The facility loop. Every entry whose micro-network is stored ends up
      present. */
  function SeedFacilities(nets: Table<MicroNetwork>, fac: Table<Facility>, es: seq<FacilitySeed>): (r: Table<Facility>)
    ensures Extends(fac.rows, r.rows)
    ensures forall k :: 0 <= k < |es| && HasKey(nets.rows, NetworkName, es[k].network) ==>
      HasKey(r.rows, FacilityName, es[k].name)
    ensures fac.Valid() ==> r.Valid()
    ensures UniqueKeys(fac.rows, FacilityName) ==> UniqueKeys(r.rows, FacilityName)
    decreases |es|
  {
    if es == [] then fac
    else
      var fac' := SeedFacility(nets, fac, es[0]);
      var r := SeedFacilities(nets, fac', es[1..]);
      ExtendsTrans(fac.rows, fac'.rows, r.rows);
      assert forall k :: 0 <= k < |es| && HasKey(nets.rows, NetworkName, es[k].network) ==>
          HasKey(r.rows, FacilityName, es[k].name) by {
        forall k | 0 <= k < |es| && HasKey(nets.rows, NetworkName, es[k].network)
          ensures HasKey(r.rows, FacilityName, es[k].name)
        {
          if k == 0 {
            ExtendKeepsKey(fac'.rows, r.rows, FacilityName, es[0].name);
          } else {
            assert es[k] == es[1..][k - 1];
          }
        }
      }
      r
  }

  /** Every row the facility loop adds is the linked row of an entry whose
      micro-network is stored. */
  lemma {:induction false} SeedFacilitiesSound(nets: Table<MicroNetwork>, fac: Table<Facility>, es: seq<FacilitySeed>, i: int)
    requires |fac.rows| <= i < |SeedFacilities(nets, fac, es).rows|
    ensures SeededFacility(nets, es, SeedFacilities(nets, fac, es).rows[i].data)
    decreases |es|
  {
    var fac' := SeedFacility(nets, fac, es[0]);
    var r := SeedFacilities(nets, fac', es[1..]);
    assert r == SeedFacilities(nets, fac, es);
    if i < |fac'.rows| {
      var f := LinkedFacility(nets, es[0]).value;
      assert r.rows[i] == r.rows[..|fac'.rows|][i] == fac'.rows[i];
      assert fac'.rows[i].data == f;
      assert LinkedFacility(nets, es[0]) == Some(f);
    } else {
      SeedFacilitiesSound(nets, fac', es[1..], i);
      SeededFacilityTail(nets, es);
    }
  }

  lemma {:induction false} SeedFacilitiesNoop(nets: Table<MicroNetwork>, fac: Table<Facility>, es: seq<FacilitySeed>)
    requires forall k :: 0 <= k < |es| && HasKey(nets.rows, NetworkName, es[k].network) ==>
      HasKey(fac.rows, FacilityName, es[k].name)
    ensures SeedFacilities(nets, fac, es) == fac
    decreases |es|
  {
    if es != [] {
      assert forall k :: 0 <= k < |es| - 1 ==> es[1..][k] == es[k + 1];
      SeedFacilitiesNoop(nets, fac, es[1..]);
    }
  }

  /** Running the facility loop a second time, over the same micro-networks,
      changes nothing. */
  lemma SeedFacilitiesIdempotent(nets: Table<MicroNetwork>, fac: Table<Facility>, es: seq<FacilitySeed>)
    ensures SeedFacilities(nets, SeedFacilities(nets, fac, es), es) == SeedFacilities(nets, fac, es)
  {
    SeedFacilitiesNoop(nets, SeedFacilities(nets, fac, es), es);
  }

  // ---------------------------------------------------------------------
  // Users

  /** The facility id a user entry receives: looked up by name only when the
      name is truthy (present and non-empty); null otherwise or when no
      facility has that name. */
  function ResolveFacility(fac: Table<Facility>, name: Option<string>): (r: Option<int>)
    ensures r.None? <==> name.None? || name.value == "" || !HasKey(fac.rows, FacilityName, name.value)
    ensures r.Some? ==>
      exists i :: 0 <= i < |fac.rows| && fac.rows[i].id == r.value && fac.rows[i].data.name == name.value
  {
    if name.Some? && name.value != "" then IdByKey(fac, FacilityName, name.value) else None
  }

  /** The row the user loop would insert for `e`. */
  function ResolvedUser(fac: Table<Facility>, e: UserSeed): (u: User)
    ensures u.username == e.username && u.password == e.password && u.role == e.role
    ensures u.facilityId.None? <==> e.facility.None? || e.facility.value == "" || !HasKey(fac.rows, FacilityName, e.facility.value)
  {
    User(e.username, e.password, e.role, ResolveFacility(fac, e.facility))
  }

  /** `u` is the resolved row of one of the entries `es`. */
  ghost predicate SeededUser(fac: Table<Facility>, es: seq<UserSeed>, u: User) {
    exists k :: 0 <= k < |es| && ResolvedUser(fac, es[k]) == u
  }

  lemma SeededUserTail(fac: Table<Facility>, es: seq<UserSeed>)
    requires |es| > 0
    ensures forall u :: SeededUser(fac, es[1..], u) ==> SeededUser(fac, es, u)
  {
    forall u | SeededUser(fac, es[1..], u)
      ensures SeededUser(fac, es, u)
    {
      var k :| 0 <= k < |es[1..]| && ResolvedUser(fac, es[1..][k]) == u;
      assert es[k + 1] == es[1..][k];
    }
  }

  function SeedUser(fac: Table<Facility>, users: Table<User>, e: UserSeed): Table<User> {
    InsertIfAbsent(users, Username, ResolvedUser(fac, e))
  }

  /** The user loop. Every entry's username ends up present. */
  function SeedUsers(fac: Table<Facility>, users: Table<User>, es: seq<UserSeed>): (r: Table<User>)
    ensures Extends(users.rows, r.rows)
    ensures forall k :: 0 <= k < |es| ==> HasKey(r.rows, Username, es[k].username)
    ensures users.Valid() ==> r.Valid()
    ensures UniqueKeys(users.rows, Username) ==> UniqueKeys(r.rows, Username)
    decreases |es|
  {
    if es == [] then users
    else
      var users' := SeedUser(fac, users, es[0]);
      var r := SeedUsers(fac, users', es[1..]);
      ExtendsTrans(users.rows, users'.rows, r.rows);
      ExtendKeepsKey(users'.rows, r.rows, Username, es[0].username);
      assert forall k :: 0 <= k < |es| ==> HasKey(r.rows, Username, es[k].username) by {
        forall k | 0 <= k < |es|
          ensures HasKey(r.rows, Username, es[k].username)
        {
          if k > 0 {
            assert es[k] == es[1..][k - 1];
          }
        }
      }
      r
  }

  /** Every row the user loop adds is one of the entries with its facility
      resolved. */
  lemma {:induction false} SeedUsersSound(fac: Table<Facility>, users: Table<User>, es: seq<UserSeed>, i: int)
    requires |users.rows| <= i < |SeedUsers(fac, users, es).rows|
    ensures SeededUser(fac, es, SeedUsers(fac, users, es).rows[i].data)
    decreases |es|
  {
    var users' := SeedUser(fac, users, es[0]);
    var r := SeedUsers(fac, users', es[1..]);
    assert r == SeedUsers(fac, users, es);
    if i < |users'.rows| {
      assert r.rows[i] == r.rows[..|users'.rows|][i] == users'.rows[i];
      assert users'.rows[i].data == ResolvedUser(fac, es[0]);
    } else {
      SeedUsersSound(fac, users', es[1..], i);
      SeededUserTail(fac, es);
    }
  }

  lemma {:induction false} SeedUsersNoop(fac: Table<Facility>, users: Table<User>, es: seq<UserSeed>)
    requires forall k :: 0 <= k < |es| ==> HasKey(users.rows, Username, es[k].username)
    ensures SeedUsers(fac, users, es) == users
    decreases |es|
  {
    if es != [] {
      assert forall k :: 0 <= k < |es| - 1 ==> es[1..][k] == es[k + 1];
      SeedUsersNoop(fac, users, es[1..]);
    }
  }

  /** Running the user loop a second time changes nothing. */
  lemma SeedUsersIdempotent(fac: Table<Facility>, users: Table<User>, es: seq<UserSeed>)
    ensures SeedUsers(fac, SeedUsers(fac, users, es), es) == SeedUsers(fac, users, es)
  {
    SeedUsersNoop(fac, SeedUsers(fac, users, es), es);
  }

  // ---------------------------------------------------------------------
  // Start-up

  /** The three loops in program order over the lists `ns`, `fs` and `us`.
      The PAP-test table is never touched. */
  function SeedAll(db: Db, ns: seq<string>, fs: seq<FacilitySeed>, us: seq<UserSeed>): (r: Db)
    ensures r.tests == db.tests
    ensures Extends(db.microNetworks.rows, r.microNetworks.rows)
    ensures Extends(db.facilities.rows, r.facilities.rows)
    ensures Extends(db.users.rows, r.users.rows)
    ensures db.Valid() ==> r.Valid()
    ensures UniqueNames(db) ==> UniqueNames(r)
  {
    var nets := SeedNetworks(db.microNetworks, ns);
    var fac := SeedFacilities(nets, db.facilities, fs);
    var users := SeedUsers(fac, db.users, us);
    Db(nets, fac, users, db.tests)
  }

  /** What every start of the dashboard does to the database. */
  function Startup(db: Db): Db {
    SeedAll(db, NetworkSeeds, FacilitySeeds, UserSeeds)
  }

  /** Start-up is idempotent on every database: a second start adds nothing. */
  lemma StartupIdempotent(db: Db)
    ensures Startup(Startup(db)) == Startup(db)
  {
    var s := Startup(db);
    SeedNetworksIdempotent(db.microNetworks, NetworkSeeds);
    SeedFacilitiesIdempotent(s.microNetworks, db.facilities, FacilitySeeds);
    SeedUsersIdempotent(s.facilities, db.users, UserSeeds);
  }

  /** The only user entry named "jefe" is the last one, which names no facility. */
  lemma SupervisorEntry()
    ensures forall k :: 0 <= k < |UserSeeds| && UserSeeds[k].username == "jefe" ==> UserSeeds[k].facility.None?
  {
  }

  /** A user whose entry names no facility is stored with a null facility. */
  lemma SeedUsersNullFacility(fac: Table<Facility>, users: Table<User>, es: seq<UserSeed>, name: string)
    requires forall k :: 0 <= k < |es| && es[k].username == name ==> es[k].facility.None?
    ensures var r := SeedUsers(fac, users, es);
      forall i :: |users.rows| <= i < |r.rows| && r.rows[i].data.username == name ==>
        r.rows[i].data.facilityId.None?
  {
    var r := SeedUsers(fac, users, es);
    forall i | |users.rows| <= i < |r.rows| && r.rows[i].data.username == name
      ensures r.rows[i].data.facilityId.None?
    {
      SeedUsersSound(fac, users, es, i);
    }
  }

  /** Every user row that the user loop adds for the username "jefe" has a
      null facility, whatever facilities are stored, since its seed entry
      names no facility. */
  lemma SupervisorSeededWithoutFacility(fac: Table<Facility>, users: Table<User>)
    ensures var r := SeedUsers(fac, users, UserSeeds);
      forall i :: |users.rows| <= i < |r.rows| && r.rows[i].data.username == "jefe" ==>
        r.rows[i].data.facilityId.None?
  {
    SupervisorEntry();
    SeedUsersNullFacility(fac, users, UserSeeds, "jefe");
  }

  // ---------------------------------------------------------------------
  // Start-up on an empty database

  /** No two elements of `s` are equal. */
  ghost predicate Distinct<X>(s: seq<X>) {
    forall i, j :: 0 <= i < j < |s| ==> s[i] != s[j]
  }

  /** Fresh, pairwise distinct names are all inserted. */
  lemma {:induction false} SeedNetworksFresh(t: Table<MicroNetwork>, names: seq<string>)
    requires forall n :: n in names ==> !HasKey(t.rows, NetworkName, n)
    requires Distinct(names)
    ensures |SeedNetworks(t, names).rows| == |t.rows| + |names|
    decreases |names|
  {
    if names != [] {
      var d := MicroNetwork(names[0]);
      assert names[0] in names;
      var t' := InsertIfAbsent(t, NetworkName, d);
      assert t' == t.Insert(d);
      forall n | n in names[1..]
        ensures !HasKey(t'.rows, NetworkName, n)
      {
        if HasKey(t'.rows, NetworkName, n) {
          InsertedKeys(t, NetworkName, d, n);
          assert false;
        }
      }
      SeedNetworksFresh(t', names[1..]);
    }
  }

  /** Entries whose micro-network is stored, with fresh, pairwise distinct
      names, are all inserted. */
  lemma {:induction false} SeedFacilitiesFresh(nets: Table<MicroNetwork>, fac: Table<Facility>, es: seq<FacilitySeed>)
    requires forall k :: 0 <= k < |es| ==> HasKey(nets.rows, NetworkName, es[k].network)
    requires forall k :: 0 <= k < |es| ==> !HasKey(fac.rows, FacilityName, es[k].name)
    requires forall i, j :: 0 <= i < j < |es| ==> es[i].name != es[j].name
    ensures |SeedFacilities(nets, fac, es).rows| == |fac.rows| + |es|
    decreases |es|
  {
    if es != [] {
      var d := LinkedFacility(nets, es[0]).value;
      var fac' := SeedFacility(nets, fac, es[0]);
      assert fac' == fac.Insert(d);
      forall k | 0 <= k < |es[1..]|
        ensures !HasKey(fac'.rows, FacilityName, es[1..][k].name)
      {
        assert es[1..][k] == es[k + 1];
        if HasKey(fac'.rows, FacilityName, es[k + 1].name) {
          InsertedKeys(fac, FacilityName, d, es[k + 1].name);
          assert false;
        }
      }
      assert forall k :: 0 <= k < |es[1..]| ==> es[1..][k] == es[k + 1];
      SeedFacilitiesFresh(nets, fac', es[1..]);
    }
  }

  /** Entries with fresh, pairwise distinct usernames are all inserted. */
  lemma {:induction false} SeedUsersFresh(fac: Table<Facility>, users: Table<User>, es: seq<UserSeed>)
    requires forall k :: 0 <= k < |es| ==> !HasKey(users.rows, Username, es[k].username)
    requires forall i, j :: 0 <= i < j < |es| ==> es[i].username != es[j].username
    ensures |SeedUsers(fac, users, es).rows| == |users.rows| + |es|
    decreases |es|
  {
    if es != [] {
      var d := ResolvedUser(fac, es[0]);
      var users' := SeedUser(fac, users, es[0]);
      assert users' == users.Insert(d);
      forall k | 0 <= k < |es[1..]|
        ensures !HasKey(users'.rows, Username, es[1..][k].username)
      {
        assert es[1..][k] == es[k + 1];
        if HasKey(users'.rows, Username, es[k + 1].username) {
          InsertedKeys(users, Username, d, es[k + 1].username);
          assert false;
        }
      }
      assert forall k :: 0 <= k < |es[1..]| ==> es[1..][k] == es[k + 1];
      SeedUsersFresh(fac, users', es[1..]);
    }
  }

  lemma NetworkSeedsDistinct()
    ensures Distinct(NetworkSeeds)
  {
  }

  lemma FacilitySeedsLinked()
    ensures forall k :: 0 <= k < |FacilitySeeds| ==> FacilitySeeds[k].network in NetworkSeeds
  {
  }

  lemma FacilitySeedsDistinct()
    ensures forall i, j :: 0 <= i < j < |FacilitySeeds| ==> FacilitySeeds[i].name != FacilitySeeds[j].name
  {
  }

  lemma UserSeedsDistinct()
    ensures forall i, j :: 0 <= i < j < |UserSeeds| ==> UserSeeds[i].username != UserSeeds[j].username
  {
  }

  /** On an empty database the first start stores exactly the 7
      micro-networks of the seed list. */
  lemma NetworksFromEmpty()
    ensures |Startup(EmptyDb()).microNetworks.rows| == 7
  {
    NetworkSeedsDistinct();
    SeedNetworksFresh(EmptyTable(), NetworkSeeds);
  }

  /** On an empty database the first start stores exactly the 10 seed
      facilities: each one's micro-network is stored by then. */
  lemma FacilitiesFromEmpty()
    ensures |Startup(EmptyDb()).facilities.rows| == 10
  {
    var nets := SeedNetworks(EmptyTable(), NetworkSeeds);
    FacilitySeedsLinked();
    FacilitySeedsDistinct();
    SeedFacilitiesFresh(nets, EmptyTable(), FacilitySeeds);
  }

  /** On an empty database the first start stores exactly the 11 seed
      users and no PAP test. */
  lemma UsersFromEmpty()
    ensures |Startup(EmptyDb()).users.rows| == 11
    ensures |Startup(EmptyDb()).tests.rows| == 0
  {
    var nets := SeedNetworks(EmptyTable(), NetworkSeeds);
    var fac := SeedFacilities(nets, EmptyTable(), FacilitySeeds);
    UserSeedsDistinct();
    SeedUsersFresh(fac, EmptyTable(), UserSeeds);
  }
}
