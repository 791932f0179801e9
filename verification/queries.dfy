/**
 The read queries of the dashboard: the login lookup, the facility /
 micro-network join of the side panel, the four per-facility counts, the
 clinician's per-facility listing and the supervisor's global listing.
 */
module Queries {
  import opened Tables
  import opened Schema

  // ---------------------------------------------------------------------
  // Login

  /** The tuple `(id, rol, establecimiento_id)` the login query returns. */
  datatype AuthRow = AuthRow(userId: int, role: string, facilityId: Option<int>)

  function HasCredentials(username: string, password: string): Row<User> -> bool {
    (r: Row<User>) => r.data.username == username && r.data.password == password
  }

  /** Exact, case-sensitive match on both username and password; the first
      matching row in storage order, or None. */
  function Authenticate(users: Table<User>, username: string, password: string): (r: Option<AuthRow>)
    ensures r.Some? <==>
      exists i :: 0 <= i < |users.rows| && users.rows[i].data.username == username
        && users.rows[i].data.password == password
    ensures r.Some? ==>
      exists i :: 0 <= i < |users.rows| && users.rows[i].data.username == username
        && users.rows[i].data.password == password
        && r.value == AuthRow(users.rows[i].id, users.rows[i].data.role, users.rows[i].data.facilityId)
  {
    match FirstMatch(users.rows, HasCredentials(username, password))
    case None => None
    case Some(u) => Some(AuthRow(u.id, u.data.role, u.data.facilityId))
  }

  /** Since usernames are unique, the row returned is THE user with those
      credentials. */
  lemma AuthenticateUnique(users: Table<User>, username: string, password: string, i: int)
    requires UniqueKeys(users.rows, Username)
    requires 0 <= i < |users.rows|
    requires users.rows[i].data.username == username && users.rows[i].data.password == password
    ensures Authenticate(users, username, password)
      == Some(AuthRow(users.rows[i].id, users.rows[i].data.role, users.rows[i].data.facilityId))
  {
    var r := Authenticate(users, username, password);
    var j :| 0 <= j < |users.rows| && users.rows[j].data.username == username
      && users.rows[j].data.password == password
      && r.value == AuthRow(users.rows[j].id, users.rows[j].data.role, users.rows[j].data.facilityId);
    assert Username(users.rows[i].data) == Username(users.rows[j].data);
  }

  // ---------------------------------------------------------------------
  // Facility information

  /** The two names the side panel shows for a facility. */
  datatype FacilityInfo = FacilityInfo(facilityName: string, networkName: string)

  function WithId<T>(id: int): Row<T> -> bool {
    (r: Row<T>) => r.id == id
  }

  /** The micro-network row the join `e.microred_id = m.id` pairs with `f`:
      none when the link is NULL or dangling. */
  function NetworkOf(nets: Table<MicroNetwork>, f: Facility): (m: Option<Row<MicroNetwork>>)
    ensures m.Some? <==> exists j :: 0 <= j < |nets.rows| && f.microNetworkId == Some(nets.rows[j].id)
    ensures m.Some? ==> m.value in nets.rows && f.microNetworkId == Some(m.value.id)
  {
    match f.microNetworkId
    case None => None
    case Some(mid) => FirstMatch(nets.rows, WithId(mid))
  }

  function Joinable(nets: Table<MicroNetwork>, facilityId: int): Row<Facility> -> bool {
    (r: Row<Facility>) => r.id == facilityId && NetworkOf(nets, r.data).Some?
  }

  /** The facility's name and its micro-network's name, found by an inner
      join: None when the facility does not exist or has no (existing)
      micro-network. */
  function GetFacilityInfo(db: Db, facilityId: int): (r: Option<FacilityInfo>)
    ensures r.None? <==>
      forall i, j :: 0 <= i < |db.facilities.rows| && 0 <= j < |db.microNetworks.rows| ==>
        !(db.facilities.rows[i].id == facilityId
          && db.facilities.rows[i].data.microNetworkId == Some(db.microNetworks.rows[j].id))
    ensures r.Some? ==>
      exists i, j :: 0 <= i < |db.facilities.rows| && 0 <= j < |db.microNetworks.rows|
        && db.facilities.rows[i].id == facilityId
        && db.facilities.rows[i].data.microNetworkId == Some(db.microNetworks.rows[j].id)
        && r.value == FacilityInfo(db.facilities.rows[i].data.name, db.microNetworks.rows[j].data.name)
  {
    match FirstMatch(db.facilities.rows, Joinable(db.microNetworks, facilityId))
    case None => None
    case Some(f) =>
      match NetworkOf(db.microNetworks, f.data)
      case None => None
      case Some(m) => Some(FacilityInfo(f.data.name, m.data.name))
  }

  /** With unique primary keys the join has at most one result, so the
      lookup returns exactly the names of the joined pair. */
  lemma FacilityInfoIsJoin(db: Db, facilityId: int, i: int, j: int)
    requires db.facilities.Valid() && db.microNetworks.Valid()
    requires 0 <= i < |db.facilities.rows| && 0 <= j < |db.microNetworks.rows|
    requires db.facilities.rows[i].id == facilityId
    requires db.facilities.rows[i].data.microNetworkId == Some(db.microNetworks.rows[j].id)
    ensures GetFacilityInfo(db, facilityId)
      == Some(FacilityInfo(db.facilities.rows[i].data.name, db.microNetworks.rows[j].data.name))
  {
    var r := GetFacilityInfo(db, facilityId);
    var i', j' :| 0 <= i' < |db.facilities.rows| && 0 <= j' < |db.microNetworks.rows|
      && db.facilities.rows[i'].id == facilityId
      && db.facilities.rows[i'].data.microNetworkId == Some(db.microNetworks.rows[j'].id)
      && r.value == FacilityInfo(db.facilities.rows[i'].data.name, db.microNetworks.rows[j'].data.name);
    IdsUnique(db.facilities, i, i');
    IdsUnique(db.microNetworks, j, j');
  }

  // ---------------------------------------------------------------------
  // Filtered scans and counts over `pruebas_pap`

  /** The `resultado` part of a `WHERE` clause. */
  datatype ResultFilter = AnyResult | ResultIs(text: string) | ResultIsNull

  /** SQL semantics: `resultado = 'x'` is never true of a NULL result. */
  predicate ResultMatches(result: Option<string>, f: ResultFilter) {
    match f
    case AnyResult => true
    case ResultIs(text) => result == Some(text)
    case ResultIsNull => result.None?
  }

  /** `WHERE establecimiento_id = ? AND <result filter>`. */
  predicate InScope(t: PapTest, facilityId: Option<int>, f: ResultFilter) {
    SqlEq(t.facilityId, facilityId) && ResultMatches(t.result, f)
  }

  /** The rows the `WHERE` clause selects, in storage order. */
  function Select(rows: seq<Row<PapTest>>, facilityId: Option<int>, f: ResultFilter): (r: seq<Row<PapTest>>)
    ensures |r| <= |rows|
    ensures forall x :: x in r <==> x in rows && InScope(x.data, facilityId, f)
    decreases |rows|
  {
    if rows == [] then []
    else
      var last := rows[|rows| - 1];
      Select(rows[..|rows| - 1], facilityId, f) + (if InScope(last.data, facilityId, f) then [last] else [])
  }

  /** A selection keeps every in-scope row as often as it is stored and
      drops every other row: it is exactly the filter, duplicates included. */
  lemma {:induction false} SelectIsFilter(rows: seq<Row<PapTest>>, facilityId: Option<int>, f: ResultFilter)
    ensures forall x ::
      multiset(Select(rows, facilityId, f))[x] == (if InScope(x.data, facilityId, f) then multiset(rows)[x] else 0)
    decreases |rows|
  {
    if rows != [] {
      var init := rows[..|rows| - 1];
      var last := rows[|rows| - 1];
      SelectIsFilter(init, facilityId, f);
      assert rows == init + [last];
      assert multiset(rows) == multiset(init) + multiset{last};
    }
  }

  /** The positions of the rows a `WHERE` clause selects. */
  ghost function Matches(rows: seq<Row<PapTest>>, facilityId: Option<int>, f: ResultFilter): set<int> {
    set i | 0 <= i < |rows| && InScope(rows[i].data, facilityId, f)
  }

  /** Counting over all rows counts over all but the last, plus one when
      the last row is in scope. */
  lemma CountSnoc(rows: seq<Row<PapTest>>, facilityId: Option<int>, f: ResultFilter)
    requires rows != []
    ensures Count(rows, facilityId, f)
      == Count(rows[..|rows| - 1], facilityId, f) + (if InScope(rows[|rows| - 1].data, facilityId, f) then 1 else 0)
  {
  }

  /** The matching positions of `rows` are those of all rows but the last,
      plus the last position when its row matches. */
  lemma MatchesSnoc(rows: seq<Row<PapTest>>, facilityId: Option<int>, f: ResultFilter)
    requires rows != []
    ensures Matches(rows, facilityId, f)
      == Matches(rows[..|rows| - 1], facilityId, f)
         + (if InScope(rows[|rows| - 1].data, facilityId, f) then {|rows| - 1} else {})
  {
    var n := |rows| - 1;
    var init := rows[..n];
    forall i | 0 <= i < n
      ensures init[i] == rows[i]
    {
    }
  }

  /** `COUNT(*)` is the number of stored rows the `WHERE` clause holds of. */
  lemma {:induction false} CountMatches(rows: seq<Row<PapTest>>, facilityId: Option<int>, f: ResultFilter)
    ensures Count(rows, facilityId, f) == |Matches(rows, facilityId, f)|
    decreases |rows|
  {
    if rows == [] {
      assert Matches(rows, facilityId, f) == {};
    } else {
      var n := |rows| - 1;
      var init := rows[..n];
      CountMatches(init, facilityId, f);
      MatchesSnoc(rows, facilityId, f);
      var prev := Matches(init, facilityId, f);
      assert n !in prev;
      CountSnoc(rows, facilityId, f);
    }
  }

  /** `SELECT COUNT(*) FROM pruebas_pap WHERE …`. */
  function Count(rows: seq<Row<PapTest>>, facilityId: Option<int>, f: ResultFilter): nat {
    |Select(rows, facilityId, f)|
  }

  /** The four numbers of the side panel. */
  datatype Statistics = Statistics(total: nat, positives: nat, negatives: nat, noResult: nat)

  /** A result the statistics recognise: "positivo", "negativo" or NULL. */
  predicate Classified(result: Option<string>) {
    result == Some("positivo") || result == Some("negativo") || result.None?
  }

  /** Every test of the facility has a result the statistics recognise. */
  ghost predicate AllClassified(rows: seq<Row<PapTest>>, facilityId: Option<int>) {
    forall i :: 0 <= i < |rows| && SqlEq(rows[i].data.facilityId, facilityId) ==> Classified(rows[i].data.result)
  }

  /** The three result counts never exceed the total, and they add up to
      it exactly when every test of the facility has a recognised result. */
  lemma {:induction false} CountPartition(rows: seq<Row<PapTest>>, facilityId: Option<int>)
    ensures Count(rows, facilityId, ResultIs("positivo")) + Count(rows, facilityId, ResultIs("negativo"))
      + Count(rows, facilityId, ResultIsNull) <= Count(rows, facilityId, AnyResult)
    ensures Count(rows, facilityId, ResultIs("positivo")) + Count(rows, facilityId, ResultIs("negativo"))
      + Count(rows, facilityId, ResultIsNull) == Count(rows, facilityId, AnyResult)
      <==> AllClassified(rows, facilityId)
    decreases |rows|
  {
    if rows != [] {
      var init := rows[..|rows| - 1];
      CountPartition(init, facilityId);
      AllClassifiedSnoc(rows, facilityId);
      CountSnoc(rows, facilityId, AnyResult);
      CountSnoc(rows, facilityId, ResultIs("positivo"));
      CountSnoc(rows, facilityId, ResultIs("negativo"));
      CountSnoc(rows, facilityId, ResultIsNull);
    }
  }

  /** A facility's tests are all classified exactly when those before the
      last are and the last one, if it belongs to the facility, is. */
  lemma AllClassifiedSnoc(rows: seq<Row<PapTest>>, facilityId: Option<int>)
    requires rows != []
    ensures AllClassified(rows, facilityId) <==>
      && AllClassified(rows[..|rows| - 1], facilityId)
      && (SqlEq(rows[|rows| - 1].data.facilityId, facilityId) ==> Classified(rows[|rows| - 1].data.result))
  {
    assert forall i :: 0 <= i < |rows| - 1 ==> rows[..|rows| - 1][i] == rows[i];
  }

  /** A facility without tests selects nothing. */
  lemma SelectNone(rows: seq<Row<PapTest>>, facilityId: Option<int>, f: ResultFilter)
    ensures (forall i :: 0 <= i < |rows| ==> !SqlEq(rows[i].data.facilityId, facilityId))
      ==> Select(rows, facilityId, f) == []
  {
    var r := Select(rows, facilityId, f);
    if r != [] {
      assert r[0] in rows;
    }
  }

  /** The four counts of `obtener_estadisticas`. */
  function GetStatistics(tests: Table<PapTest>, facilityId: Option<int>): (s: Statistics)
    ensures s.positives <= s.total && s.negatives <= s.total && s.noResult <= s.total
    ensures s.positives + s.negatives + s.noResult <= s.total
    ensures s.positives + s.negatives + s.noResult == s.total <==> AllClassified(tests.rows, facilityId)
    ensures (forall i :: 0 <= i < |tests.rows| ==> !SqlEq(tests.rows[i].data.facilityId, facilityId))
      ==> s == Statistics(0, 0, 0, 0)
  {
    CountPartition(tests.rows, facilityId);
    SelectNone(tests.rows, facilityId, AnyResult);
    SelectNone(tests.rows, facilityId, ResultIs("positivo"));
    SelectNone(tests.rows, facilityId, ResultIs("negativo"));
    SelectNone(tests.rows, facilityId, ResultIsNull);
    Statistics(
      Count(tests.rows, facilityId, AnyResult),
      Count(tests.rows, facilityId, ResultIs("positivo")),
      Count(tests.rows, facilityId, ResultIs("negativo")),
      Count(tests.rows, facilityId, ResultIsNull))
  }
  /** Each of the four numbers counts the facility's stored tests: all of
      them, those with result "positivo", those with "negativo", and those
      with a NULL result. */
  lemma StatisticsCountRows(tests: Table<PapTest>, facilityId: Option<int>)
    ensures var s := GetStatistics(tests, facilityId);
      && s.total == |Matches(tests.rows, facilityId, AnyResult)|
      && s.positives == |Matches(tests.rows, facilityId, ResultIs("positivo"))|
      && s.negatives == |Matches(tests.rows, facilityId, ResultIs("negativo"))|
      && s.noResult == |Matches(tests.rows, facilityId, ResultIsNull)|
  {
    CountMatches(tests.rows, facilityId, AnyResult);
    CountMatches(tests.rows, facilityId, ResultIs("positivo"));
    CountMatches(tests.rows, facilityId, ResultIs("negativo"));
    CountMatches(tests.rows, facilityId, ResultIsNull);
  }


  // ---------------------------------------------------------------------
  // Listings

  /** The clinician's table: the tests whose facility equals the session's
      facility, and all of them. */
  function FacilityListing(tests: Table<PapTest>, facilityId: Option<int>): (r: seq<Row<PapTest>>)
    ensures forall k :: 0 <= k < |r| ==> r[k] in tests.rows && SqlEq(r[k].data.facilityId, facilityId)
    ensures forall i :: 0 <= i < |tests.rows| && SqlEq(tests.rows[i].data.facilityId, facilityId) ==>
      tests.rows[i] in r
  {
    Select(tests.rows, facilityId, AnyResult)
  }

  /** A row of the supervisor's table: the facility name next to the test. */
  datatype JoinedTest = JoinedTest(facilityName: string, test: Row<PapTest>)

  /** `x` pairs its test with a facility whose id equals the test's
      facility id, under that facility's name. */
  ghost predicate JoinedWith(fac: seq<Row<Facility>>, x: JoinedTest) {
    exists j :: 0 <= j < |fac| && SqlEq(x.test.data.facilityId, Some(fac[j].id)) && x.facilityName == fac[j].data.name
  }

  /** The join rows one test produces: one per facility whose id equals the
      test's facility id. */
  function JoinTest(t: Row<PapTest>, fac: seq<Row<Facility>>): (r: seq<JoinedTest>)
    ensures forall k :: 0 <= k < |r| ==> r[k].test == t && JoinedWith(fac, r[k])
    ensures forall j :: 0 <= j < |fac| && SqlEq(t.data.facilityId, Some(fac[j].id)) ==>
      JoinedTest(fac[j].data.name, t) in r
    decreases |fac|
  {
    if fac == [] then []
    else
      var init := fac[..|fac| - 1];
      var last := fac[|fac| - 1];
      var front := JoinTest(t, init);
      var r := front + (if SqlEq(t.data.facilityId, Some(last.id)) then [JoinedTest(last.data.name, t)] else []);
      assert forall j :: 0 <= j < |init| ==> init[j] == fac[j];
      assert forall k :: 0 <= k < |front| ==> r[k] == front[k];
      assert |r| > |front| ==> r[|front|] == JoinedTest(fac[|fac| - 1].data.name, t) && JoinedWith(fac, r[|front|]);
      assert forall k :: 0 <= k < |front| ==> JoinedWith(init, front[k]) ==> JoinedWith(fac, front[k]);
      r
  }

  /** The supervisor's table: the inner join of `pruebas_pap` with
      `establecimientos` on the facility id, tests in storage order. */
  function GlobalListing(tests: seq<Row<PapTest>>, fac: seq<Row<Facility>>): (r: seq<JoinedTest>)
    ensures forall k :: 0 <= k < |r| ==> r[k].test in tests && JoinedWith(fac, r[k])
    ensures forall i, j :: 0 <= i < |tests| && 0 <= j < |fac| && SqlEq(tests[i].data.facilityId, Some(fac[j].id)) ==>
      JoinedTest(fac[j].data.name, tests[i]) in r
    decreases |tests|
  {
    if tests == [] then []
    else
      var init := tests[..|tests| - 1];
      var last := tests[|tests| - 1];
      var front := GlobalListing(init, fac);
      var back := JoinTest(last, fac);
      var r := front + back;
      assert forall i :: 0 <= i < |init| ==> init[i] == tests[i];
      assert forall k :: 0 <= k < |front| ==> r[k] == front[k];
      assert forall k :: |front| <= k < |r| ==> r[k] == back[k - |front|];
      r
  }

  /** With unique facility ids a test joins with at most one facility. */
  lemma {:induction false} JoinTestAtMostOne(t: Row<PapTest>, fac: Table<Facility>)
    requires fac.Valid()
    ensures |JoinTest(t, fac.rows)| <= 1
    ensures |JoinTest(t, fac.rows)| == 1 <==> exists j :: 0 <= j < |fac.rows| && SqlEq(t.data.facilityId, Some(fac.rows[j].id))
    decreases |fac.rows|
  {
    if fac.rows != [] {
      var init := Table(fac.rows[..|fac.rows| - 1], fac.nextId);
      assert forall j :: 0 <= j < |init.rows| ==> init.rows[j] == fac.rows[j];
      JoinTestAtMostOne(t, init);
    }
  }

  /** Under unique facility ids, the global listing has one row per test
      whose facility exists: it drops exactly the tests with a NULL or
      dangling facility id and duplicates nothing. */
  lemma {:induction false} GlobalListingSize(tests: seq<Row<PapTest>>, fac: Table<Facility>)
    requires fac.Valid()
    ensures |GlobalListing(tests, fac.rows)| == |JoinedTests(tests, fac.rows)|
    decreases |tests|
  {
    if tests != [] {
      GlobalListingSize(tests[..|tests| - 1], fac);
      JoinTestAtMostOne(tests[|tests| - 1], fac);
    }
  }

  /** The tests whose facility id matches some stored facility. */
  ghost function JoinedTests(tests: seq<Row<PapTest>>, fac: seq<Row<Facility>>): seq<Row<PapTest>>
    decreases |tests|
  {
    if tests == [] then []
    else
      var last := tests[|tests| - 1];
      JoinedTests(tests[..|tests| - 1], fac)
        + (if exists j :: 0 <= j < |fac| && SqlEq(last.data.facilityId, Some(fac[j].id)) then [last] else [])
  }
}
