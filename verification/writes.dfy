/**
 The two statements that change `pruebas_pap`: the clinician's register
 `INSERT` and the supervisor's `UPDATE … WHERE id = ?`.
 */
module Writes {
  import opened Tables
  import opened Schema
  import opened Queries

  // ---------------------------------------------------------------------
  // Register

  /** The register `INSERT`: the five given columns, `estado` from its
      column default ("pendiente"), `resultado` NULL. */
  function RegisterTest(tests: Table<PapTest>, patientName: string, age: int, sampleDate: Date,
                        deliveryDate: Date, facilityId: Option<int>): (r: Table<PapTest>)
    ensures |r.rows| == |tests.rows| + 1 && r.rows[..|tests.rows|] == tests.rows
    ensures r.rows[|tests.rows|].data.patientName == patientName && r.rows[|tests.rows|].data.age == age
    ensures r.rows[|tests.rows|].data.sampleDate == sampleDate && r.rows[|tests.rows|].data.deliveryDate == deliveryDate
    ensures r.rows[|tests.rows|].data.facilityId == facilityId
    ensures r.rows[|tests.rows|].data.status == Pending && r.rows[|tests.rows|].data.result.None?
    ensures r.rows[|tests.rows|].data.status.Text() == "pendiente"
    ensures tests.Valid() ==> r.Valid() && !tests.HasId(r.rows[|tests.rows|].id)
  {
    tests.Insert(PapTest(patientName, age, sampleDate, deliveryDate, facilityId, Pending, None))
  }

  /** Appending one row extends every selection by that row when it is in
      scope, and leaves it alone otherwise. */
  lemma SelectAppend(rows: seq<Row<PapTest>>, x: Row<PapTest>, facilityId: Option<int>, f: ResultFilter)
    ensures Select(rows + [x], facilityId, f)
      == Select(rows, facilityId, f) + (if InScope(x.data, facilityId, f) then [x] else [])
  {
    assert (rows + [x])[..|rows|] == rows;
  }

  /** Registering a test raises its facility's total and "without result"
      counts by one and leaves its positives and negatives as they were;
      every other facility's statistics are unchanged. */
  lemma RegisterStatistics(tests: Table<PapTest>, patientName: string, age: int, sampleDate: Date,
                           deliveryDate: Date, facilityId: Option<int>, other: Option<int>)
    ensures var before := GetStatistics(tests, other);
      var after := GetStatistics(RegisterTest(tests, patientName, age, sampleDate, deliveryDate, facilityId), other);
      if SqlEq(facilityId, other) then
        after == Statistics(before.total + 1, before.positives, before.negatives, before.noResult + 1)
      else
        after == before
  {
    var r := RegisterTest(tests, patientName, age, sampleDate, deliveryDate, facilityId);
    var x := r.rows[|tests.rows|];
    assert r.rows == tests.rows + [x];
    SelectAppend(tests.rows, x, other, AnyResult);
    SelectAppend(tests.rows, x, other, ResultIs("positivo"));
    SelectAppend(tests.rows, x, other, ResultIs("negativo"));
    SelectAppend(tests.rows, x, other, ResultIsNull);
  }

  /** After registering for a facility, that facility's listing is the old
      listing followed by exactly the new row. */
  lemma RegisterListing(tests: Table<PapTest>, patientName: string, age: int, sampleDate: Date,
                        deliveryDate: Date, facilityId: Option<int>)
    requires facilityId.Some?
    ensures var r := RegisterTest(tests, patientName, age, sampleDate, deliveryDate, facilityId);
      FacilityListing(r, facilityId) == FacilityListing(tests, facilityId) + [r.rows[|tests.rows|]]
  {
    var r := RegisterTest(tests, patientName, age, sampleDate, deliveryDate, facilityId);
    assert r.rows == tests.rows + [r.rows[|tests.rows|]];
    SelectAppend(tests.rows, r.rows[|tests.rows|], facilityId, AnyResult);
  }

  // ---------------------------------------------------------------------
  // Update

  /** The `SET estado = ?, resultado = ?` applied to one row when its id
      matches; the text input always yields a string, so the result is
      never set to NULL. */
  function SetOutcome(row: Row<PapTest>, testId: int, status: Status, result: string): Row<PapTest> {
    if row.id == testId then Row(row.id, row.data.(status := status, result := Some(result))) else row
  }

  function UpdateRows(rows: seq<Row<PapTest>>, testId: int, status: Status, result: string): (r: seq<Row<PapTest>>)
    ensures |r| == |rows|
    ensures forall i :: 0 <= i < |rows| ==> r[i] == SetOutcome(rows[i], testId, status, result)
    decreases |rows|
  {
    if rows == [] then []
    else
      var init := rows[..|rows| - 1];
      UpdateRows(init, testId, status, result) + [SetOutcome(rows[|rows| - 1], testId, status, result)]
  }

  /** The supervisor's `UPDATE pruebas_pap SET estado = ?, resultado = ?
      WHERE id = ?`. Only the two columns of the row with that id change;
      every other column and every other row stays; an unknown id changes
      nothing and is not an error. */
  function UpdateTest(tests: Table<PapTest>, testId: int, status: Status, result: string): (r: Table<PapTest>)
    ensures |r.rows| == |tests.rows| && r.nextId == tests.nextId
    ensures forall i :: 0 <= i < |tests.rows| && tests.rows[i].id != testId ==> r.rows[i] == tests.rows[i]
    ensures forall i :: 0 <= i < |tests.rows| && tests.rows[i].id == testId ==>
      && r.rows[i].id == testId
      && r.rows[i].data.status == status
      && r.rows[i].data.result == Some(result)
      && r.rows[i].data.patientName == tests.rows[i].data.patientName
      && r.rows[i].data.age == tests.rows[i].data.age
      && r.rows[i].data.sampleDate == tests.rows[i].data.sampleDate
      && r.rows[i].data.deliveryDate == tests.rows[i].data.deliveryDate
      && r.rows[i].data.facilityId == tests.rows[i].data.facilityId
    ensures !tests.HasId(testId) ==> r == tests
    ensures tests.Valid() ==> r.Valid()
  {
    var rows := UpdateRows(tests.rows, testId, status, result);
    assert !tests.HasId(testId) ==> rows == tests.rows;
    Table(rows, tests.nextId)
  }

  /** In a valid table an update touches exactly one row when the id
      exists: reading that row back shows the new status and result with
      the original other columns, and every other row is as before. */
  lemma UpdateReadBack(tests: Table<PapTest>, testId: int, status: Status, result: string, i: int)
    requires tests.Valid()
    requires 0 <= i < |tests.rows| && tests.rows[i].id == testId
    ensures var r := UpdateTest(tests, testId, status, result);
      && r.rows[i] == Row(testId, tests.rows[i].data.(status := status, result := Some(result)))
      && forall j :: 0 <= j < |tests.rows| && j != i ==> r.rows[j] == tests.rows[j]
  {
    forall j | 0 <= j < |tests.rows| && j != i
      ensures tests.rows[j].id != testId
    {
      if tests.rows[j].id == testId {
        IdsUnique(tests, i, j);
      }
    }
  }

  /** An update never changes which tests a facility has, so every total
      stays the same, and it can only lower the count of tests without a
      result. */
  lemma {:induction false} UpdateRowsCounts(rows: seq<Row<PapTest>>, testId: int, status: Status, result: string,
                                            facilityId: Option<int>)
    ensures Count(UpdateRows(rows, testId, status, result), facilityId, AnyResult) == Count(rows, facilityId, AnyResult)
    ensures Count(UpdateRows(rows, testId, status, result), facilityId, ResultIsNull) <= Count(rows, facilityId, ResultIsNull)
    decreases |rows|
  {
    if rows != [] {
      var init := rows[..|rows| - 1];
      var last := rows[|rows| - 1];
      var u := UpdateRows(rows, testId, status, result);
      UpdateRowsCounts(init, testId, status, result, facilityId);
      assert rows == init + [last];
      assert u == UpdateRows(init, testId, status, result) + [SetOutcome(last, testId, status, result)];
      SelectAppend(init, last, facilityId, AnyResult);
      SelectAppend(init, last, facilityId, ResultIsNull);
      SelectAppend(UpdateRows(init, testId, status, result), SetOutcome(last, testId, status, result), facilityId, AnyResult);
      SelectAppend(UpdateRows(init, testId, status, result), SetOutcome(last, testId, status, result), facilityId, ResultIsNull);
    }
  }

  lemma UpdateStatistics(tests: Table<PapTest>, testId: int, status: Status, result: string, facilityId: Option<int>)
    ensures var before := GetStatistics(tests, facilityId);
      var after := GetStatistics(UpdateTest(tests, testId, status, result), facilityId);
      after.total == before.total && after.noResult <= before.noResult
  {
    UpdateRowsCounts(tests.rows, testId, status, result, facilityId);
  }

  /** After an update the updated test no longer counts as "without result". */
  lemma UpdatedTestHasResult(tests: Table<PapTest>, testId: int, status: Status, result: string, facilityId: Option<int>)
    ensures forall x :: x in Select(UpdateTest(tests, testId, status, result).rows, facilityId, ResultIsNull) ==>
      x.id != testId
  {
    var r := UpdateTest(tests, testId, status, result);
    forall x | x in Select(r.rows, facilityId, ResultIsNull)
      ensures x.id != testId
    {
      var i :| 0 <= i < |r.rows| && r.rows[i] == x;
    }
  }
}
