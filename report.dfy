/**
 * Reports: a status-change intent built with fluent setters, and its
 * application to the collection of access points (access-point-api/src/report.rs).
 */
module Reports {
  import opened Wrappers
  import opened Ap

  /** A target point, an optional description and the status to set. */
  datatype Report = Report(point: APID, description: Option<string>, statusChange: AccessPointStatus)

  /** `Report::new`: a report on `point` with no description and the default status. */
  function New(point: APID): (r: Report)
    ensures r.point == point && r.description == None && r.statusChange == NotWorking
  {
    Report(point, None, DefaultStatus())
  }

  /** `with_description`: set the description; point and status are kept. */
  function WithDescription(r: Report, description: string): (r': Report)
    ensures r'.description == Some(description)
    ensures r'.point == r.point && r'.statusChange == r.statusChange
  {
    r.(description := Some(description))
  }

  /** `with_status`: set the status change; point and description are kept. */
  function WithStatus(r: Report, status: AccessPointStatus): (r': Report)
    ensures r'.statusChange == status
    ensures r'.point == r.point && r'.description == r.description
  {
    r.(statusChange := status)
  }

  /** The two setters touch different fields, so their order does not matter. */
  lemma SettersCommute(r: Report, d: string, s: AccessPointStatus)
    ensures WithStatus(WithDescription(r, d), s) == WithDescription(WithStatus(r, s), d)
  {
  }

  /** A later setter of the same field overrides an earlier one. */
  lemma LastSetterWins(r: Report, d1: string, d2: string, s1: AccessPointStatus, s2: AccessPointStatus)
    ensures WithDescription(WithDescription(r, d1), d2) == WithDescription(r, d2)
    ensures WithStatus(WithStatus(r, s1), s2) == WithStatus(r, s2)
  {
  }

  /**
   * The records after applying a report: the target point, when present, takes
   * the report's status and keeps its kind and location; every other entry and
   * the key set are unchanged.
   */
  function Fulfilled(records: map<APID, PointRecord>, r: Report): (after: map<APID, PointRecord>)
    ensures after.Keys == records.Keys
    ensures forall id :: id in records && id != r.point ==> after[id] == records[id]
    ensures r.point in records ==>
      after[r.point].status == r.statusChange &&
      after[r.point].kind == records[r.point].kind &&
      after[r.point].location == records[r.point].location
    ensures r.point !in records ==> after == records
  {
    if r.point in records then records[r.point := records[r.point].(status := r.statusChange)] else records
  }

  /** Applying the same report twice gives the records of applying it once. */
  lemma FulfilledIdempotent(records: map<APID, PointRecord>, r: Report)
    ensures Fulfilled(Fulfilled(records, r), r) == Fulfilled(records, r)
  {
  }

  /** `fulfill`: `Err` when the point is absent (nothing changes); otherwise set its status and `Ok`. */
  method Fulfill(report: Report, group: AccessPoints) returns (res: Outcome)
    requires group.Valid()
    modifies group.points.Values
    ensures group.Valid()
    ensures res == Ok <==> report.point in group.points
    ensures group.Records() == Fulfilled(old(group.Records()), report)
  {
    if report.point !in group.points {
      return Err;
    }
    var p := group.points[report.point];
    p.SetStatus(report.statusChange);
    res := Ok;
    forall id | id in group.points && id != report.point
      ensures group.points[id].Record() == old(group.points[id].Record())
    {
      assert group.points[id] != p;
    }
  }

  /** Scenario: report an issue on a stored point, then on a missing one. */
  method ReportScenario(location: Geocoding)
  {
    var group := new AccessPoints();
    var point := new AccessPoint(Wheelchair, location, Working);
    group.points := map[0 := point];
    assert group.Valid() && 0 in group.points;
    var res := Fulfill(WithDescription(New(0), "lift stuck"), group);
    assert res == Ok;
    var after := group.Records();
    assert after == map[0 := PointRecord(Wheelchair, location, NotWorking)];
    res := Fulfill(New(7), group);
    assert res == Err && group.Records() == after;
  }
}
