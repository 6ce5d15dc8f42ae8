/**
 * The report table and the report repository. A reporter can hold at most one
 * report per item (the unique constraint on reporter, type and id); the type
 * and status columns carry check constraints, so only their literals are
 * ever stored.
 */
module Reports {
  import opened Wrappers
  import opened Ordering
  import opened ReportSchemas

  datatype Report = Report(
    id: int,
    reporterId: Option<int>,      // NULL once the reporter's account is gone
    reportableType: ReportableType,
    reportableId: int,
    reason: ReportReason,
    details: Option<string>,
    status: ReportStatus,
    resolvedBy: Option<int>,
    moderatorNote: Option<string>,
    resolvedAt: Option<int>,
    createdAt: int)

  function ReportId(r: Report): int { r.id }

  predicate IsPending(r: Report) { r.status == Pending }

  /** The WHERE clause of check_duplicate: reporter, type (as its literal) and id all equal. */
  predicate SameItem(r: Report, reporterId: int, reportableType: string, reportableId: int) {
    r.reporterId == Some(reporterId) && TypeName(r.reportableType) == reportableType && r.reportableId == reportableId
  }

  /** ORDER BY created_at DESC. */
  predicate NewestFirst(a: Report, b: Report) { a.createdAt >= b.createdAt }

  /** The UPDATE of resolve_report: status, resolver, note and time are overwritten, nothing else. */
  function Resolve(r: Report, status: ReportStatus, resolverId: int, note: Option<string>, now: int): Report {
    r.(status := status, resolvedBy := Some(resolverId), moderatorNote := note, resolvedAt := Some(now))
  }

  function Updated(rs: seq<Report>, id: int, status: ReportStatus, resolverId: int, note: Option<string>, now: int): (r: seq<Report>)
    ensures |r| == |rs|
    ensures forall i :: 0 <= i < |rs| ==>
      r[i] == (if rs[i].id == id then Resolve(rs[i], status, resolverId, note, now) else rs[i])
  {
    seq(|rs|, i requires 0 <= i < |rs| =>
      if rs[i].id == id then Resolve(rs[i], status, resolverId, note, now) else rs[i])
  }

  function FindReport(rs: seq<Report>, id: int): (r: Option<Report>)
    ensures r.Some? ==> r.value in rs && r.value.id == id
    ensures r.None? <==> forall x :: x in rs ==> x.id != id
  {
    if rs == [] then None
    else if rs[0].id == id then Some(rs[0])
    else
      assert forall x :: x in rs && x != rs[0] ==> x in rs[1..];
      FindReport(rs[1..], id)
  }

  /** The first row satisfying `p`, in table order. */
  function First(rs: seq<Report>, p: Report -> bool): (r: Option<Report>)
    ensures r.Some? ==> r.value in rs && p(r.value)
    ensures r.None? <==> forall x :: x in rs ==> !p(x)
  {
    if rs == [] then None
    else if p(rs[0]) then Some(rs[0])
    else
      assert forall x :: x in rs && x != rs[0] ==> x in rs[1..];
      First(rs[1..], p)
  }

  /** The unique constraint: rows with a reporter differ in reporter, type or id (NULLs never collide). */
  ghost predicate UniqueItems(rs: seq<Report>) {
    forall i, j :: 0 <= i < j < |rs| && rs[i].reporterId.Some? ==>
      !SameItem(rs[j], rs[i].reporterId.value, TypeName(rs[i].reportableType), rs[i].reportableId)
  }

  lemma TypeNameInjective(a: ReportableType, b: ReportableType)
    ensures TypeName(a) == TypeName(b) ==> a == b
  {
    assert "post" != "comment";
  }

  /** Under the unique constraint, two rows matching the same item are the same row. */
  lemma SameItemUnique(rs: seq<Report>, x: Report, y: Report, reporterId: int, reportableType: string, reportableId: int)
    requires UniqueItems(rs)
    requires x in rs && y in rs
    requires SameItem(x, reporterId, reportableType, reportableId) && SameItem(y, reporterId, reportableType, reportableId)
    ensures x == y
  {
    var i :| 0 <= i < |rs| && rs[i] == x;
    var j :| 0 <= j < |rs| && rs[j] == y;
    TypeNameInjective(x.reportableType, y.reportableType);
  }

  /** A resolve keeps the ids, rewrites the row with that id and no other. */
  lemma {:induction false} UpdatedFind(rs: seq<Report>, id: int, status: ReportStatus, resolverId: int, note: Option<string>, now: int, q: int)
    ensures FindReport(Updated(rs, id, status, resolverId, note, now), q) ==
      (if q == id && FindReport(rs, q).Some? then Some(Resolve(FindReport(rs, q).value, status, resolverId, note, now))
       else FindReport(rs, q))
  {
    if rs != [] {
      assert Updated(rs, id, status, resolverId, note, now)[1..] == Updated(rs[1..], id, status, resolverId, note, now);
      UpdatedFind(rs[1..], id, status, resolverId, note, now, q);
    }
  }

  /** A resolve leaves the reporter, type and id of every row as they were. */
  lemma UpdatedItems(rs: seq<Report>, id: int, status: ReportStatus, resolverId: int, note: Option<string>, now: int)
    requires UniqueItems(rs) && KeysDistinct(rs, ReportId)
    ensures UniqueItems(Updated(rs, id, status, resolverId, note, now))
    ensures KeysDistinct(Updated(rs, id, status, resolverId, note, now), ReportId)
  {
    var u := Updated(rs, id, status, resolverId, note, now);
    forall i, j | 0 <= i < j < |u| ensures ReportId(u[i]) != ReportId(u[j]) {
      assert ReportId(rs[i]) != ReportId(rs[j]);
    }
    forall i, j | 0 <= i < j < |u| && u[i].reporterId.Some?
      ensures !SameItem(u[j], u[i].reporterId.value, TypeName(u[i].reportableType), u[i].reportableId)
    {
      assert !SameItem(rs[j], rs[i].reporterId.value, TypeName(rs[i].reportableType), rs[i].reportableId);
    }
  }

  /** The rows a query selects, in its ORDER BY created_at DESC order, before OFFSET/LIMIT. */
  function Selected(rs: seq<Report>, keep: Report -> bool): (r: seq<Report>)
    ensures forall x :: x in r <==> x in rs && keep(x)
    ensures SortedBy(r, NewestFirst)
    ensures |r| <= |rs|
  {
    var kept := Filter(rs, keep);
    SortBySorted(kept, NewestFirst);
    SortByMembers(kept, NewestFirst);
    SortBy(kept, NewestFirst)
  }

  /** Filter, ORDER BY created_at DESC, then OFFSET/LIMIT. */
  function Query(rs: seq<Report>, keep: Report -> bool, skip: nat, limit: nat): (r: seq<Report>)
    ensures r == Page(Selected(rs, keep), skip, limit)
    ensures forall x :: x in r ==> x in rs && keep(x)
    ensures SortedBy(r, NewestFirst)
    ensures |r| <= limit
    ensures skip == 0 && |rs| <= limit ==> forall x :: x in rs && keep(x) ==> x in r
  {
    var ordered := Selected(rs, keep);
    PageSorted(ordered, skip, limit, NewestFirst);
    PageMembers(ordered, skip, limit);
    assert skip == 0 && |ordered| <= limit ==> Page(ordered, skip, limit) == ordered;
    Page(ordered, skip, limit)
  }

  /** The WHERE clauses of the paginated queries, as named predicates. */
  function WithStatus(status: string): Report -> bool {
    (x: Report) => StatusName(x.status) == status
  }

  function OnItem(reportableType: string, reportableId: int): Report -> bool {
    (x: Report) => TypeName(x.reportableType) == reportableType && x.reportableId == reportableId
  }

  function ByReporter(reporterId: int): Report -> bool {
    (x: Report) => x.reporterId == Some(reporterId)
  }

  class ReportRepo {
    var reports: seq<Report>
    var nextId: int

    ghost predicate Valid()
      reads this
    {
      && KeysDistinct(reports, ReportId)
      && UniqueItems(reports)
      && forall x :: x in reports ==> x.id < nextId
    }

    constructor ()
      ensures Valid() && reports == []
    {
      reports, nextId := [], 1;
    }

    /** get_by_id. */
    function Get(id: int): (r: Option<Report>)
      reads this
      ensures r.Some? <==> exists x :: x in reports && x.id == id
      ensures r.Some? ==> r.value in reports && r.value.id == id
    {
      FindReport(reports, id)
    }

    /** check_duplicate: that reporter's report on that item, if any; the unique constraint makes it the only one. */
    function CheckDuplicate(reporterId: int, reportableType: string, reportableId: int): (r: Option<Report>)
      reads this
      requires Valid()
      ensures r.None? <==> forall x :: x in reports ==> !SameItem(x, reporterId, reportableType, reportableId)
      ensures r.Some? ==> r.value in reports && SameItem(r.value, reporterId, reportableType, reportableId)
      ensures r.Some? ==> forall x :: x in reports && SameItem(x, reporterId, reportableType, reportableId) ==> x == r.value
    {
      var r := First(reports, (x: Report) => SameItem(x, reporterId, reportableType, reportableId));
      if r.Some? then
        ForallSameItemUnique(reports, r.value, reporterId, reportableType, reportableId);
        r
      else r
    }

    /** check_duplicate_within_timeframe: as check_duplicate, but only a report created at or after `since`. */
    function CheckDuplicateWithinTimeframe(reporterId: int, reportableType: string, reportableId: int, since: int): (r: Option<Report>)
      reads this
      requires Valid()
      ensures r.None? <==> forall x :: x in reports && SameItem(x, reporterId, reportableType, reportableId) ==> x.createdAt < since
      ensures r.Some? ==> r.value in reports && SameItem(r.value, reporterId, reportableType, reportableId) && r.value.createdAt >= since
    {
      First(reports, (x: Report) => SameItem(x, reporterId, reportableType, reportableId) && x.createdAt >= since)
    }

    /** get_by_status: the reports whose status column equals the string, newest first, paginated. */
    function GetByStatus(status: string, skip: nat, limit: nat): (r: seq<Report>)
      reads this
      ensures forall x :: x in r ==> x in reports && StatusName(x.status) == status
      ensures SortedBy(r, NewestFirst)
      ensures |r| <= limit
      ensures skip == 0 && |reports| <= limit ==>
        forall x :: x in reports && StatusName(x.status) == status ==> x in r
      ensures ParseStatus(status).None? ==> r == []
      ensures r == Page(Selected(reports, WithStatus(status)), skip, limit)
    {
      UnknownStatusMatchesNothing(reports, status);
      Query(reports, WithStatus(status), skip, limit)
    }

    /** get_pending: get_by_status with "pending". */
    function GetPending(skip: nat, limit: nat): (r: seq<Report>)
      reads this
      ensures forall x :: x in r ==> x in reports && x.status == Pending
      ensures SortedBy(r, NewestFirst)
      ensures |r| <= limit
      ensures skip == 0 && |reports| <= limit ==> forall x :: x in reports && x.status == Pending ==> x in r
      ensures r == Page(Selected(reports, WithStatus("pending")), skip, limit)
    {
      PendingName();
      GetByStatus("pending", skip, limit)
    }

    /** get_for_item: every report on that item, newest first, not paginated. */
    function GetForItem(reportableType: string, reportableId: int): (r: seq<Report>)
      reads this
      ensures forall x :: x in r <==> x in reports && TypeName(x.reportableType) == reportableType && x.reportableId == reportableId
      ensures SortedBy(r, NewestFirst)
      ensures r == Selected(reports, OnItem(reportableType, reportableId))
    {
      Query(reports, OnItem(reportableType, reportableId), 0, |reports|)
    }

    /** get_by_reporter: that reporter's reports, newest first, paginated. */
    function GetByReporter(reporterId: int, skip: nat, limit: nat): (r: seq<Report>)
      reads this
      ensures forall x :: x in r ==> x in reports && x.reporterId == Some(reporterId)
      ensures SortedBy(r, NewestFirst)
      ensures |r| <= limit
      ensures skip == 0 && |reports| <= limit ==> forall x :: x in reports && x.reporterId == Some(reporterId) ==> x in r
      ensures r == Page(Selected(reports, ByReporter(reporterId)), skip, limit)
    {
      Query(reports, ByReporter(reporterId), skip, limit)
    }

    /** count_pending: the number of distinct report ids whose status is pending. */
    function CountPending(): (n: nat)
      reads this
      requires Valid()
      ensures n == |set x | x in reports && IsPending(x) :: ReportId(x)|
    {
      PendingCount(reports);
      |Filter(reports, IsPending)|
    }

    /**
     * resolve_report: an UPDATE of the row with that id. No row: None and
     * nothing changes. A status outside the literals is refused by the check
     * constraint. Otherwise the row's status, resolver, note and time are
     * overwritten, whatever its status was.
     */
    method ResolveReport(reportId: int, resolverId: int, status: string, note: Option<string>, now: int)
      returns (r: Result<Option<Report>>)
      requires Valid()
      modifies this`reports
      ensures Valid()
      ensures old(Get(reportId)).None? ==> r == Ok(None) && reports == old(reports)
      ensures old(Get(reportId)).Some? && ParseStatus(status).None? ==> r == Err(IntegrityError) && reports == old(reports)
      ensures old(Get(reportId)).Some? && ParseStatus(status).Some? ==>
        && r == Ok(Some(Resolve(old(Get(reportId)).value, ParseStatus(status).value, resolverId, note, now)))
        && reports == Updated(old(reports), reportId, ParseStatus(status).value, resolverId, note, now)
        && Get(reportId) == r.value
        && forall q :: q != reportId ==> Get(q) == old(Get(q))
    {
      var found := FindReport(reports, reportId);
      if found.None? {
        return Ok(None);
      }
      var parsed := ParseStatus(status);
      if parsed.None? {
        return Err(IntegrityError);
      }
      var before := reports;
      reports := Updated(reports, reportId, parsed.value, resolverId, note, now);
      UpdatedItems(before, reportId, parsed.value, resolverId, note, now);
      UpdatedFind(before, reportId, parsed.value, resolverId, note, now, reportId);
      forall q | q != reportId ensures FindReport(reports, q) == FindReport(before, q) {
        UpdatedFind(before, reportId, parsed.value, resolverId, note, now, q);
      }
      r := Ok(Some(Resolve(found.value, parsed.value, resolverId, note, now)));
      forall x | x in reports ensures x.id < nextId {
        var i :| 0 <= i < |reports| && reports[i] == x;
        assert before[i].id == x.id;
      }
    }

    /**
     * create_one for a validated ReportCreate with its reporter: a pending,
     * unresolved report with the next id. The unique constraint refuses a
     * second report by the same reporter on the same item, however old the
     * first one is.
     */
    method CreateOne(reporterId: int, data: ReportCreate, now: int) returns (r: Result<Report>)
      requires Valid()
      modifies this
      ensures Valid()
      ensures old(CheckDuplicate(reporterId, TypeName(data.reportableType), data.reportableId)).Some? ==>
        r == Err(IntegrityError) && reports == old(reports) && nextId == old(nextId)
      ensures old(CheckDuplicate(reporterId, TypeName(data.reportableType), data.reportableId)).None? ==>
        && r == Ok(Report(old(nextId), Some(reporterId), data.reportableType, data.reportableId, data.reason,
                          data.details, Pending, None, None, None, now))
        && reports == old(reports) + [r.value]
        && CheckDuplicate(reporterId, TypeName(data.reportableType), data.reportableId) == Some(r.value)
    {
      if CheckDuplicate(reporterId, TypeName(data.reportableType), data.reportableId).Some? {
        return Err(IntegrityError);
      }
      var x := Report(nextId, Some(reporterId), data.reportableType, data.reportableId, data.reason,
                      data.details, Pending, None, None, None, now);
      var before := reports;
      reports := reports + [x];
      nextId := nextId + 1;
      r := Ok(x);
      forall i, j | 0 <= i < j < |reports| && reports[i].reporterId.Some?
        ensures !SameItem(reports[j], reports[i].reporterId.value, TypeName(reports[i].reportableType), reports[i].reportableId)
      {
        if j == |before| {
          TypeNameInjective(reports[i].reportableType, x.reportableType);
          assert reports[i] in before;
        }
      }
      assert forall i :: 0 <= i < |before| ==> before[i] in before;
    }
  }

  /** A status string outside the literals matches no row, so the query is empty. */
  lemma UnknownStatusMatchesNothing(rs: seq<Report>, status: string)
    ensures ParseStatus(status).None? ==> Filter(rs, WithStatus(status)) == []
  {
    if ParseStatus(status).None? {
      forall x | x in rs ensures StatusName(x.status) != status {
        LiteralsRoundTrip(PostTarget, Spam, x.status);
      }
      FilterNone(rs, WithStatus(status));
    }
  }

  lemma PendingCount(rs: seq<Report>)
    requires KeysDistinct(rs, ReportId)
    ensures |Filter(rs, IsPending)| == |set x | x in rs && IsPending(x) :: ReportId(x)|
  {
    FilterCount(rs, IsPending, ReportId);
    var direct := set x | x in rs && IsPending(x) :: ReportId(x);
    assert direct == KeysOf(rs, IsPending, ReportId);
  }

  lemma PendingName()
    ensures forall s :: StatusName(s) == "pending" <==> s == Pending
  {
    assert "resolved" != "pending" && "dismissed" != "pending";
  }

  lemma ForallSameItemUnique(rs: seq<Report>, y: Report, reporterId: int, reportableType: string, reportableId: int)
    requires UniqueItems(rs)
    requires y in rs && SameItem(y, reporterId, reportableType, reportableId)
    ensures forall x :: x in rs && SameItem(x, reporterId, reportableType, reportableId) ==> x == y
  {
    forall x | x in rs && SameItem(x, reporterId, reportableType, reportableId) ensures x == y {
      SameItemUnique(rs, x, y, reporterId, reportableType, reportableId);
    }
  }
}
