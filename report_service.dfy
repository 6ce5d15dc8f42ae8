/**
 * The report service: creating a report behind a 24-hour duplicate check,
 * and the moderator's resolution. The duplicate check consults a key-value
 * cache first, but every cache error and every cache hit is swallowed, so the
 * decision rests on the report table alone.
 */
module ReportService {
  import opened Wrappers
  import opened ReportSchemas
  import opened Reports
  import opened Ordering
  import BaseService

  /** The duplicate window, in seconds: 24 hours. */
  const DuplicateWindow := 86400

  predicate IsDigit(c: char) { '0' <= c <= '9' }

  predicate AllDigits(s: string) { forall i :: 0 <= i < |s| ==> IsDigit(s[i]) }

  function DigitChar(d: nat): (c: char)
    requires d < 10
    ensures IsDigit(c) && c as int - '0' as int == d
  {
    ('0' as int + d) as char
  }

  /** The number a string of decimal digits spells, most significant digit first. */
  function DecimalValue(s: string): nat
    requires AllDigits(s)
    decreases |s|
  {
    if s == [] then 0 else DecimalValue(s[..|s| - 1]) * 10 + (s[|s| - 1] as int - '0' as int)
  }

  /** Python's str() of a non-negative int. */
  function NatToString(n: nat): (s: string)
    ensures |s| >= 1
    decreases n
  {
    if n < 10 then [DigitChar(n)] else NatToString(n / 10) + [DigitChar(n % 10)]
  }

  /** str() writes the decimal digits of n, with no leading zero, and they spell n back. */
  lemma {:induction false} NatToStringDigits(n: nat)
    ensures AllDigits(NatToString(n))
    ensures DecimalValue(NatToString(n)) == n
    ensures |NatToString(n)| > 1 ==> NatToString(n)[0] != '0'
    decreases n
  {
    if n >= 10 {
      NatToStringDigits(n / 10);
      var init, s := NatToString(n / 10), NatToString(n);
      assert s == init + [DigitChar(n % 10)];
      assert s[..|s| - 1] == init;
      assert s[0] == init[0];
    }
  }

  /** Python's str() of an int. */
  function IntToString(n: int): (s: string)
    ensures |s| >= 1
  {
    if n < 0 then "-" + NatToString(-n) else NatToString(n)
  }

  /** Distinct ids give distinct strings, so the cache key tells reporters and items apart. */
  lemma IntToStringInjective(a: int, b: int)
    ensures IntToString(a) == IntToString(b) ==> a == b
  {
    if IntToString(a) == IntToString(b) {
      var sa, sb := IntToString(a), IntToString(b);
      NatToStringDigits(if a < 0 then -a else a);
      NatToStringDigits(if b < 0 then -b else b);
      if a < 0 {
        assert sa[1..] == NatToString(-a);
      }
      if b < 0 {
        assert sb[1..] == NatToString(-b);
      }
    }
  }

  /** The cache key of the duplicate check. */
  function DuplicateKey(reporterId: int, reportableType: string, reportableId: int): string {
    "report:duplicate:" + IntToString(reporterId) + ":" + reportableType + ":" + IntToString(reportableId)
  }

  /**
   * The cache the service talks to: absent altogether, or present and
   * possibly failing on every command. A key is live until its expiry time.
   */
  class DuplicateCache {
    var connected: bool
    var failing: bool
    var expiries: map<string, int>

    constructor (connected: bool, failing: bool)
      ensures this.connected == connected && this.failing == failing && expiries == map[]
    {
      this.connected, this.failing, expiries := connected, failing, map[];
    }

    /** EXISTS key: true iff the key is set and has not expired; an error when the cache fails. */
    function Exists(key: string, now: int): (r: Result<bool>)
      reads this
      ensures r.Err? <==> failing
      ensures r.Ok? ==> (r.value <==> key in expiries && now < expiries[key])
    {
      if failing then Err(ValueError("cache unavailable"))
      else Ok(key in expiries && now < expiries[key])
    }

    /** SETEX key ttl: the key lives `ttl` seconds from now; an error, and no change, when the cache fails. */
    method SetEx(key: string, ttl: int, now: int) returns (r: Outcome)
      modifies this`expiries
      ensures failing ==> r.Fail? && expiries == old(expiries)
      ensures !failing ==> r == Pass && expiries == old(expiries)[key := now + ttl]
    {
      if failing {
        return Fail(ValueError("cache unavailable"));
      }
      expiries := expiries[key := now + ttl];
      r := Pass;
    }
  }

  /** A report by that reporter on that item exists, created at or after `since`. */
  predicate ReportedSince(rs: seq<Report>, reporterId: int, reportableType: string, reportableId: int, since: int) {
    exists x :: x in rs && SameItem(x, reporterId, reportableType, reportableId) && x.createdAt >= since
  }

  /**
   * What create_report decides from the report table, in the order the
   * service checks: a report in the last 24 hours is a conflict; then the
   * payload is validated; then the unique constraint refuses any older
   * report on the same item; otherwise the validated payload is stored.
   */
  function Admit(rs: seq<Report>, reporterId: int, reportableType: string, reportableId: int,
                 reason: string, details: Option<string>, now: int): (r: Result<ReportCreate>)
    ensures r.Ok? ==> forall x :: x in rs ==> !SameItem(x, reporterId, reportableType, reportableId)
    ensures r.Ok? ==> MakeReportCreate(reportableType, reportableId, reason, details) == r
    ensures r == Err(Conflict("You already reported this content recently")) <==>
      ReportedSince(rs, reporterId, reportableType, reportableId, now - DuplicateWindow)
  {
    if ReportedSince(rs, reporterId, reportableType, reportableId, now - DuplicateWindow) then
      Err(Conflict("You already reported this content recently"))
    else match MakeReportCreate(reportableType, reportableId, reason, details)
      case Err(e) =>
        assert e.ValidationError?;
        Err(e)
      case Ok(data) =>
        if exists x :: x in rs && SameItem(x, reporterId, reportableType, reportableId) then Err(IntegrityError)
        else Ok(data)
  }

  /**
   * The documented rule is "once per 24 hours", but an earlier report older
   * than the window still blocks a new valid one: the unique constraint
   * turns it into an integrity error instead of a second report.
   */
  lemma ReReportAfterWindowFails(rs: seq<Report>, old_: Report, reason: string, details: Option<string>, now: int)
    requires old_ in rs && old_.reporterId.Some?
    requires !ReportedSince(rs, old_.reporterId.value, TypeName(old_.reportableType), old_.reportableId, now - DuplicateWindow)
    requires MakeReportCreate(TypeName(old_.reportableType), old_.reportableId, reason, details).Ok?
    ensures Admit(rs, old_.reporterId.value, TypeName(old_.reportableType), old_.reportableId, reason, details, now) == Err(IntegrityError)
  {
    assert SameItem(old_, old_.reporterId.value, TypeName(old_.reportableType), old_.reportableId);
  }

  /** With no earlier report on the item, a valid payload is always admitted. */
  lemma FirstReportAdmitted(rs: seq<Report>, reporterId: int, reportableType: string, reportableId: int,
                            reason: string, details: Option<string>, now: int)
    requires forall x :: x in rs ==> !SameItem(x, reporterId, reportableType, reportableId)
    requires MakeReportCreate(reportableType, reportableId, reason, details).Ok?
    ensures Admit(rs, reporterId, reportableType, reportableId, reason, details, now) ==
      MakeReportCreate(reportableType, reportableId, reason, details)
  {
  }

  /**
   * The rule as documented and as the cache check is written: a cache hit is
   * a conflict ("once per 24 hours"); then a report in the last 24 hours is
   * a conflict; then the payload is validated and stored, whatever older
   * reports exist.
   */
  function AdmitDocumented(rs: seq<Report>, reporterId: int, reportableType: string, reportableId: int,
                           reason: string, details: Option<string>, now: int, cacheHit: bool): (r: Result<ReportCreate>)
    ensures cacheHit ==> r == Err(Conflict("You can only report this content once per 24 hours"))
    ensures r.Ok? <==>
      && !cacheHit
      && !ReportedSince(rs, reporterId, reportableType, reportableId, now - DuplicateWindow)
      && MakeReportCreate(reportableType, reportableId, reason, details).Ok?
    ensures r.Ok? ==> r == MakeReportCreate(reportableType, reportableId, reason, details)
  {
    if cacheHit then Err(Conflict("You can only report this content once per 24 hours"))
    else if ReportedSince(rs, reporterId, reportableType, reportableId, now - DuplicateWindow) then
      Err(Conflict("You already reported this content recently"))
    else MakeReportCreate(reportableType, reportableId, reason, details)
  }

  /**
   * Where the code parts from the documented rule: on every cache hit, and
   * on a valid report whose only earlier report on the item is older than
   * the window. Everywhere else the two decide alike.
   */
  lemma AdmitAgainstDocumented(rs: seq<Report>, reporterId: int, reportableType: string, reportableId: int,
                               reason: string, details: Option<string>, now: int, cacheHit: bool)
    ensures Admit(rs, reporterId, reportableType, reportableId, reason, details, now) !=
            AdmitDocumented(rs, reporterId, reportableType, reportableId, reason, details, now, cacheHit) <==>
      || cacheHit
      || (&& !ReportedSince(rs, reporterId, reportableType, reportableId, now - DuplicateWindow)
          && MakeReportCreate(reportableType, reportableId, reason, details).Ok?
          && exists x :: x in rs && SameItem(x, reporterId, reportableType, reportableId))
  {
    var code := Admit(rs, reporterId, reportableType, reportableId, reason, details, now);
    if cacheHit {
      assert "You already reported this content recently" != "You can only report this content once per 24 hours";
      assert code != Err(Conflict("You can only report this content once per 24 hours")) by {
        if ReportedSince(rs, reporterId, reportableType, reportableId, now - DuplicateWindow) {
        } else {
          var made := MakeReportCreate(reportableType, reportableId, reason, details);
          assert made.Err? ==> made.error.ValidationError?;
        }
      }
    }
  }

  /** A later resolution overwrites every field an earlier one set. */
  lemma LastResolutionWins(x: Report, s1: ReportStatus, by1: int, note1: Option<string>, at1: int,
                           s2: ReportStatus, by2: int, note2: Option<string>, at2: int)
    ensures Resolve(Resolve(x, s1, by1, note1, at1), s2, by2, note2, at2) == Resolve(x, s2, by2, note2, at2)
    ensures Resolve(x, s2, by2, note2, at2).id == x.id && Resolve(x, s2, by2, note2, at2).createdAt == x.createdAt
  {
  }

  class ReportService {
    const repo: ReportRepo
    const cache: DuplicateCache

    constructor (repo: ReportRepo, cache: DuplicateCache)
      ensures this.repo == repo && this.cache == cache
    {
      this.repo, this.cache := repo, cache;
    }

    /**
     * create_report. The cache probe happens but cannot change the outcome;
     * after a successful insert the duplicate key is set for 24 hours when
     * the cache is present and working.
     */
    method CreateReport(reporterId: int, reportableType: string, reportableId: int,
                        reason: string, details: Option<string>, now: int) returns (r: Result<Report>)
      requires repo.Valid()
      modifies repo, cache`expiries
      ensures repo.Valid()
      ensures var decision := Admit(old(repo.reports), reporterId, reportableType, reportableId, reason, details, now);
        && (decision.Err? ==> r == Err(decision.error) && repo.reports == old(repo.reports) && cache.expiries == old(cache.expiries))
        && (decision.Ok? ==>
          && r == Ok(Report(old(repo.nextId), Some(reporterId), decision.value.reportableType, reportableId,
                            decision.value.reason, details, Pending, None, None, None, now))
          && repo.reports == old(repo.reports) + [r.value]
          && cache.expiries == if cache.connected && !cache.failing
                               then old(cache.expiries)[DuplicateKey(reporterId, reportableType, reportableId) := now + DuplicateWindow]
                               else old(cache.expiries))
    {
      var key := DuplicateKey(reporterId, reportableType, reportableId);
      if cache.connected {
        // A hit raises a conflict inside the try block, and the except clause swallows it with every other error.
        var probe := cache.Exists(key, now);
      }
      var recent := repo.CheckDuplicateWithinTimeframe(reporterId, reportableType, reportableId, now - DuplicateWindow);
      if recent.Some? {
        assert ReportedSince(repo.reports, reporterId, reportableType, reportableId, now - DuplicateWindow);
        return Err(Conflict("You already reported this content recently"));
      }
      var data := MakeReportCreate(reportableType, reportableId, reason, details);
      if data.Err? {
        return Err(data.error);
      }
      var created := repo.CreateOne(reporterId, data.value, now);
      if created.Err? {
        return Err(created.error);
      }
      if cache.connected {
        var _ := cache.SetEx(key, DuplicateWindow, now);
      }
      r := created;
    }

    /**
     * resolve_report: moderators and admins only; the report must exist; its
     * status, resolver, note and time are overwritten whatever its status
     * was, and a status outside the literals is refused by the database.
     */
    method ResolveReport(reportId: int, resolverId: int, userRole: string, status: string,
                         note: Option<string>, now: int) returns (r: Result<Report>)
      requires repo.Valid()
      modifies repo`reports
      ensures repo.Valid()
      ensures !BaseService.IsPrivileged(userRole) ==> r == Err(Forbidden) && repo.reports == old(repo.reports)
      ensures BaseService.IsPrivileged(userRole) && old(repo.Get(reportId)).None? ==>
        r == Err(NotFound("Report")) && repo.reports == old(repo.reports)
      ensures BaseService.IsPrivileged(userRole) && old(repo.Get(reportId)).Some? && ParseStatus(status).None? ==>
        r == Err(IntegrityError) && repo.reports == old(repo.reports)
      ensures BaseService.IsPrivileged(userRole) && old(repo.Get(reportId)).Some? && ParseStatus(status).Some? ==>
        && r == Ok(Resolve(old(repo.Get(reportId)).value, ParseStatus(status).value, resolverId, note, now))
        && repo.reports == Updated(old(repo.reports), reportId, ParseStatus(status).value, resolverId, note, now)
    {
      var allowed := BaseService.VerifyModerator(userRole);
      if allowed.Fail? {
        return Err(allowed.error);
      }
      var found := BaseService.GetOr404(repo.Get(reportId), "Report");
      if found.Err? {
        return Err(found.error);
      }
      var res := repo.ResolveReport(reportId, resolverId, status, note, now);
      if res.Err? {
        return Err(res.error);
      }
      r := Ok(res.value.value);
    }

    /** get_pending_reports: pending reports only, newest first, at most `limit`. */
    function GetPendingReports(skip: nat, limit: nat): (r: seq<Report>)
      reads repo
      ensures forall x :: x in r ==> x in repo.reports && x.status == Pending
      ensures SortedBy(r, NewestFirst)
      ensures |r| <= limit
      ensures r == Page(Selected(repo.reports, WithStatus("pending")), skip, limit)
    {
      repo.GetPending(skip, limit)
    }

    /** get_reports_for_item: every report on the item, newest first. */
    function GetReportsForItem(reportableType: string, reportableId: int): (r: seq<Report>)
      reads repo
      ensures forall x :: x in r <==> x in repo.reports && TypeName(x.reportableType) == reportableType && x.reportableId == reportableId
      ensures SortedBy(r, NewestFirst)
      ensures r == Selected(repo.reports, OnItem(reportableType, reportableId))
    {
      repo.GetForItem(reportableType, reportableId)
    }

    /** count_pending_reports: the number of pending reports. */
    function CountPendingReports(): (n: nat)
      reads repo
      requires repo.Valid()
      ensures n == |set x | x in repo.reports && IsPending(x) :: ReportId(x)|
    {
      repo.CountPending()
    }
  }
}
