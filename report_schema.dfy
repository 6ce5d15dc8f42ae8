/**
 * The report schemas: the three literal enumerations, the details bound and
 * the rule that a report for reason "other" must carry details.
 */
module ReportSchemas {
  import opened Wrappers

  /** The Field bound on `details`. */
  const MaxDetailsLength := 500

  datatype ReportableType = PostTarget | CommentTarget
  datatype ReportReason = Spam | Harassment | Inappropriate | Misinformation | Other
  datatype ReportStatus = Pending | Resolved | Dismissed

  function TypeName(t: ReportableType): string {
    match t
    case PostTarget => "post"
    case CommentTarget => "comment"
  }

  function ReasonName(r: ReportReason): string {
    match r
    case Spam => "spam"
    case Harassment => "harassment"
    case Inappropriate => "inappropriate"
    case Misinformation => "misinformation"
    case Other => "other"
  }

  function StatusName(s: ReportStatus): string {
    match s
    case Pending => "pending"
    case Resolved => "resolved"
    case Dismissed => "dismissed"
  }

  /** Literal["post", "comment"]. */
  function ParseType(s: string): (r: Option<ReportableType>)
    ensures r.Some? ==> TypeName(r.value) == s
  {
    if s == "post" then Some(PostTarget)
    else if s == "comment" then Some(CommentTarget)
    else None
  }

  /** The five reason literals. */
  function ParseReason(s: string): (r: Option<ReportReason>)
    ensures r.Some? ==> ReasonName(r.value) == s
  {
    if s == "spam" then Some(Spam)
    else if s == "harassment" then Some(Harassment)
    else if s == "inappropriate" then Some(Inappropriate)
    else if s == "misinformation" then Some(Misinformation)
    else if s == "other" then Some(Other)
    else None
  }

  /** The three status literals. */
  function ParseStatus(s: string): (r: Option<ReportStatus>)
    ensures r.Some? ==> StatusName(r.value) == s
  {
    if s == "pending" then Some(Pending)
    else if s == "resolved" then Some(Resolved)
    else if s == "dismissed" then Some(Dismissed)
    else None
  }

  /** Every literal is accepted, as itself. */
  lemma LiteralsRoundTrip(t: ReportableType, r: ReportReason, s: ReportStatus)
    ensures ParseType(TypeName(t)) == Some(t)
    ensures ParseReason(ReasonName(r)) == Some(r)
    ensures ParseStatus(StatusName(s)) == Some(s)
  {
    assert "comment" != "post";
    assert "harassment" != "spam";
    assert "inappropriate" != "spam" && "inappropriate" != "harassment";
    assert "misinformation" != "spam" && "misinformation" != "harassment" && "misinformation" != "inappropriate";
    assert "other" != "spam" && "other" != "harassment" && "other" != "inappropriate" && "other" != "misinformation";
    assert "resolved" != "pending";
    assert "dismissed" != "pending" && "dismissed" != "resolved";
  }

  /**
   * ReportCreate.validate_details_for_other. `reason` is what the reason
   * field validated to (None when it failed); Python's `not value` treats an
   * absent and an empty details string alike.
   */
  function ValidateDetailsForOther(details: Option<string>, reason: Option<ReportReason>): (r: Result<Option<string>>)
    ensures r.Err? <==> reason == Some(Other) && (details == None || details == Some(""))
    ensures r.Ok? ==> r.value == details
  {
    if reason == Some(Other) && (details.None? || details.value == "") then
      Err(ValueError("Details are required when reason is 'other'"))
    else Ok(details)
  }

  datatype ReportCreate = ReportCreate(
    reportableType: ReportableType, reportableId: int, reason: ReportReason, details: Option<string>)

  /** Validating a ReportCreate payload, fields in declaration order. */
  function MakeReportCreate(reportableType: string, reportableId: int, reason: string, details: Option<string>): (r: Result<ReportCreate>)
    ensures r.Ok? <==>
      (&& ParseType(reportableType).Some?
       && ParseReason(reason).Some?
       && (details.Some? ==> |details.value| <= 500)
       && !(reason == "other" && (details.None? || details.value == "")))
    ensures r.Ok? ==>
      && TypeName(r.value.reportableType) == reportableType
      && r.value.reportableId == reportableId
      && ReasonName(r.value.reason) == reason
      && r.value.details == details
  {
    var t := ParseType(reportableType);
    var why := ParseReason(reason);
    if t.None? || why.None? then Err(ValidationError("literal"))
    else if details.Some? && |details.value| > MaxDetailsLength then Err(ValidationError("details too long"))
    else match ValidateDetailsForOther(details, why)
      case Err(e) => Err(ValidationError(e.detail))
      case Ok(d) => Ok(ReportCreate(t.value, reportableId, why.value, d))
  }

  datatype ReportUpdate = ReportUpdate(status: Option<ReportStatus>, moderatorNote: Option<string>)

  /** ReportUpdate: an absent status is allowed; a given one must be a status literal. */
  function MakeReportUpdate(status: Option<string>, moderatorNote: Option<string>): (r: Result<ReportUpdate>)
    ensures r.Ok? <==> (status.Some? ==> ParseStatus(status.value).Some?)
    ensures r.Ok? ==> r.value.moderatorNote == moderatorNote
    ensures r.Ok? ==> (r.value.status.Some? <==> status.Some?)
    ensures r.Ok? && status.Some? ==> StatusName(r.value.status.value) == status.value
  {
    if status.None? then Ok(ReportUpdate(None, moderatorNote))
    else match ParseStatus(status.value)
      case None => Err(ValidationError("status"))
      case Some(s) => Ok(ReportUpdate(Some(s), moderatorNote))
  }
}
