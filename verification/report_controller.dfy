/** Filing an abuse report: required fields, no self-reports, one report
    per reporter and reported user within 24 hours. */
module ReportController {
  import opened Common
  import opened Text
  import opened ReportModel
  import opened Store

  /** The body of a report request. */
  datatype ReportRequest = ReportRequest(reportedUser: Option<string>, reportedPost: Option<string>,
                                         reason: Option<string>, detail: Option<string>)

  /** A report by `reporter` on `reported` filed within the last 24 hours
      (`createdAt >= now - 24h`). */
  predicate IsRecentReport(r: Report, reporter: Id, reported: Id, now: Time)
  {
    r.reporter == reporter && r.reportedUser == reported && r.createdAt >= now - DayMs
  }

  predicate HasRecentReport(reports: seq<Report>, reporter: Id, reported: Id, now: Time)
  {
    exists k :: 0 <= k < |reports| && IsRecentReport(reports[k], reporter, reported, now)
  }

  /** The report `createReport` asks the store to create: the detail cut to
      500 UTF-16 code units or '' when absent, an absent or empty post reference
      left out. */
  function DraftReport(me: Id, req: ReportRequest, newId: Id, now: Time): (r: Report)
    requires req.reportedUser.Some? && req.reason.Some?
    ensures r.reporter == me && r.reportedUser == req.reportedUser.value && r.reason == req.reason.value
    ensures r.detail == (if req.detail.Some? then Utf16Prefix(req.detail.value, MaxDetail) else "")
    ensures r.reportedPost == (if Present(req.reportedPost) then req.reportedPost else None)
    ensures r.status == "pending" && r.createdAt == now && r.id == newId
    ensures Utf16Length(r.detail) <= MaxDetail
    ensures req.detail.Some? ==> r.detail == req.detail.value[..|r.detail|]
    ensures req.detail.Some? && Utf16Length(req.detail.value) <= MaxDetail ==> r.detail == req.detail.value
    ensures req.detail.Some? && |r.detail| < |req.detail.value| ==>
              MaxDetail < Utf16Length(r.detail) + CodeUnits(req.detail.value[|r.detail|])
  {
    var detail := if req.detail.Some? then Utf16Prefix(req.detail.value, MaxDetail) else "";
    var post := if Present(req.reportedPost) then req.reportedPost else None;
    NewReport(newId, me, req.reportedUser.value, post, req.reason.value, detail, now)
  }

  /** The decision `createReport` takes, in order: 400 without a reported
      user or a reason, 400 for a self-report, 429 for a repeat within 24
      hours, 500 for a reason outside the six admitted ones, else 201 with
      the new report. */
  function ReportDecision(reports: seq<Report>, me: Id, req: ReportRequest, newId: Id, now: Time): (r: Response<Report>)
    ensures r == Err(400, MissingReportFields) <==> !Present(req.reportedUser) || !Present(req.reason)
    ensures r == Err(400, SelfReport) <==>
              Present(req.reportedUser) && Present(req.reason) && req.reportedUser.value == me
    ensures r == Err(429, DuplicateReport) <==>
              Present(req.reportedUser) && Present(req.reason) && req.reportedUser.value != me
              && HasRecentReport(reports, me, req.reportedUser.value, now)
    ensures r.Ok? <==>
              Present(req.reportedUser) && Present(req.reason) && req.reportedUser.value != me
              && !HasRecentReport(reports, me, req.reportedUser.value, now)
              && req.reason.value in Reasons
    ensures r.Ok? ==> r.status == 201 && ValidReport(r.value) && r.value == DraftReport(me, req, newId, now)
  {
    if !Present(req.reportedUser) || !Present(req.reason) then Err(400, MissingReportFields)
    else if req.reportedUser.value == me then Err(400, SelfReport)
    else if HasRecentReport(reports, me, req.reportedUser.value, now) then Err(429, DuplicateReport)
    else
      var r := DraftReport(me, req, newId, now);
      if ValidReport(r) then Ok(201, r) else Err(500, ServerError)
  }

  /** `createReport` on the store: only a successful request adds a report,
      exactly one. */
  method CreateReport(db: Db, me: Id, req: ReportRequest, newId: Id) returns (r: Response<Id>)
    requires db.Valid() && ReportIndex(db.reports, newId).None?
    modifies db`reports
    ensures db.Valid()
    ensures var d := ReportDecision(old(db.reports), me, req, newId, db.now);
            && (d.Ok? ==> r == Ok(201, newId) && db.reports == old(db.reports) + [d.value])
            && (d.Err? ==> r == Err(d.status, d.reason) && db.reports == old(db.reports))
  {
    var d := ReportDecision(db.reports, me, req, newId, db.now);
    if d.Err? {
      return Err(d.status, d.reason);
    }
    AppendReportValid(db.reports, db.now, d.value);
    db.reports := db.reports + [d.value];
    return Ok(201, newId);
  }

  /** Once a report is accepted, the same reporter reporting the same user
      again is refused with 429 for the next 24 hours. */
  lemma RepeatWithinDayRefused(reports: seq<Report>, me: Id, req: ReportRequest, newId: Id,
                               now: Time, later: Time, req2: ReportRequest, newId2: Id)
    requires ReportDecision(reports, me, req, newId, now).Ok?
    requires now <= later <= now + DayMs
    requires req2.reportedUser == req.reportedUser && Present(req2.reason)
    ensures ReportDecision(reports + [ReportDecision(reports, me, req, newId, now).value],
                           me, req2, newId2, later) == Err(429, DuplicateReport)
  {
    var after := reports + [ReportDecision(reports, me, req, newId, now).value];
    assert IsRecentReport(after[|reports|], me, req.reportedUser.value, later);
  }

  /** Reports older than 24 hours do not block a new one. */
  lemma OldReportsDoNotBlock(reports: seq<Report>, me: Id, reported: Id, now: Time)
    requires forall k :: 0 <= k < |reports| ==> reports[k].createdAt < now - DayMs
    ensures !HasRecentReport(reports, me, reported, now)
  {
  }
}
