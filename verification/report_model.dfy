/** The abuse report record. */
module ReportModel {
  import opened Common
  import opened Text

  const Reasons: set<string> :=
    {"spam", "inappropriate", "harassment", "fake_profile", "underage", "other"}
  const Statuses: set<string> := {"pending", "reviewed", "resolved"}
  const MaxDetail: nat := 500

  datatype Report = Report(
    id: Id,
    reporter: Id,
    reportedUser: Id,
    reportedPost: Option<Id>,
    reason: string,
    detail: string,
    status: string,
    reviewedBy: Option<Id>,
    reviewedAt: Option<Time>,
    createdAt: Time)

  /** The validators that run whenever a report is created. */
  predicate ValidReportFields(r: Report)
  {
    r.reason in Reasons && Utf16Length(r.detail) <= MaxDetail
  }

  /** Every constraint of the schema, including the status enumeration. */
  predicate ValidReport(r: Report)
  {
    ValidReportFields(r) && r.status in Statuses
  }

  /** The document `Report.create` builds: pending and not yet reviewed. It
      passes validation exactly when the reason is one of the six admitted
      values and the detail is at most 500 UTF-16 code units long. */
  function NewReport(id: Id, reporter: Id, reportedUser: Id, reportedPost: Option<Id>,
                     reason: string, detail: string, now: Time): (r: Report)
    ensures r.status == "pending" && r.reviewedBy.None? && r.reviewedAt.None?
    ensures r.reporter == reporter && r.reportedUser == reportedUser && r.createdAt == now
    ensures ValidReport(r) <==> reason in Reasons && Utf16Length(detail) <= MaxDetail
  {
    Report(id, reporter, reportedUser, reportedPost, reason, detail, "pending", None, None, now)
  }
}
