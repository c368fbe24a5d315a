/** The admin endpoints: the report queue, suspending and unsuspending
    users, forced post deletion, report review and the dashboard counts. */
module AdminController {
  import opened Common
  import opened Collections
  import opened UserModel
  import opened PostModel
  import opened ReportModel
  import opened Store

  datatype ReportPage = ReportPage(reports: seq<Report>, total: nat, page: nat)

  /** The reports with the asked status, newest first, one page of them. */
  function ReportsPage(reports: seq<Report>, status: string, skip: nat, limit: nat): seq<Report>
  {
    Paginate(Reverse(Filter(reports, (r: Report) => r.status == status)), skip, limit)
  }

  /** `getReports`: status 'pending', page 1 and 20 per page by default; a
      negative offset is a store error. */
  function GetReports(reports: seq<Report>, status: Option<string>, page: Option<nat>,
                      limit: Option<nat>): (r: Response<ReportPage>)
    ensures var st := if status.Some? then status.value else "pending";
            var pg := if page.Some? then page.value else 1;
            var lim := if limit.Some? then limit.value else 20;
            && (r.Err? <==> SkipFor(pg, lim) < 0)
            && (r.Err? ==> r == Err(500, ServerError))
            && (r.Ok? ==>
                  && r.status == 200 && r.value.page == pg
                  && r.value.total == Count(reports, (x: Report) => x.status == st)
                  && r.value.reports == ReportsPage(reports, st, SkipFor(pg, lim), lim)
                  && (lim > 0 ==> |r.value.reports| <= lim)
                  && forall x :: x in r.value.reports ==> x in reports && x.status == st)
  {
    var st := if status.Some? then status.value else "pending";
    var pg := if page.Some? then page.value else 1;
    var lim := if limit.Some? then limit.value else 20;
    var skip := SkipFor(pg, lim);
    if skip < 0 then Err(500, ServerError)
    else
      var shown := ReportsPage(reports, st, skip, lim);
      ReportsPageSound(reports, st, skip, lim);
      Ok(200, ReportPage(shown, Count(reports, (x: Report) => x.status == st), pg))
  }

  lemma ReportsPageSound(reports: seq<Report>, status: string, skip: nat, limit: nat)
    ensures forall x :: x in ReportsPage(reports, status, skip, limit) ==> x in reports && x.status == status
  {
    var f := Filter(reports, (r: Report) => r.status == status);
    var rev := Reverse(f);
    var shown := ReportsPage(reports, status, skip, limit);
    forall x | x in shown ensures x in f {
      var k :| 0 <= k < |shown| && shown[k] == x;
      assert x == rev[Min(skip, |rev|) + k];
    }
  }

  /** The user record after a suspension of `days` days from `now`. */
  function Suspended(u: User, days: int, now: Time): (v: User)
    ensures v.isSuspended && v.suspendedUntil == Some(now + days * DayMs)
    ensures v.(isSuspended := u.isSuspended, suspendedUntil := u.suspendedUntil) == u
  {
    u.(isSuspended := true, suspendedUntil := Some(now + days * DayMs))
  }

  /** `suspendUser`: 404 for an unknown user, 403 for an admin (who stays
      as they were); otherwise the user is suspended until `days` days from
      now, seven when no number of days is given. */
  method SuspendUser(db: Db, id: Id, days: Option<int>) returns (r: Response<Time>)
    requires db.Valid()
    modifies db`users
    ensures db.Valid()
    ensures r == Err(404, UserNotFound) <==> UserIndex(old(db.users), id).None?
    ensures r == Err(403, AdminNotSuspendable) <==>
              UserIndex(old(db.users), id).Some? && old(db.users)[UserIndex(old(db.users), id).value].role == Admin
    ensures r.Err? ==> db.users == old(db.users)
    ensures r.Ok? ==>
              var i := UserIndex(old(db.users), id).value;
              var d := if days.Some? then days.value else 7;
              && r == Ok(200, db.now + d * DayMs)
              && db.users == old(db.users)[i := Suspended(old(db.users)[i], d, db.now)]
  {
    var d := if days.Some? then days.value else 7;
    var found := UserIndex(db.users, id);
    if found.None? {
      return Err(404, UserNotFound);
    }
    var i := found.value;
    if db.users[i].role == Admin {
      return Err(403, AdminNotSuspendable);
    }
    var u := Suspended(db.users[i], d, db.now);
    UpdateUserValid(db.users, i, u);
    db.users := db.users[i := u];
    return Ok(200, db.now + d * DayMs);
  }

  /** `unsuspendUser`: always answers 200; a user with that id, if any, is
      no longer suspended. */
  method UnsuspendUser(db: Db, id: Id) returns (r: Response<()>)
    requires db.Valid()
    modifies db`users
    ensures db.Valid()
    ensures r == Ok(200, ())
    ensures UserIndex(old(db.users), id).None? ==> db.users == old(db.users)
    ensures UserIndex(old(db.users), id).Some? ==>
              var i := UserIndex(old(db.users), id).value;
              db.users == old(db.users)[i := Unsuspended(old(db.users)[i])]
  {
    var found := UserIndex(db.users, id);
    if found.Some? {
      var i := found.value;
      var u := Unsuspended(db.users[i]);
      UpdateUserValid(db.users, i, u);
      db.users := db.users[i := u];
    }
    return Ok(200, ());
  }

  /** A suspension followed by an unsuspension leaves the user unsuspended
      with every other field as before. */
  lemma SuspendThenUnsuspend(u: User, days: int, now: Time)
    ensures Unsuspended(Suspended(u, days, now)) == u.(isSuspended := false, suspendedUntil := None)
    ensures !u.isSuspended && u.suspendedUntil.None? ==> Unsuspended(Suspended(u, days, now)) == u
  {
  }

  /** The admin `deletePost`: any post with that id, deleted already or not,
      is marked deleted; 404 when there is none. */
  method AdminDeletePost(db: Db, id: Id) returns (r: Response<()>)
    requires db.Valid()
    modifies db`posts
    ensures db.Valid()
    ensures r.Err? <==> PostIndex(old(db.posts), id).None?
    ensures r.Err? ==> r == Err(404, PostNotFound) && db.posts == old(db.posts)
    ensures r.Ok? ==>
              var i := PostIndex(old(db.posts), id).value;
              r == Ok(200, ()) && db.posts == old(db.posts)[i := old(db.posts)[i].(isDeleted := true)]
  {
    var found := PostIndex(db.posts, id);
    if found.None? {
      return Err(404, PostNotFound);
    }
    var i := found.value;
    var p := db.posts[i].(isDeleted := true);
    UpdatePostValid(db.posts, db.now, i, p);
    db.posts := db.posts[i := p];
    return Ok(200, ());
  }

  /** The report after review. The update skips schema validation, so the
      status is stored as given; an absent status leaves it as it was. */
  function Reviewed(r: Report, status: Option<string>, admin: Id, now: Time): (v: Report)
    ensures v.status == (if status.Some? then status.value else r.status)
    ensures v.reviewedBy == Some(admin) && v.reviewedAt == Some(now)
    ensures v.id == r.id && v.reporter == r.reporter && v.reportedUser == r.reportedUser
    ensures v.reason == r.reason && v.detail == r.detail && v.createdAt == r.createdAt
    ensures ValidReportFields(v) <==> ValidReportFields(r)
    ensures ValidReportFields(r) ==> (ValidReport(v) <==> v.status in Statuses)
  {
    var st := if status.Some? then status.value else r.status;
    r.(status := st, reviewedBy := Some(admin), reviewedAt := Some(now))
  }

  /** `updateReportStatus`: 404 for an unknown report; otherwise the report
      records the status, the reviewing admin and the time, and the updated
      report is returned. */
  method UpdateReportStatus(db: Db, admin: Id, id: Id, status: Option<string>) returns (r: Response<Report>)
    requires db.Valid()
    modifies db`reports
    ensures db.Valid()
    ensures r.Err? <==> ReportIndex(old(db.reports), id).None?
    ensures r.Err? ==> r == Err(404, ReportNotFound) && db.reports == old(db.reports)
    ensures r.Ok? ==>
              var i := ReportIndex(old(db.reports), id).value;
              var v := Reviewed(old(db.reports)[i], status, admin, db.now);
              r == Ok(200, v) && db.reports == old(db.reports)[i := v]
  {
    var found := ReportIndex(db.reports, id);
    if found.None? {
      return Err(404, ReportNotFound);
    }
    var i := found.value;
    var v := Reviewed(db.reports[i], status, admin, db.now);
    UpdateReportValid(db.reports, db.now, i, v);
    db.reports := db.reports[i := v];
    return Ok(200, v);
  }

  datatype Stats = Stats(totalUsers: nat, totalPosts: nat, pendingReports: nat, suspendedUsers: nat)

  /** `getStats`: all users, posts not deleted, pending reports and
      suspended users. */
  function GetStats(users: seq<User>, posts: seq<Post>, reports: seq<Report>): (s: Stats)
    ensures s.totalUsers == |users|
    ensures s.totalPosts == |Filter(posts, (p: Post) => !p.isDeleted)| <= |posts|
    ensures s.pendingReports == |Filter(reports, (r: Report) => r.status == "pending")| <= |reports|
    ensures s.suspendedUsers == |Filter(users, (u: User) => u.isSuspended)| <= s.totalUsers
  {
    Stats(|users|, Count(posts, (p: Post) => !p.isDeleted),
          Count(reports, (r: Report) => r.status == "pending"),
          Count(users, (u: User) => u.isSuspended))
  }

  /** Suspending a user who was not suspended raises the suspended count
      by one and leaves the other counts alone. */
  lemma SuspensionCounted(users: seq<User>, posts: seq<Post>, reports: seq<Report>, i: nat,
                          days: int, now: Time)
    requires i < |users| && !users[i].isSuspended
    ensures var before := GetStats(users, posts, reports);
            var after := GetStats(users[i := Suspended(users[i], days, now)], posts, reports);
            after == before.(suspendedUsers := before.suspendedUsers + 1)
  {
    CountUpdate(users, i, Suspended(users[i], days, now), (u: User) => u.isSuspended);
  }

  /** Deleting a live post lowers the post count by one. */
  lemma DeletionCounted(users: seq<User>, posts: seq<Post>, reports: seq<Report>, i: nat)
    requires i < |posts| && !posts[i].isDeleted
    ensures var before := GetStats(users, posts, reports);
            var after := GetStats(users, posts[i := posts[i].(isDeleted := true)], reports);
            after.totalPosts + 1 == before.totalPosts
            && after == before.(totalPosts := after.totalPosts)
  {
    CountUpdate(posts, i, posts[i].(isDeleted := true), (p: Post) => !p.isDeleted);
  }
}
