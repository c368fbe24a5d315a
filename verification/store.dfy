/** The database the handlers share: one collection per model, each in
    insertion (natural) order, and the server clock. */
module Store {
  import opened Common
  import opened Collections
  import opened UserModel
  import opened PostModel
  import opened ChatRoomModel
  import opened MessageModel
  import opened ReportModel

  predicate UserIdsUnique(s: seq<User>)
  {
    forall i, j :: 0 <= i < j < |s| ==> s[i].id != s[j].id
  }

  predicate PostIdsUnique(s: seq<Post>)
  {
    forall i, j :: 0 <= i < j < |s| ==> s[i].id != s[j].id
  }

  predicate RoomIdsUnique(s: seq<Room>)
  {
    forall i, j :: 0 <= i < j < |s| ==> s[i].id != s[j].id
  }

  predicate ReportIdsUnique(s: seq<Report>)
  {
    forall i, j :: 0 <= i < j < |s| ==> s[i].id != s[j].id
  }

  predicate UsersSchemaValid(s: seq<User>)
  {
    forall i :: 0 <= i < |s| ==> ValidUser(s[i])
  }

  /** The unique index on `email`: no two users share an address. */
  predicate UserEmailsUnique(s: seq<User>)
  {
    forall i, j :: 0 <= i < j < |s| ==> s[i].email != s[j].email
  }

  predicate UsersValid(s: seq<User>)
  {
    UserIdsUnique(s) && UserEmailsUnique(s) && UsersSchemaValid(s)
  }

  /** Posts are valid, were created no later than `now` and appear in
      creation order, so "newest first" is the reverse of natural order. */
  predicate PostsSchemaValid(s: seq<Post>, now: Time)
  {
    forall i :: 0 <= i < |s| ==> ValidPost(s[i]) && s[i].createdAt <= now
  }

  predicate PostsChronological(s: seq<Post>)
  {
    forall i, j :: 0 <= i < j < |s| ==> s[i].createdAt <= s[j].createdAt
  }

  predicate PostsValid(s: seq<Post>, now: Time)
  {
    PostIdsUnique(s) && PostsSchemaValid(s, now) && PostsChronological(s)
  }

  predicate RoomsValid(s: seq<Room>)
  {
    RoomIdsUnique(s)
  }

  predicate MessagesSchemaValid(s: seq<Message>, now: Time)
  {
    forall i :: 0 <= i < |s| ==> ValidMessage(s[i]) && s[i].createdAt <= now
  }

  predicate MessagesChronological(s: seq<Message>)
  {
    forall i, j :: 0 <= i < j < |s| ==> s[i].createdAt <= s[j].createdAt
  }

  predicate MessagesValid(s: seq<Message>, now: Time)
  {
    MessagesSchemaValid(s, now) && MessagesChronological(s)
  }

  /** Reports hold the fields every creation validates; the status is not
      part of this invariant because an admin update writes it unvalidated. */
  predicate ReportsSchemaValid(s: seq<Report>, now: Time)
  {
    forall i :: 0 <= i < |s| ==> ValidReportFields(s[i]) && s[i].createdAt <= now
  }

  predicate ReportsChronological(s: seq<Report>)
  {
    forall i, j :: 0 <= i < j < |s| ==> s[i].createdAt <= s[j].createdAt
  }

  predicate ReportsValid(s: seq<Report>, now: Time)
  {
    ReportIdsUnique(s) && ReportsSchemaValid(s, now) && ReportsChronological(s)
  }

  /** The query `{ _id: id }` on users. */
  function UserWithId(id: Id): User -> bool
  {
    (u: User) => u.id == id
  }

  /** `User.findById(id)`. */
  function UserIndex(s: seq<User>, id: Id): (r: Option<nat>)
    ensures r.Some? ==> r.value < |s| && s[r.value].id == id
    ensures r.None? ==> forall i :: 0 <= i < |s| ==> s[i].id != id
  {
    FirstIndex(s, UserWithId(id))
  }

  /** The query `{ email }` on users. */
  function UserWithEmail(email: string): User -> bool
  {
    (u: User) => u.email == email
  }

  /** `User.findOne({ email })`: the user stored under that address. */
  function EmailIndex(s: seq<User>, email: string): (r: Option<nat>)
    ensures r.Some? ==> r.value < |s| && s[r.value].email == email
    ensures r.None? ==> forall i :: 0 <= i < |s| ==> s[i].email != email
  {
    FirstIndex(s, UserWithEmail(email))
  }

  /** The query `{ _id: id }` on posts. */
  function PostWithId(id: Id): Post -> bool
  {
    (p: Post) => p.id == id
  }

  function PostIndex(s: seq<Post>, id: Id): (r: Option<nat>)
    ensures r.Some? ==> r.value < |s| && s[r.value].id == id
    ensures r.None? ==> forall i :: 0 <= i < |s| ==> s[i].id != id
  {
    FirstIndex(s, PostWithId(id))
  }

  /** The query `{ _id: id }` on rooms. */
  function RoomWithId(id: Id): Room -> bool
  {
    (r: Room) => r.id == id
  }

  function RoomIndex(s: seq<Room>, id: Id): (r: Option<nat>)
    ensures r.Some? ==> r.value < |s| && s[r.value].id == id
    ensures r.None? ==> forall i :: 0 <= i < |s| ==> s[i].id != id
  {
    FirstIndex(s, RoomWithId(id))
  }

  /** The query `{ _id: id }` on reports. */
  function ReportWithId(id: Id): Report -> bool
  {
    (r: Report) => r.id == id
  }

  function ReportIndex(s: seq<Report>, id: Id): (r: Option<nat>)
    ensures r.Some? ==> r.value < |s| && s[r.value].id == id
    ensures r.None? ==> forall i :: 0 <= i < |s| ==> s[i].id != id
  {
    FirstIndex(s, ReportWithId(id))
  }

  /** Appending a valid record with a fresh id, created now, keeps each
      collection valid. */
  lemma AppendUserValid(s: seq<User>, v: User)
    requires UsersValid(s) && ValidUser(v) && UserIndex(s, v.id).None?
    requires EmailIndex(s, v.email).None?
    ensures UsersValid(s + [v])
  {
    var t := s + [v];
    forall k | 0 <= k < |t| ensures ValidUser(t[k]) {
      if k < |s| { assert t[k] == s[k]; }
    }
  }

  lemma AppendPostValid(s: seq<Post>, now: Time, v: Post)
    requires PostsValid(s, now) && ValidPost(v) && v.createdAt == now && PostIndex(s, v.id).None?
    ensures PostsValid(s + [v], now)
  {
    var t := s + [v];
    forall k | 0 <= k < |t| ensures ValidPost(t[k]) && t[k].createdAt <= now {
      if k < |s| { assert t[k] == s[k]; }
    }
  }

  lemma AppendMessageValid(s: seq<Message>, now: Time, v: Message)
    requires MessagesValid(s, now) && ValidMessage(v) && v.createdAt == now
    ensures MessagesValid(s + [v], now)
  {
    var t := s + [v];
    forall k | 0 <= k < |t| ensures ValidMessage(t[k]) && t[k].createdAt <= now {
      if k < |s| { assert t[k] == s[k]; }
    }
  }

  lemma AppendReportValid(s: seq<Report>, now: Time, v: Report)
    requires ReportsValid(s, now) && ValidReportFields(v) && v.createdAt == now
    requires ReportIndex(s, v.id).None?
    ensures ReportsValid(s + [v], now)
  {
    var t := s + [v];
    forall k | 0 <= k < |t| ensures ValidReportFields(t[k]) && t[k].createdAt <= now {
      if k < |s| { assert t[k] == s[k]; }
    }
  }

  /** Replacing a report by one with the same id, creation time and
      validated fields keeps the collection valid. */
  lemma UpdateReportValid(s: seq<Report>, now: Time, i: nat, v: Report)
    requires ReportsValid(s, now) && i < |s| && v.id == s[i].id && v.createdAt == s[i].createdAt
    requires ValidReportFields(v)
    ensures ReportsValid(s[i := v], now)
  {
    var t := s[i := v];
    forall a, b | 0 <= a < b < |t|
      ensures t[a].id != t[b].id && t[a].createdAt <= t[b].createdAt
    {
      assert t[a].id == s[a].id && t[b].id == s[b].id;
      assert t[a].createdAt == s[a].createdAt && t[b].createdAt == s[b].createdAt;
    }
    forall k | 0 <= k < |t| ensures ValidReportFields(t[k]) && t[k].createdAt <= now {
      if k != i { assert t[k] == s[k]; }
    }
  }

  /** Replacing a user by a valid record with the same id and email keeps
      the collection valid. */
  lemma UpdateUserValid(s: seq<User>, i: nat, v: User)
    requires UsersValid(s) && i < |s| && v.id == s[i].id && v.email == s[i].email && ValidUser(v)
    ensures UsersValid(s[i := v])
  {
    var t := s[i := v];
    forall a, b | 0 <= a < b < |t| ensures t[a].id != t[b].id && t[a].email != t[b].email {
      assert t[a].id == s[a].id && t[b].id == s[b].id;
      assert t[a].email == s[a].email && t[b].email == s[b].email;
    }
    UpdateUserSchema(s, i, v);
  }

  lemma UpdateUserSchema(s: seq<User>, i: nat, v: User)
    requires UsersSchemaValid(s) && i < |s| && ValidUser(v)
    ensures UsersSchemaValid(s[i := v])
  {
    var t := s[i := v];
    forall k | 0 <= k < |t| ensures ValidUser(t[k]) {
      if k != i { assert t[k] == s[k]; }
    }
  }

  /** Replacing a post by a valid record with the same id and creation time
      keeps the collection valid. */
  lemma UpdatePostValid(s: seq<Post>, now: Time, i: nat, v: Post)
    requires PostsValid(s, now) && i < |s| && v.id == s[i].id && ValidPost(v)
    requires v.createdAt == s[i].createdAt
    ensures PostsValid(s[i := v], now)
  {
    var t := s[i := v];
    forall a, b | 0 <= a < b < |t|
      ensures t[a].id != t[b].id && t[a].createdAt <= t[b].createdAt
    {
      assert t[a].id == s[a].id && t[b].id == s[b].id;
      assert t[a].createdAt == s[a].createdAt && t[b].createdAt == s[b].createdAt;
    }
    UpdatePostSchema(s, now, i, v);
  }

  lemma UpdatePostSchema(s: seq<Post>, now: Time, i: nat, v: Post)
    requires PostsSchemaValid(s, now) && i < |s| && ValidPost(v) && v.createdAt <= now
    ensures PostsSchemaValid(s[i := v], now)
  {
    var t := s[i := v];
    forall k | 0 <= k < |t| ensures ValidPost(t[k]) && t[k].createdAt <= now {
      if k != i { assert t[k] == s[k]; }
    }
  }

  class Db {
    var users: seq<User>
    var posts: seq<Post>
    var rooms: seq<Room>
    var messages: seq<Message>
    var reports: seq<Report>
    /** The server clock; it only moves forward. */
    var now: Time

    ghost predicate Valid()
      reads this
    {
      && UsersValid(users)
      && PostsValid(posts, now)
      && RoomsValid(rooms)
      && MessagesValid(messages, now)
      && ReportsValid(reports, now)
    }

    constructor (start: Time)
      ensures Valid() && now == start
      ensures users == [] && posts == [] && rooms == [] && messages == [] && reports == []
    {
      users, posts, rooms, messages, reports := [], [], [], [], [];
      now := start;
    }

    /** `Post.create`: a post that passed validation, stamped with the
        current time and carrying a fresh id, becomes the newest post. */
    method AppendPost(p: Post)
      requires Valid() && ValidPost(p) && p.createdAt == now && PostIndex(posts, p.id).None?
      modifies this`posts
      ensures Valid() && posts == old(posts) + [p]
    {
      AppendPostValid(posts, now, p);
      posts := posts + [p];
    }

    /** `Message.create` of a validated message stamped now: the newest
        message. */
    method AppendMessage(m: Message)
      requires Valid() && ValidMessage(m) && m.createdAt == now
      modifies this`messages
      ensures Valid() && messages == old(messages) + [m]
    {
      AppendMessageValid(messages, now, m);
      messages := messages + [m];
    }

    /** Time passes. */
    method AdvanceClock(t: Time)
      requires Valid() && now <= t
      modifies this`now
      ensures Valid() && now == t
    {
      now := t;
    }
  }
}
