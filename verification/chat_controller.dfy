/** The chat REST endpoints: find-or-create of direct and group rooms, the
    caller's room list and paged message history. */
module ChatController {
  import opened Common
  import opened Collections
  import opened PostModel
  import opened ChatRoomModel
  import opened MessageModel
  import opened Store

  /** The direct-room query `{type: 'direct', participants: {$all: [me, other],
      $size: 2}}`. */
  predicate IsDirectRoomOf(r: Room, me: Id, other: Id)
  {
    r.kind == Direct && |r.participants| == 2 && me in r.participants && other in r.participants
  }

  /** The group-room query `{type: 'group', post: postId}`. */
  predicate IsGroupRoomOf(r: Room, postId: Id)
  {
    r.kind == Group && r.post == Some(postId)
  }

  /** The membership query `{_id: roomId, participants: user}`. */
  predicate IsRoomWith(r: Room, roomId: Id, user: Id)
  {
    r.id == roomId && user in r.participants
  }

  function DirectRoomIndex(rooms: seq<Room>, me: Id, other: Id): Option<nat>
  {
    FirstIndex(rooms, (r: Room) => IsDirectRoomOf(r, me, other))
  }

  function GroupRoomIndex(rooms: seq<Room>, postId: Id): Option<nat>
  {
    FirstIndex(rooms, (r: Room) => IsGroupRoomOf(r, postId))
  }

  /** `ChatRoom.findOne({_id: roomId, participants: user})`. */
  function MemberRoomIndex(rooms: seq<Room>, roomId: Id, user: Id): Option<nat>
  {
    FirstIndex(rooms, (r: Room) => IsRoomWith(r, roomId, user))
  }

  /** The direct-room lookup does not depend on which of the two users asks. */
  lemma DirectRoomIndexSymmetric(rooms: seq<Room>, a: Id, b: Id)
    ensures DirectRoomIndex(rooms, a, b) == DirectRoomIndex(rooms, b, a)
  {
    FirstIndexSame(rooms, (r: Room) => IsDirectRoomOf(r, a, b), (r: Room) => IsDirectRoomOf(r, b, a));
  }

  /** The body of a room request. */
  datatype RoomRequest = RoomRequest(kind: Option<string>, targetUserId: Option<string>,
                                     postId: Option<string>)

  /** `createOrGetRoom` as a function of the room and post collections: the
      response and the room collection afterwards. A new room gets the id
      `newId` and the time `now`. */
  function RoomStep(rooms: seq<Room>, posts: seq<Post>, me: Id, req: RoomRequest,
                    newId: Id, now: Time): (Response<Room>, seq<Room>)
  {
    if req.kind == Some("direct") then
      if !Present(req.targetUserId) then (Err(400, MissingTarget), rooms)
      else if req.targetUserId.value == me then (Err(400, SelfChat), rooms)
      else
        var other := req.targetUserId.value;
        match DirectRoomIndex(rooms, me, other)
        case Some(i) => (Ok(200, rooms[i]), rooms)
        case None =>
          var room := NewRoom(newId, Direct, None, [me, other], "", now);
          (Ok(201, room), rooms + [room])
    else if req.kind == Some("group") then
      if !Present(req.postId) then (Err(400, MissingPostId), rooms)
      else
        var postId := req.postId.value;
        match PostIndex(posts, postId)
        case None => (Err(404, PostNotFound), rooms)
        case Some(p) =>
          match GroupRoomIndex(rooms, postId)
          case Some(i) =>
            if me in rooms[i].participants then (Ok(200, rooms[i]), rooms)
            else
              var joined := rooms[i].(participants := rooms[i].participants + [me], updatedAt := now);
              (Ok(200, joined), rooms[i := joined])
          case None =>
            var room := NewRoom(newId, Group, Some(postId), [me], posts[p].title, now);
            (Ok(201, room), rooms + [room])
    else (Err(400, InvalidChatType), rooms)
  }

  /** Every refusal leaves the rooms untouched; a success either returns a
      stored room unchanged, appends the caller to a group room that lacked
      them, or appends exactly one new room. */
  lemma RoomStepEffects(rooms: seq<Room>, posts: seq<Post>, me: Id, req: RoomRequest,
                        newId: Id, now: Time)
    ensures var (res, after) := RoomStep(rooms, posts, me, req, newId, now);
            && (res.Err? ==> after == rooms)
            && (res.Ok? && res.status == 201 ==>
                  after == rooms + [res.value] && res.value.id == newId && res.value.isActive)
            && (res.Ok? && res.status == 200 ==>
                  exists i :: 0 <= i < |rooms| && after == rooms[i := res.value]
                    && res.value.id == rooms[i].id && me in res.value.participants)
  {
    var (res, after) := RoomStep(rooms, posts, me, req, newId, now);
    if req.kind == Some("direct") && Present(req.targetUserId) && req.targetUserId.value != me {
      var i := DirectRoomIndex(rooms, me, req.targetUserId.value);
      if i.Some? { assert after == rooms[i.value := res.value]; }
    } else if req.kind == Some("group") && Present(req.postId) {
      var i := GroupRoomIndex(rooms, req.postId.value);
      if PostIndex(posts, req.postId.value).Some? && i.Some? {
        assert after == rooms[i.value := res.value];
      }
    }
  }

  /** The refusals of a direct request: no target, or the caller as target. */
  lemma DirectRequestRefusals(rooms: seq<Room>, posts: seq<Post>, me: Id, target: Option<string>,
                              newId: Id, now: Time)
    ensures var (res, after) := RoomStep(rooms, posts, me, RoomRequest(Some("direct"), target, None), newId, now);
            && (!Present(target) ==> res == Err(400, MissingTarget))
            && (target == Some(me) && me != "" ==> res == Err(400, SelfChat))
            && (res.Err? ==> after == rooms)
  {
  }

  /** A direct request is idempotent per unordered pair: once it has
      succeeded, asking again, by either of the two users, returns the same
      room and changes nothing. */
  lemma DirectRoomIdempotent(rooms: seq<Room>, posts: seq<Post>, me: Id, other: Id,
                             id1: Id, id2: Id, t1: Time, t2: Time)
    requires other != "" && other != me && me != ""
    ensures var (res1, rooms1) := RoomStep(rooms, posts, me, RoomRequest(Some("direct"), Some(other), None), id1, t1);
            var (res2, rooms2) := RoomStep(rooms1, posts, me, RoomRequest(Some("direct"), Some(other), None), id2, t2);
            var (res3, rooms3) := RoomStep(rooms1, posts, other, RoomRequest(Some("direct"), Some(me), None), id2, t2);
            && res1.Ok?
            && res2 == Ok(200, res1.value) && rooms2 == rooms1
            && res3 == Ok(200, res1.value) && rooms3 == rooms1
            && IsDirectRoomOf(res1.value, me, other)
  {
    var (res1, rooms1) := RoomStep(rooms, posts, me, RoomRequest(Some("direct"), Some(other), None), id1, t1);
    DirectRoomIndexSymmetric(rooms1, me, other);
    match DirectRoomIndex(rooms, me, other)
    case Some(i) =>
    case None =>
      var room := NewRoom(id1, Direct, None, [me, other], "", t1);
      assert rooms1 == rooms + [room];
      assert IsDirectRoomOf(room, me, other);
      FirstIndexAppend(rooms, room, (r: Room) => IsDirectRoomOf(r, me, other));
  }

  /** A group request is idempotent per post: once it has succeeded for a
      user, asking again returns the same room, with the user among its
      participants, and changes nothing. */
  lemma GroupRoomIdempotent(rooms: seq<Room>, posts: seq<Post>, me: Id, postId: Id,
                            id1: Id, id2: Id, t1: Time, t2: Time)
    requires postId != "" && PostIndex(posts, postId).Some?
    ensures var req := RoomRequest(Some("group"), None, Some(postId));
            var (res1, rooms1) := RoomStep(rooms, posts, me, req, id1, t1);
            var (res2, rooms2) := RoomStep(rooms1, posts, me, req, id2, t2);
            && res1.Ok? && IsGroupRoomOf(res1.value, postId) && me in res1.value.participants
            && res2 == Ok(200, res1.value) && rooms2 == rooms1
  {
    var req := RoomRequest(Some("group"), None, Some(postId));
    var (res1, rooms1) := RoomStep(rooms, posts, me, req, id1, t1);
    var p := PostIndex(posts, postId).value;
    match GroupRoomIndex(rooms, postId)
    case Some(i) =>
      var found := GroupRoomIndex(rooms1, postId);
      FirstIndexUpdate(rooms, i, res1.value, (r: Room) => IsGroupRoomOf(r, postId));
      assert found == Some(i);
    case None =>
      var room := NewRoom(id1, Group, Some(postId), [me], posts[p].title, t1);
      assert rooms1 == rooms + [room];
      FirstIndexAppend(rooms, room, (r: Room) => IsGroupRoomOf(r, postId));
  }

  /** A group request never gives a room a duplicate participant: the caller
      is appended only when absent, and a new group room starts with the
      caller alone. */
  lemma GroupJoinNoDuplicates(rooms: seq<Room>, posts: seq<Post>, me: Id, postId: Id,
                              newId: Id, now: Time)
    requires forall i :: 0 <= i < |rooms| ==> NoDuplicates(rooms[i].participants)
    ensures var (res, after) := RoomStep(rooms, posts, me, RoomRequest(Some("group"), None, Some(postId)), newId, now);
            forall i :: 0 <= i < |after| ==> NoDuplicates(after[i].participants)
  {
    var (res, after) := RoomStep(rooms, posts, me, RoomRequest(Some("group"), None, Some(postId)), newId, now);
    if Present(Some(postId)) && PostIndex(posts, postId).Some? {
      match GroupRoomIndex(rooms, postId)
      case Some(i) =>
        var ps := rooms[i].participants;
        if me !in ps {
          assert after[i].participants == ps + [me];
          forall a, b | 0 <= a < b < |ps + [me]| ensures (ps + [me])[a] != (ps + [me])[b] {
            if b == |ps| { assert (ps + [me])[a] == ps[a]; }
          }
          forall k | 0 <= k < |after| ensures NoDuplicates(after[k].participants) {
            if k != i { assert after[k] == rooms[k]; }
          }
        }
      case None =>
        assert after[|rooms|].participants == [me];
        forall k | 0 <= k < |after| ensures NoDuplicates(after[k].participants) {
          if k < |rooms| { assert after[k] == rooms[k]; }
        }
    }
  }

  /** Rooms are never removed and participants never dropped: whoever took
      part in a room before a request still does afterwards. */
  lemma RoomStepKeepsMembership(rooms: seq<Room>, posts: seq<Post>, me: Id, req: RoomRequest,
                                newId: Id, now: Time, roomId: Id, user: Id)
    requires MemberRoomIndex(rooms, roomId, user).Some?
    ensures MemberRoomIndex(RoomStep(rooms, posts, me, req, newId, now).1, roomId, user).Some?
  {
    var after := RoomStep(rooms, posts, me, req, newId, now).1;
    var k := MemberRoomIndex(rooms, roomId, user).value;
    RoomStepEffects(rooms, posts, me, req, newId, now);
    assert k < |after| && IsRoomWith(after[k], roomId, user) by {
      if after != rooms && |after| == |rooms| {
        var g := GroupRoomIndex(rooms, req.postId.value).value;
        assert after == rooms[g := after[g]];
        if k == g {
          assert after[g].participants == rooms[g].participants + [me];
        }
      } else if after != rooms {
        assert after[k] == rooms[k];
      }
    }
  }

  /** A new group room is named after its post and linked to it. */
  lemma NewGroupRoomShape(rooms: seq<Room>, posts: seq<Post>, me: Id, postId: Id,
                          newId: Id, now: Time)
    requires postId != "" && GroupRoomIndex(rooms, postId).None?
    requires PostIndex(posts, postId).Some?
    ensures var (res, after) := RoomStep(rooms, posts, me, RoomRequest(Some("group"), None, Some(postId)), newId, now);
            && res.Ok? && res.status == 201
            && res.value.participants == [me] && res.value.post == Some(postId)
            && res.value.name == posts[PostIndex(posts, postId).value].title
            && after == rooms + [res.value]
  {
  }

  /** Any request type other than 'direct' and 'group' is refused. */
  lemma OtherTypeRefused(rooms: seq<Room>, posts: seq<Post>, me: Id, req: RoomRequest,
                         newId: Id, now: Time)
    requires req.kind != Some("direct") && req.kind != Some("group")
    ensures RoomStep(rooms, posts, me, req, newId, now) == (Err(400, InvalidChatType), rooms)
  {
  }

  /** `createOrGetRoom`, performed on the store: the new collection and the
      response are those `RoomStep` gives, and only the rooms change. */
  method CreateOrGetRoom(db: Db, me: Id, req: RoomRequest, newId: Id) returns (r: Response<Room>)
    requires db.Valid()
    requires forall i :: 0 <= i < |db.rooms| ==> db.rooms[i].id != newId
    modifies db`rooms
    ensures db.Valid()
    ensures (r, db.rooms) == RoomStep(old(db.rooms), db.posts, me, req, newId, db.now)
  {
    if req.kind == Some("direct") {
      if !Present(req.targetUserId) {
        return Err(400, MissingTarget);
      }
      var other := req.targetUserId.value;
      if other == me {
        return Err(400, SelfChat);
      }
      var existing := DirectRoomIndex(db.rooms, me, other);
      if existing.Some? {
        return Ok(200, db.rooms[existing.value]);
      }
      var room := NewRoom(newId, Direct, None, [me, other], "", db.now);
      AppendRoomValid(db.rooms, room);
      db.rooms := db.rooms + [room];
      return Ok(201, room);
    }
    if req.kind == Some("group") {
      if !Present(req.postId) {
        return Err(400, MissingPostId);
      }
      var postId := req.postId.value;
      var post := PostIndex(db.posts, postId);
      if post.None? {
        return Err(404, PostNotFound);
      }
      var existing := GroupRoomIndex(db.rooms, postId);
      if existing.Some? {
        var i := existing.value;
        var room := db.rooms[i];
        if me !in room.participants {
          room := room.(participants := room.participants + [me], updatedAt := db.now);
          UpdateRoomValid(db.rooms, i, room);
          db.rooms := db.rooms[i := room];
        }
        return Ok(200, room);
      }
      var room := NewRoom(newId, Group, Some(postId), [me], db.posts[post.value].title, db.now);
      AppendRoomValid(db.rooms, room);
      db.rooms := db.rooms + [room];
      return Ok(201, room);
    }
    return Err(400, InvalidChatType);
  }

  lemma AppendRoomValid(rooms: seq<Room>, room: Room)
    requires RoomsValid(rooms) && forall i :: 0 <= i < |rooms| ==> rooms[i].id != room.id
    ensures RoomsValid(rooms + [room])
  {
  }

  lemma UpdateRoomValid(rooms: seq<Room>, i: nat, room: Room)
    requires RoomsValid(rooms) && i < |rooms| && room.id == rooms[i].id
    ensures RoomsValid(rooms[i := room])
  {
    var t := rooms[i := room];
    forall a, b | 0 <= a < b < |t| ensures t[a].id != t[b].id {
      assert t[a].id == rooms[a].id && t[b].id == rooms[b].id;
    }
  }

  // ---------------------------------------------------------------------
  // getMyRooms

  /** The order of the room list: `lastMessage.timestamp` descending (rooms
      without a last message last), then `updatedAt` descending. `RanksBefore(a, b)`
      says `a` may be listed before `b`. */
  predicate RanksBefore(a: Room, b: Room)
  {
    match (a.lastMessage, b.lastMessage)
    case (Some(x), None) => true
    case (None, Some(y)) => false
    case (Some(x), Some(y)) =>
      x.timestamp > y.timestamp || (x.timestamp == y.timestamp && a.updatedAt >= b.updatedAt)
    case (None, None) => a.updatedAt >= b.updatedAt
  }

  lemma RanksTotal(a: Room, b: Room)
    ensures RanksBefore(a, b) || RanksBefore(b, a)
  {
  }

  lemma RanksTransitive(a: Room, b: Room, c: Room)
    requires RanksBefore(a, b) && RanksBefore(b, c)
    ensures RanksBefore(a, c)
  {
  }

  predicate Ranked(s: seq<Room>)
  {
    forall i, j :: 0 <= i < j < |s| ==> RanksBefore(s[i], s[j])
  }

  /** Insert `x` in front of the first element it ranks before. */
  function Insert(x: Room, s: seq<Room>): (r: seq<Room>)
    requires Ranked(s)
    ensures Ranked(r)
    ensures multiset(r) == multiset(s) + multiset{x}
  {
    if s == [] then [x]
    else if RanksBefore(x, s[0]) then
      InsertFrontRanked(x, s);
      [x] + s
    else
      RanksTotal(x, s[0]);
      var rest := Insert(x, s[1..]);
      assert multiset(s) == multiset{s[0]} + multiset(s[1..]) by {
        assert s == [s[0]] + s[1..];
      }
      InsertBehindRanked(s[0], rest, x, s[1..]);
      [s[0]] + rest
  }

  lemma InsertFrontRanked(x: Room, s: seq<Room>)
    requires Ranked(s) && s != [] && RanksBefore(x, s[0])
    ensures Ranked([x] + s)
  {
    var t := [x] + s;
    forall i, j | 0 <= i < j < |t| ensures RanksBefore(t[i], t[j]) {
      if i == 0 && j > 1 { RanksTransitive(x, s[0], s[j - 1]); }
    }
  }

  lemma InsertBehindRanked(h: Room, rest: seq<Room>, x: Room, tail: seq<Room>)
    requires Ranked(rest) && Ranked([h] + tail) && RanksBefore(h, x)
    requires multiset(rest) == multiset(tail) + multiset{x}
    ensures Ranked([h] + rest)
  {
    var t := [h] + rest;
    forall i, j | 0 <= i < j < |t| ensures RanksBefore(t[i], t[j]) {
      if i > 0 {
        assert t[i] == rest[i - 1] && t[j] == rest[j - 1];
      } else {
        var y := rest[j - 1];
        assert t[0] == h && t[j] == y;
        assert y in rest;
        assert y in multiset(rest);
        if y != x {
          assert y in multiset(tail);
          var k :| 0 <= k < |tail| && tail[k] == y;
          var ht := [h] + tail;
          assert ht[0] == h && ht[k + 1] == y;
          assert RanksBefore(ht[0], ht[k + 1]);
        }
      }
    }
  }

  /** Insertion sort into list order. */
  function SortRooms(s: seq<Room>): (r: seq<Room>)
    ensures Ranked(r)
    ensures multiset(r) == multiset(s)
  {
    if s == [] then []
    else
      assert s == [s[0]] + s[1..];
      Insert(s[0], SortRooms(s[1..]))
  }

  predicate ListedFor(r: Room, me: Id)
  {
    me in r.participants && r.isActive
  }

  /** `getMyRooms`: the caller's active rooms, in list order. It holds
      exactly the active rooms the caller takes part in, each as often as it
      is stored. */
  function MyRooms(rooms: seq<Room>, me: Id): (r: seq<Room>)
    ensures Ranked(r)
    ensures multiset(r) == multiset(Filter(rooms, (x: Room) => ListedFor(x, me)))
    ensures forall x :: x in r <==> x in rooms && ListedFor(x, me)
  {
    var mine := Filter(rooms, (x: Room) => ListedFor(x, me));
    var r := SortRooms(mine);
    assert forall x :: x in r <==> x in multiset(mine);
    r
  }

  // ---------------------------------------------------------------------
  // getMessages

  /** A room's messages in natural order, which is chronological. */
  function RoomMessages(messages: seq<Message>, roomId: Id): seq<Message>
  {
    Filter(messages, (m: Message) => m.roomId == roomId)
  }

  /** The history page a query selects: `sort({createdAt: -1})`,
      `skip((page - 1) * limit)`, `limit(limit)`, then reversed. A negative
      offset is refused by the store. */
  function HistoryPage(messages: seq<Message>, roomId: Id, page: nat, limit: nat): Option<seq<Message>>
  {
    var skip := SkipFor(page, limit);
    if skip < 0 then None
    else Some(Reverse(Paginate(Reverse(RoomMessages(messages, roomId)), skip, limit)))
  }

  /** A page is the slice of the room's history that ends `(page - 1) * limit`
      messages before the newest and holds at most `limit` messages (all the
      rest when the limit is 0). */
  lemma HistoryPageWindow(messages: seq<Message>, roomId: Id, page: nat, limit: nat)
    requires page >= 1
    ensures var h := RoomMessages(messages, roomId);
            var skip := SkipFor(page, limit);
            var hi := |h| - Min(skip, |h|);
            var lo := if limit == 0 then 0 else hi - Min(limit, hi);
            HistoryPage(messages, roomId, page, limit) == Some(h[lo..hi])
  {
    NewestFirstWindow(RoomMessages(messages, roomId), SkipFor(page, limit), limit);
  }

  predicate Chronological(s: seq<Message>)
  {
    forall i, j :: 0 <= i < j < |s| ==> s[i].createdAt <= s[j].createdAt
  }

  /** A sub-sequence of a chronological log is chronological. */
  lemma {:induction false} FilterChronological(s: seq<Message>, p: Message -> bool)
    requires Chronological(s)
    ensures Chronological(Filter(s, p))
  {
    if s != [] {
      FilterChronological(s[1..], p);
      var rest := Filter(s[1..], p);
      if p(s[0]) {
        forall j | 0 <= j < |rest| ensures s[0].createdAt <= rest[j].createdAt {
          assert rest[j] in s[1..];
        }
      }
    }
  }

  /** Page `page + 1` ends where page `page` starts. */
  lemma AdjacentPages(messages: seq<Message>, roomId: Id, page: nat, limit: nat)
    returns (lo: nat, mid: nat, hi: nat)
    requires page >= 1 && limit > 0
    ensures lo <= mid <= hi <= |RoomMessages(messages, roomId)|
    ensures HistoryPage(messages, roomId, page, limit) == Some(RoomMessages(messages, roomId)[mid..hi])
    ensures HistoryPage(messages, roomId, page + 1, limit) == Some(RoomMessages(messages, roomId)[lo..mid])
  {
    var h := RoomMessages(messages, roomId);
    HistoryPageWindow(messages, roomId, page, limit);
    HistoryPageWindow(messages, roomId, page + 1, limit);
    var skip := SkipFor(page, limit);
    assert SkipFor(page + 1, limit) == skip + limit;
    hi := |h| - Min(skip, |h|);
    mid := hi - Min(limit, hi);
    lo := mid - Min(limit, mid);
    assert |h| - Min(skip + limit, |h|) == mid;
  }

  /** Every page is in ascending time order, and the next page back holds
      only messages at least as old as this page's oldest: together the two
      pages are one contiguous stretch of the history. */
  lemma HistoryPagesOrdered(messages: seq<Message>, roomId: Id, page: nat, limit: nat)
    requires page >= 1 && limit > 0
    requires Chronological(messages)
    ensures var cur := HistoryPage(messages, roomId, page, limit).value;
            var older := HistoryPage(messages, roomId, page + 1, limit).value;
            var h := RoomMessages(messages, roomId);
            && Chronological(cur)
            && (exists lo, hi :: 0 <= lo <= hi <= |h| && older + cur == h[lo..hi])
            && (forall a, b :: 0 <= a < |older| && 0 <= b < |cur| ==>
                  older[a].createdAt <= cur[b].createdAt)
  {
    var h := RoomMessages(messages, roomId);
    FilterChronological(messages, (m: Message) => m.roomId == roomId);
    var lo, mid, hi := AdjacentPages(messages, roomId, page, limit);
    var cur := h[mid..hi];
    var older := h[lo..mid];
    assert older + cur == h[lo..hi];
    forall a, b | 0 <= a < |older| && 0 <= b < |cur|
      ensures older[a].createdAt <= cur[b].createdAt
    {
      assert older[a] == h[lo + a] && cur[b] == h[mid + b];
    }
    forall a, b | 0 <= a < b < |cur| ensures cur[a].createdAt <= cur[b].createdAt {
      assert cur[a] == h[mid + a] && cur[b] == h[mid + b];
    }
  }

  /** Every message of a window of a room's history belongs to that room. */
  lemma WindowInRoom(messages: seq<Message>, roomId: Id, skip: nat, limit: nat)
    ensures forall m :: m in Reverse(Paginate(Reverse(RoomMessages(messages, roomId)), skip, limit)) ==>
              m in messages && m.roomId == roomId
  {
    var h := RoomMessages(messages, roomId);
    NewestFirstWindow(h, skip, limit);
    var ms := Reverse(Paginate(Reverse(h), skip, limit));
    forall m | m in ms ensures m in h {
      var k :| 0 <= k < |ms| && ms[k] == m;
    }
  }

  /** `getMessages`: 404 unless the caller takes part in the room; a
      negative offset is a store error; otherwise the page. Defaults are
      page 1 and 50 messages. */
  function GetMessages(rooms: seq<Room>, messages: seq<Message>, me: Id, roomId: Id,
                       page: Option<nat>, limit: Option<nat>): (r: Response<seq<Message>>)
    ensures r == Err(404, RoomNotFound) <==> MemberRoomIndex(rooms, roomId, me).None?
    ensures r.Ok? ==> r.status == 200 && forall m :: m in r.value ==> m in messages && m.roomId == roomId
    ensures r.Ok? ==> Some(r.value) == HistoryPage(messages, roomId, if page.Some? then page.value else 1,
                                                   if limit.Some? then limit.value else 50)
    ensures r.Ok? <==> MemberRoomIndex(rooms, roomId, me).Some?
                       && (page.None? || page.value >= 1 || limit == Some(0))
  {
    var pg := if page.Some? then page.value else 1;
    var lim := if limit.Some? then limit.value else 50;
    if MemberRoomIndex(rooms, roomId, me).None? then Err(404, RoomNotFound)
    else if SkipFor(pg, lim) < 0 then Err(500, ServerError)
    else
      var ms := Reverse(Paginate(Reverse(RoomMessages(messages, roomId)), SkipFor(pg, lim), lim));
      WindowInRoom(messages, roomId, SkipFor(pg, lim), lim);
      Ok(200, ms)
  }
}
