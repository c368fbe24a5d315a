/** The realtime chat protocol: a token handshake opens a session, and the
    `join_room`, `leave_room`, `send_message` and `typing` events act on the
    room store, the message log and each connection's set of joined rooms.
    Each event is one atomic step; what the server emits is appended to an
    outbox together with the set of connections it reaches. */
module ChatSocket {
  import opened Common
  import opened Text
  import opened Collections
  import opened UserModel
  import opened ChatRoomModel
  import opened MessageModel
  import opened Store
  import opened AuthMiddleware
  import opened ChatController

  /** A socket connection. */
  type ConnId = nat

  /** What the handshake keeps of the user (`select('name profileImage _id')`). */
  datatype Session = Session(user: Id, name: string, profileImage: string)

  /** The sender of a message as the store holds them when it is sent. */
  datatype SenderInfo = SenderInfo(id: Id, name: string, profileImage: string)

  /** The events the server emits. `ErrorEvent` is the `error` event with
      the reason for its message. */
  datatype Event =
    | ErrorEvent(reason: Reason)
    | JoinedRoom(roomId: Id)
    | NewMessageEvent(message: Message, sender: Option<SenderInfo>)
    | UserTyping(userId: Id, name: string, isTyping: Scalar)

  /** One emission: the event and the connections it reaches. */
  datatype Emission = Emission(to: set<ConnId>, event: Event)

  datatype Handshake = Accepted(session: Session) | Refused(reason: Reason)

  /** The handshake middleware: a token is required, it must verify (an
      expired token is as invalid as any other here), and its user must
      exist. Suspension is not checked. */
  function CheckHandshake(users: seq<User>, token: Option<string>, verify: string -> Verdict): (h: Handshake)
    ensures !Present(token) ==> h == Refused(TokenRequired)
    ensures Present(token) && !verify(token.value).Verified? ==> h == Refused(TokenInvalid)
    ensures h.Accepted? <==>
              Present(token) && verify(token.value).Verified?
              && UserIndex(users, verify(token.value).userId).Some?
    ensures h.Accepted? ==>
              var u := users[UserIndex(users, verify(token.value).userId).value];
              h.session == Session(u.id, u.name, u.profileImage)
    ensures h.Refused? ==> h.reason in {TokenRequired, TokenInvalid, UserInvalid}
  {
    if !Present(token) then Refused(TokenRequired)
    else match verify(token.value)
      case Verified(id) =>
        (match UserIndex(users, id)
         case None => Refused(UserInvalid)
         case Some(i) => Accepted(Session(users[i].id, users[i].name, users[i].profileImage)))
      case _ => Refused(TokenInvalid)
  }

  /** The sender `populate` finds: the stored user with that id, if any. */
  function SenderOf(users: seq<User>, id: Id): (r: Option<SenderInfo>)
    ensures r.Some? <==> UserIndex(users, id).Some?
    ensures r.Some? ==> r.value.id == id
  {
    match UserIndex(users, id)
    case None => None
    case Some(i) => Some(SenderInfo(id, users[i].name, users[i].profileImage))
  }

  /** The text `send_message` stores: trimmed, then cut to 2000 UTF-16
      code units, keeping as many whole characters as fit. */
  function StoredContent(content: string): (r: string)
    ensures Trim(content) != "" ==> r != ""
    ensures Utf16Length(r) <= MaxContent
    ensures |r| <= |Trim(content)| && r == Trim(content)[..|r|]
    ensures Utf16Length(Trim(content)) <= MaxContent ==> r == Trim(content)
    ensures |r| < |Trim(content)| ==> MaxContent < Utf16Length(r) + CodeUnits(Trim(content)[|r|])
  {
    Utf16Prefix(Trim(content), MaxContent)
  }

  /** The room after a message is sent in it: the last-message summary is
      replaced and the update time advances. */
  function WithLastMessage(r: Room, m: Message): (v: Room)
    ensures v.lastMessage == Some(LastMessage(m.content, m.sender, m.createdAt))
    ensures v.id == r.id && v.participants == r.participants && v.kind == r.kind
    ensures v.post == r.post && v.name == r.name && v.isActive == r.isActive
    ensures v.updatedAt == m.createdAt
  {
    r.(lastMessage := Some(LastMessage(m.content, m.sender, m.createdAt)), updatedAt := m.createdAt)
  }

  class ChatServer {
    const db: Db
    var sessions: map<ConnId, Session>
    /** The socket.io rooms each connection has joined. */
    var joined: map<ConnId, set<Id>>
    var outbox: seq<Emission>

    /** Every connection has a joined set, and it holds only rooms whose
        participants included the connection's user when it joined. */
    ghost predicate Valid()
      reads this, db
    {
      && db.Valid()
      && joined.Keys == sessions.Keys
      && SubscriptionsAuthorized()
    }

    ghost predicate SubscriptionsAuthorized()
      reads this, db
    {
      forall c, r :: c in joined && r in joined[c] ==>
        c in sessions && MemberRoomIndex(db.rooms, r, sessions[c].user).Some?
    }

    /** The connections `io.to(roomId)` reaches. */
    function Group(roomId: Id): set<ConnId>
      reads this
    {
      set c | c in joined && roomId in joined[c]
    }

    constructor (store: Db)
      requires store.Valid()
      ensures Valid() && db == store
      ensures sessions == map[] && joined == map[] && outbox == []
    {
      db := store;
      sessions, joined, outbox := map[], map[], [];
    }

    /** Only participants of a room can receive what is emitted to it. */
    lemma GroupHoldsMembers(roomId: Id)
      requires Valid()
      ensures forall d :: d in Group(roomId) ==>
                d in sessions && MemberRoomIndex(db.rooms, roomId, sessions[d].user).Some?
    {
    }

    /** The handshake: an accepted connection gets a session and an empty set
        of joined rooms; a refused one gets nothing. */
    method Connect(c: ConnId, token: Option<string>, verify: string -> Verdict) returns (h: Handshake)
      requires Valid() && c !in sessions
      modifies this`sessions, this`joined
      ensures Valid()
      ensures h == CheckHandshake(db.users, token, verify)
      ensures h.Accepted? ==> sessions == old(sessions)[c := h.session] && joined == old(joined)[c := {}]
      ensures h.Refused? ==> sessions == old(sessions) && joined == old(joined)
    {
      h := CheckHandshake(db.users, token, verify);
      if h.Accepted? {
        sessions := sessions[c := h.session];
        joined := joined[c := {}];
      }
    }

    /** `join_room`: a participant's connection joins the room and is told
        so; anyone else gets an error and joins nothing. Both answers go to
        the requester only. */
    method JoinRoom(c: ConnId, roomId: Id)
      requires Valid() && c in sessions
      modifies this`joined, this`outbox
      ensures Valid()
      ensures MemberRoomIndex(db.rooms, roomId, sessions[c].user).Some? ==>
                && joined == old(joined)[c := old(joined)[c] + {roomId}]
                && outbox == old(outbox) + [Emission({c}, JoinedRoom(roomId))]
      ensures MemberRoomIndex(db.rooms, roomId, sessions[c].user).None? ==>
                && joined == old(joined)
                && outbox == old(outbox) + [Emission({c}, ErrorEvent(RoomAccessDenied))]
    {
      if MemberRoomIndex(db.rooms, roomId, sessions[c].user).None? {
        outbox := outbox + [Emission({c}, ErrorEvent(RoomAccessDenied))];
        return;
      }
      joined := joined[c := joined[c] + {roomId}];
      outbox := outbox + [Emission({c}, JoinedRoom(roomId))];
    }

    /** `leave_room`: no check and no answer; leaving twice is leaving once. */
    method LeaveRoom(c: ConnId, roomId: Id)
      requires Valid() && c in sessions
      modifies this`joined
      ensures Valid()
      ensures joined == old(joined)[c := old(joined)[c] - {roomId}]
      ensures roomId !in joined[c] && c !in Group(roomId)
    {
      joined := joined[c := joined[c] - {roomId}];
    }

    /** `send_message`. Content that is absent or blank after trimming is
        dropped silently; a sender who is not a participant gets an error;
        otherwise the trimmed, capped content is stored as a new message,
        the room's last-message summary is replaced and the message is
        emitted to every connection that joined the room, the sender's
        included when it joined. */
    method SendMessage(c: ConnId, roomId: Id, content: Option<string>, newId: Id)
      requires Valid() && c in sessions
      modifies this`outbox, db`messages, db`rooms
      ensures Valid()
      ensures content.None? || Trim(content.value) == "" ==>
                && outbox == old(outbox) && db.messages == old(db.messages) && db.rooms == old(db.rooms)
      ensures content.Some? && Trim(content.value) != ""
              && MemberRoomIndex(old(db.rooms), roomId, sessions[c].user).None? ==>
                && outbox == old(outbox) + [Emission({c}, ErrorEvent(RoomAccessDenied))]
                && db.messages == old(db.messages) && db.rooms == old(db.rooms)
      ensures content.Some? && Trim(content.value) != ""
              && MemberRoomIndex(old(db.rooms), roomId, sessions[c].user).Some? ==>
                var m := NewMessage(newId, roomId, sessions[c].user, StoredContent(content.value), db.now);
                var i := RoomIndex(old(db.rooms), roomId).value;
                && RoomIndex(old(db.rooms), roomId).Some?
                && db.messages == old(db.messages) + [m]
                && db.rooms == old(db.rooms)[i := WithLastMessage(old(db.rooms)[i], m)]
                && outbox == old(outbox) + [Emission(Group(roomId), NewMessageEvent(m, SenderOf(db.users, m.sender)))]
                && (c in Group(roomId) <==> roomId in joined[c])
    {
      if content.None? || Trim(content.value) == "" {
        return;
      }
      var user := sessions[c].user;
      var member := MemberRoomIndex(db.rooms, roomId, user);
      if member.None? {
        outbox := outbox + [Emission({c}, ErrorEvent(RoomAccessDenied))];
        return;
      }
      var stored := StoredContent(content.value);
      assert stored != "" && Utf16Length(stored) <= MaxContent;
      var m := NewMessage(newId, roomId, user, stored, db.now);
      assert ValidMessage(m);
      db.AppendMessage(m);
      var i := RoomIndex(db.rooms, roomId).value;
      var room := WithLastMessage(db.rooms[i], m);
      UpdateRoomValid(db.rooms, i, room);
      MembershipAfterUpdate(db.rooms, i, room);
      db.rooms := db.rooms[i := room];
      outbox := outbox + [Emission(Group(roomId), NewMessageEvent(m, SenderOf(db.users, user)))];
    }

    /** `typing`: the indicator goes to every other connection in the room,
        with no membership check on the sender. */
    method Typing(c: ConnId, roomId: Id, isTyping: Scalar)
      requires Valid() && c in sessions
      modifies this`outbox
      ensures Valid()
      ensures outbox == old(outbox) +
                [Emission(Group(roomId) - {c}, UserTyping(sessions[c].user, sessions[c].name, isTyping))]
      ensures c !in outbox[|outbox| - 1].to
    {
      outbox := outbox + [Emission(Group(roomId) - {c}, UserTyping(sessions[c].user, sessions[c].name, isTyping))];
    }

    /** A closed connection leaves every room and its session ends. */
    method Disconnect(c: ConnId)
      requires Valid() && c in sessions
      modifies this`sessions, this`joined
      ensures Valid()
      ensures sessions == old(sessions) - {c} && joined == old(joined) - {c}
      ensures forall r :: c !in Group(r)
    {
      sessions := sessions - {c};
      joined := joined - {c};
    }
  }

  /** Replacing a room by one with the same id and participants keeps
      everyone's membership. */
  lemma MembershipAfterUpdate(rooms: seq<Room>, i: nat, v: Room)
    requires i < |rooms| && v.id == rooms[i].id && v.participants == rooms[i].participants
    ensures forall r, u :: MemberRoomIndex(rooms[i := v], r, u) == MemberRoomIndex(rooms, r, u)
  {
    forall r, u ensures MemberRoomIndex(rooms[i := v], r, u) == MemberRoomIndex(rooms, r, u) {
      FirstIndexUpdateSame(rooms, i, v, (x: Room) => IsRoomWith(x, r, u));
    }
  }
}
