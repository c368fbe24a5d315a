/** The chat room record: a direct (two-person) or group room, its
    participants, the post a group room belongs to and the summary of the
    last message sent in it. */
module ChatRoomModel {
  import opened Common

  datatype RoomType = Direct | Group

  datatype LastMessage = LastMessage(content: string, sender: Id, timestamp: Time)

  /** The schema keeps `participants` as a list and enforces no uniqueness;
      `updatedAt` is the automatic timestamp. */
  datatype Room = Room(
    id: Id,
    kind: RoomType,
    post: Option<Id>,
    participants: seq<Id>,
    name: string,
    lastMessage: Option<LastMessage>,
    isActive: bool,
    updatedAt: Time)

  /** A freshly created room: active, with no last message. */
  function NewRoom(id: Id, kind: RoomType, post: Option<Id>, participants: seq<Id>,
                   name: string, now: Time): (r: Room)
    ensures r.isActive && r.lastMessage.None?
    ensures r.id == id && r.kind == kind && r.post == post
    ensures r.participants == participants && r.name == name
  {
    Room(id, kind, post, participants, name, None, true, now)
  }
}
