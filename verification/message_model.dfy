/** The chat message record. */
module MessageModel {
  import opened Common
  import opened Text

  const MaxContent: nat := 2000

  /** `isRead` and `readBy` are stored but no handler changes them. */
  datatype Message = Message(
    id: Id,
    roomId: Id,
    sender: Id,
    content: string,
    isRead: bool,
    readBy: seq<Id>,
    createdAt: Time)

  /** `content` is required (so non-empty) and at most 2000 UTF-16 code
      units long. */
  predicate ValidMessage(m: Message)
  {
    m.content != "" && Utf16Length(m.content) <= MaxContent
  }

  /** The document `Message.create` builds: unread, read by nobody. */
  function NewMessage(id: Id, roomId: Id, sender: Id, content: string, now: Time): (m: Message)
    ensures ValidMessage(m) <==> content != "" && Utf16Length(content) <= MaxContent
    ensures !m.isRead && m.readBy == []
    ensures m.roomId == roomId && m.sender == sender && m.content == content && m.createdAt == now
  {
    Message(id, roomId, sender, content, false, [], now)
  }
}
