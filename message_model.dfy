/** The Message schema of models/Message.js: required sender and receiver
    references, required content stored trimmed, a `read` flag that defaults
    to false, and the `createdAt`/`updatedAt` timestamps the schema option
    adds. Times are milliseconds since the epoch, supplied by the caller. */
module MessageModel {
  import opened Basics
  import opened Strings

  datatype Message = Message(
    id: Id,
    sender: Id,
    receiver: Id,
    content: string,
    read: bool,
    createdAt: int,
    updatedAt: int)

  /** What the schema accepts and keeps: content that is non-empty (the
      `required` validator rejects "") and already trimmed (the `trim`
      setter). Sender and receiver are always present, since every record
      carries both. */
  predicate WellFormed(m: Message) {
    m.content != "" && Trimmed(m.content)
  }

  /** `Message.create({sender, receiver, content})` at time `now`: the schema
      trims the content, `read` takes its default, and both timestamps are
      set to `now`. The stored content is the trimmed input; a record made
      from content that is not all whitespace is well-formed, and content
      that is already trimmed is stored exactly as given. */
  function Create(id: Id, sender: Id, receiver: Id, content: string, now: int): (m: Message)
    ensures m.id == id && m.sender == sender && m.receiver == receiver
    ensures !m.read
    ensures m.createdAt == now && m.updatedAt == now
    ensures m.content == Trim(content)
    ensures !AllSpace(content) ==> WellFormed(m)
    ensures Trimmed(content) ==> m.content == content
  {
    TrimIdempotent(content);
    Message(id, sender, receiver, Trim(content), false, now, now)
  }

  /** The record after `message.read = true; message.save()` at time `now`:
      the flag is set and the `timestamps` option refreshes `updatedAt`;
      nothing else changes. */
  function AsRead(m: Message, now: int): (r: Message)
    ensures r.read
    ensures SameIdentity(m, r)
    ensures WellFormed(m) ==> WellFormed(r)
  {
    m.(read := true, updatedAt := now)
  }

  /** Two records agree on everything that is fixed at creation. */
  predicate SameIdentity(a: Message, b: Message) {
    a.id == b.id && a.sender == b.sender && a.receiver == b.receiver
    && a.content == b.content && a.createdAt == b.createdAt
  }
}
