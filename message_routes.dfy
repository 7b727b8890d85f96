/** The handlers of routes/message.js over a message collection held as a
    sequence: `POST /send` (guards, then one `Message.create`), `PATCH
    /read/:messageId` (four guards, then `read = true` on one record), and the
    two listings, each behind the access gate. `mongoose.Types.ObjectId.isValid`
    is the parameter `isObjectId`; the identifier the store gives a new record
    and the clock are the parameters `newId` and `now`. */
module MessageRoutes {
  import opened Basics
  import opened Strings
  import opened AccessGate
  import opened MessageValidator
  import opened MessageModel
  import opened MessageQueries

  // ---------------------------------------------------------------------------
  // The store and its invariant
  // ---------------------------------------------------------------------------

  /** No two records share an `_id`. */
  predicate UniqueIds(ms: seq<Message>) {
    forall i, j :: 0 <= i < j < |ms| ==> ms[i].id != ms[j].id
  }

  /** What every record the handlers create satisfies: ids are unique, each
      record is well-formed, and no record's receiver id is the same string
      as its sender id. */
  predicate StoreInvariant(ms: seq<Message>) {
    UniqueIds(ms)
    && forall k :: 0 <= k < |ms| ==> WellFormed(ms[k]) && ms[k].sender != ms[k].receiver
  }

  /** `after` keeps every record of `before` in place with the same identity
      and never turns a read flag back to false. */
  predicate History(before: seq<Message>, after: seq<Message>) {
    |before| <= |after|
    && forall k :: 0 <= k < |before| ==>
         SameIdentity(before[k], after[k]) && (before[k].read ==> after[k].read)
  }

  /** `Message.findById(id)`: the position of the record with that id, if any
      (the first, though with unique ids there is at most one). */
  function FindById(ms: seq<Message>, id: Id): (r: Option<nat>)
    ensures r.Some? ==> r.value < |ms| && ms[r.value].id == id
    ensures r.Some? ==> forall k :: 0 <= k < r.value ==> ms[k].id != id
    ensures r.None? <==> forall k :: 0 <= k < |ms| ==> ms[k].id != id
  {
    if ms == [] then None
    else if ms[0].id == id then Some(0)
    else
      match FindById(ms[1..], id)
      case None => None
      case Some(i) => Some(i + 1)
  }

  // ---------------------------------------------------------------------------
  // POST /send
  // ---------------------------------------------------------------------------

  /** The three 400 responses of the send handler. */
  datatype SendRefusal = ValidationFailed(errors: seq<FieldError>) | InvalidReceiver | SelfMessage {
    function Text(): string {
      match this
      case ValidationFailed(_) => ""
      case InvalidReceiver => "Invalid receiver ID"
      case SelfMessage => "You cannot send a message to yourself"
    }
  }

  /** The handler's guards, before any write: accept with the receiver and the
      sanitized content, or refuse. */
  datatype SendDecision = Accept(receiver: Id, content: string) | Refuse(reason: SendRefusal)

  /** The guards in their fixed order: validation errors first (with the whole
      list), then an invalid receiver id, then a message to oneself. An
      accepted message goes to a valid, different receiver and carries the
      trimmed, escaped, non-empty content. */
  function DecideSend(senderId: Id, receiverId: string, content: string, isObjectId: Id -> bool): (d: SendDecision)
    ensures CheckSend(receiverId, content).Invalid? <==> d.Refuse? && d.reason.ValidationFailed?
    ensures d.Refuse? && d.reason.ValidationFailed? ==> d.reason.errors == CheckSend(receiverId, content).errors
    ensures d == Refuse(InvalidReceiver) <==> CheckSend(receiverId, content).Valid? && !isObjectId(receiverId)
    ensures d == Refuse(SelfMessage) <==>
              CheckSend(receiverId, content).Valid? && isObjectId(receiverId) && senderId == receiverId
    ensures d.Accept? ==>
              && d.receiver == receiverId && d.receiver != senderId && isObjectId(d.receiver)
              && d.content == Escape(Trim(content)) && d.content != "" && Trimmed(d.content)
  {
    match CheckSend(receiverId, content)
    case Invalid(errors) => Refuse(ValidationFailed(errors))
    case Valid(receiver, text) =>
      if !isObjectId(receiver) then Refuse(InvalidReceiver)
      else if senderId == receiver then Refuse(SelfMessage)
      else Accept(receiver, text)
  }

  datatype SendResponse = Delivered(data: Message) | SendRefused(reason: SendRefusal) | SendFailed {
    function Status(): int {
      match this
      case Delivered(_) => 201
      case SendRefused(_) => 400
      case SendFailed => 500
    }
    function Text(): string {
      match this
      case Delivered(_) => "Message sent successfully"
      case SendRefused(reason) => reason.Text()
      case SendFailed => "Failed to send message"
    }
  }

  datatype SendStep = SendStep(response: SendResponse, messages: seq<Message>)

  /** One send by the authenticated `senderId`. A refusal writes nothing. An
      accepted message is created unless the store rejects it, which it does
      when the sender id cannot be cast to an ObjectId or `newId` is already
      taken (both reach the catch-all 500 and write nothing). A created
      message is appended as the one new record: sent by the caller, to the
      requested receiver, with the sanitized content, unread, stamped `now`. */
  function SendEffect(ms: seq<Message>, senderId: Id, receiverId: string, content: string,
                      isObjectId: Id -> bool, newId: Id, now: int): (s: SendStep)
    ensures s.response.Delivered? <==>
              DecideSend(senderId, receiverId, content, isObjectId).Accept?
              && isObjectId(senderId) && FindById(ms, newId).None?
    ensures s.response.SendRefused? <==> DecideSend(senderId, receiverId, content, isObjectId).Refuse?
    ensures s.response.SendRefused? ==>
              s.response.reason == DecideSend(senderId, receiverId, content, isObjectId).reason
    ensures s.response.Delivered? ==>
              && s.messages == ms + [s.response.data]
              && s.response.data.id == newId
              && s.response.data.sender == senderId
              && s.response.data.receiver == receiverId
              && s.response.data.content == Escape(Trim(content))
              && !s.response.data.read
              && s.response.data.createdAt == now && s.response.data.updatedAt == now
    ensures !s.response.Delivered? ==> s.messages == ms
  {
    match DecideSend(senderId, receiverId, content, isObjectId)
    case Refuse(reason) => SendStep(SendRefused(reason), ms)
    case Accept(receiver, text) =>
      if !isObjectId(senderId) || FindById(ms, newId).Some? then SendStep(SendFailed, ms)
      else
        var m := Create(newId, senderId, receiver, text, now);
        SendStep(Delivered(m), ms + [m])
  }

  /** Sending keeps the store invariant and the history of every record. */
  lemma SendKeepsInvariant(ms: seq<Message>, senderId: Id, receiverId: string, content: string,
                           isObjectId: Id -> bool, newId: Id, now: int)
    requires StoreInvariant(ms)
    ensures var s := SendEffect(ms, senderId, receiverId, content, isObjectId, newId, now);
            StoreInvariant(s.messages) && History(ms, s.messages)
  {
    var d := DecideSend(senderId, receiverId, content, isObjectId);
    var s := SendEffect(ms, senderId, receiverId, content, isObjectId, newId, now);
    if d.Accept? && isObjectId(senderId) && FindById(ms, newId).None? {
      var m := Create(newId, senderId, d.receiver, d.content, now);
      assert s.messages == ms + [m];
      assert WellFormed(m) && m.sender != m.receiver by {
        assert m.content == d.content;
      }
      AppendKeepsInvariant(ms, m);
    } else {
      assert s.messages == ms;
    }
  }

  lemma AppendKeepsInvariant(ms: seq<Message>, m: Message)
    requires StoreInvariant(ms)
    requires FindById(ms, m.id).None? && WellFormed(m) && m.sender != m.receiver
    ensures StoreInvariant(ms + [m]) && History(ms, ms + [m])
  {
    var ms' := ms + [m];
    assert forall k :: 0 <= k < |ms| ==> ms'[k] == ms[k];
    assert ms'[|ms|] == m;
  }

  /** A send whose receiver id is the same string as the sender's id creates
      nothing, whatever the content and the other ids. */
  lemma NoSelfMessage(user: Id, content: string, isObjectId: Id -> bool, newId: Id, now: int, ms: seq<Message>)
    ensures var s := SendEffect(ms, user, user, content, isObjectId, newId, now);
            !s.response.Delivered? && s.messages == ms
    ensures CheckSend(user, content).Valid? && isObjectId(user) ==>
              SendEffect(ms, user, user, content, isObjectId, newId, now).response == SendRefused(SelfMessage)
  {
  }

  /** A valid send to someone else with content that is not empty after
      trimming and counts at most 500 succeeds, given a store that accepts
      the record, and the new message is unread. */
  lemma ValidSendSucceeds(ms: seq<Message>, senderId: Id, receiverId: string, content: string,
                          isObjectId: Id -> bool, newId: Id, now: int)
    requires receiverId != "" && isObjectId(receiverId) && isObjectId(senderId) && senderId != receiverId
    requires Trim(content) != "" && CountedLength(Trim(content)) <= MaxContentLength
    requires FindById(ms, newId).None?
    ensures var s := SendEffect(ms, senderId, receiverId, content, isObjectId, newId, now);
            s.response.Delivered? && !s.response.data.read && |s.messages| == |ms| + 1
  {
  }

  // ---------------------------------------------------------------------------
  // PATCH /read/:messageId
  // ---------------------------------------------------------------------------

  /** The four refusals of the read handler. */
  datatype ReadRefusal = InvalidId | NotFound | NotReceiver | AlreadyRead {
    function Status(): int {
      match this
      case InvalidId => 400
      case NotFound => 404
      case NotReceiver => 403
      case AlreadyRead => 400
    }
    function Text(): string {
      match this
      case InvalidId => "Invalid message ID"
      case NotFound => "Message not found"
      case NotReceiver => "You are not allowed to mark this message as read"
      case AlreadyRead => "Message already marked as read"
    }
  }

  datatype ReadDecision = Allow(index: nat) | Deny(reason: ReadRefusal)

  /** The guards in their fixed order: an id that is not an ObjectId, then a
      missing message, then a caller who is not the receiver, then a message
      already read. Only the receiver of an unread message is allowed. */
  function DecideRead(ms: seq<Message>, userId: Id, messageId: string, isObjectId: Id -> bool): (d: ReadDecision)
    ensures d == Deny(InvalidId) <==> !isObjectId(messageId)
    ensures d == Deny(NotFound) <==> isObjectId(messageId) && FindById(ms, messageId).None?
    ensures d == Deny(NotReceiver) <==>
              isObjectId(messageId) && FindById(ms, messageId).Some?
              && ms[FindById(ms, messageId).value].receiver != userId
    ensures d == Deny(AlreadyRead) <==>
              isObjectId(messageId) && FindById(ms, messageId).Some?
              && ms[FindById(ms, messageId).value].receiver == userId
              && ms[FindById(ms, messageId).value].read
    ensures d.Allow? ==>
              FindById(ms, messageId) == Some(d.index) && d.index < |ms|
              && ms[d.index].receiver == userId && !ms[d.index].read
  {
    if !isObjectId(messageId) then Deny(InvalidId)
    else
      match FindById(ms, messageId)
      case None => Deny(NotFound)
      case Some(i) =>
        if ms[i].receiver != userId then Deny(NotReceiver)
        else if ms[i].read then Deny(AlreadyRead)
        else Allow(i)
  }

  datatype ReadResponse = ReadMarked(data: Message) | ReadDenied(reason: ReadRefusal) {
    function Status(): int {
      match this
      case ReadMarked(_) => 200
      case ReadDenied(r) => r.Status()
    }
    function Text(): string {
      match this
      case ReadMarked(_) => "Message marked as read"
      case ReadDenied(r) => r.Text()
    }
  }

  datatype ReadStep = ReadStep(response: ReadResponse, messages: seq<Message>)

  /** One mark-read request by `userId` at time `now`. When allowed, the one
      record with that id gets `read = true` and a fresh `updatedAt`, every
      other record stays as it was, and the response carries the updated
      record; when refused, nothing changes. */
  function MarkReadEffect(ms: seq<Message>, userId: Id, messageId: string, isObjectId: Id -> bool, now: int): (s: ReadStep)
    ensures s.response.ReadDenied? <==> DecideRead(ms, userId, messageId, isObjectId).Deny?
    ensures s.response.ReadDenied? ==>
              s.response.reason == DecideRead(ms, userId, messageId, isObjectId).reason && s.messages == ms
    ensures s.response.ReadMarked? ==>
              var i := DecideRead(ms, userId, messageId, isObjectId).index;
              && |s.messages| == |ms|
              && s.messages[i] == s.response.data
              && s.response.data == ms[i].(read := true, updatedAt := now)
              && (forall k :: 0 <= k < |ms| && k != i ==> s.messages[k] == ms[k])
  {
    match DecideRead(ms, userId, messageId, isObjectId)
    case Deny(reason) => ReadStep(ReadDenied(reason), ms)
    case Allow(i) =>
      var m := AsRead(ms[i], now);
      ReadStep(ReadMarked(m), ms[i := m])
  }

  /** Marking read keeps the store invariant and never un-reads a message. */
  lemma MarkReadKeepsInvariant(ms: seq<Message>, userId: Id, messageId: string, isObjectId: Id -> bool, now: int)
    requires StoreInvariant(ms)
    ensures var s := MarkReadEffect(ms, userId, messageId, isObjectId, now);
            StoreInvariant(s.messages) && History(ms, s.messages) && |s.messages| == |ms|
  {
    var s := MarkReadEffect(ms, userId, messageId, isObjectId, now);
    if s.response.ReadMarked? {
      var i := DecideRead(ms, userId, messageId, isObjectId).index;
      assert forall k :: 0 <= k < |ms| ==> s.messages[k].id == ms[k].id;
    }
  }

  /** Only the receiver can have a message marked read: a successful request
      was made by the receiver, and the sender of a message (who is never its
      receiver) is refused with 403 once the id is valid and found. */
  lemma OnlyReceiverMarksRead(ms: seq<Message>, userId: Id, messageId: string, isObjectId: Id -> bool, now: int)
    requires StoreInvariant(ms)
    ensures var s := MarkReadEffect(ms, userId, messageId, isObjectId, now);
            s.response.ReadMarked? ==> s.response.data.receiver == userId
    ensures isObjectId(messageId) && FindById(ms, messageId).Some?
            && ms[FindById(ms, messageId).value].sender == userId ==>
              MarkReadEffect(ms, userId, messageId, isObjectId, now).response == ReadDenied(NotReceiver)
  {
  }

  /** Looking up by id ignores every field but the id. */
  lemma {:induction false} FindByIdSameIds(ms: seq<Message>, ms': seq<Message>, id: Id)
    requires |ms| == |ms'|
    requires forall k :: 0 <= k < |ms| ==> ms[k].id == ms'[k].id
    ensures FindById(ms, id) == FindById(ms', id)
  {
    if ms != [] {
      FindByIdSameIds(ms[1..], ms'[1..], id);
    }
  }

  /** An immediate second request for the same message gets "already read"
      and changes nothing. */
  lemma SecondMarkReadIsAlreadyRead(ms: seq<Message>, userId: Id, messageId: string,
                                    isObjectId: Id -> bool, now: int, later: int)
    requires MarkReadEffect(ms, userId, messageId, isObjectId, now).response.ReadMarked?
    ensures var ms' := MarkReadEffect(ms, userId, messageId, isObjectId, now).messages;
            var again := MarkReadEffect(ms', userId, messageId, isObjectId, later);
            again.response == ReadDenied(AlreadyRead) && again.messages == ms'
  {
    var first := MarkReadEffect(ms, userId, messageId, isObjectId, now);
    var i := DecideRead(ms, userId, messageId, isObjectId).index;
    var ms' := first.messages;
    FindByIdSameIds(ms, ms', messageId);
    assert ms'[i].read && ms'[i].receiver == userId;
  }

  // ---------------------------------------------------------------------------
  // The collection and the routes
  // ---------------------------------------------------------------------------

  /** The response of a route that sits behind the gate (and, for sending, the
      rate limiter): the gate's rejection, the limiter's rejection, or the
      handler's own response. */
  datatype Guarded<+R> = Rejected(denial: Denial) | Throttled | Handled(response: R) {
    function Status(handlerStatus: int): int {
      match this
      case Rejected(d) => d.Status()
      case Throttled => 429
      case Handled(_) => handlerStatus
    }
  }

  const ThrottledText := "Too many messages sent. Please slow down."

  class MessageStore {
    var messages: seq<Message>

    predicate Valid()
      reads this
    {
      StoreInvariant(messages)
    }

    constructor ()
      ensures Valid() && messages == []
    {
      messages := [];
    }

    /** The send handler, after the gate, the limiter and the validator chain. */
    method Send(senderId: Id, receiverId: string, content: string, isObjectId: Id -> bool, newId: Id, now: int)
      returns (resp: SendResponse)
      requires Valid()
      modifies this
      ensures Valid() && History(old(messages), messages)
      ensures var s := SendEffect(old(messages), senderId, receiverId, content, isObjectId, newId, now);
              resp == s.response && messages == s.messages
    {
      SendKeepsInvariant(messages, senderId, receiverId, content, isObjectId, newId, now);
      var decision := DecideSend(senderId, receiverId, content, isObjectId);
      match decision {
        case Refuse(reason) =>
          resp := SendRefused(reason);
        case Accept(receiver, text) =>
          if !isObjectId(senderId) || FindById(messages, newId).Some? {
            resp := SendFailed;
          } else {
            var m := Create(newId, senderId, receiver, text, now);
            messages := messages + [m];
            resp := Delivered(m);
          }
      }
    }

    /** The read handler, after the gate. */
    method MarkRead(userId: Id, messageId: string, isObjectId: Id -> bool, now: int) returns (resp: ReadResponse)
      requires Valid()
      modifies this
      ensures Valid() && History(old(messages), messages) && |messages| == |old(messages)|
      ensures var s := MarkReadEffect(old(messages), userId, messageId, isObjectId, now);
              resp == s.response && messages == s.messages
    {
      MarkReadKeepsInvariant(messages, userId, messageId, isObjectId, now);
      var decision := DecideRead(messages, userId, messageId, isObjectId);
      match decision {
        case Deny(reason) =>
          resp := ReadDenied(reason);
        case Allow(i) =>
          var m := AsRead(messages[i], now);
          messages := messages[i := m];
          resp := ReadMarked(m);
      }
    }

    /** `POST /send`: gate, then the rate limiter (whose verdict is the
      parameter `withinLimit`), then the handler with the caller's id. A
      request turned away by the gate or the limiter writes nothing. */
    method PostSend(header: Option<string>, verify: string -> VerifyResult, withinLimit: bool,
                    receiverId: string, content: string, isObjectId: Id -> bool, newId: Id, now: int)
      returns (r: Guarded<SendResponse>)
      requires Valid()
      modifies this
      ensures Valid() && History(old(messages), messages)
      ensures match Authenticate(header, verify)
        case Denied(d) => r == Rejected(d) && messages == old(messages)
        case Proceed(user) =>
          if !withinLimit then r == Throttled && messages == old(messages)
          else
            var s := SendEffect(old(messages), user.id, receiverId, content, isObjectId, newId, now);
            r == Handled(s.response) && messages == s.messages
    {
      match Authenticate(header, verify) {
        case Denied(d) =>
          r := Rejected(d);
        case Proceed(user) =>
          if !withinLimit {
            r := Throttled;
          } else {
            var resp := Send(user.id, receiverId, content, isObjectId, newId, now);
            r := Handled(resp);
          }
      }
    }

    /** `PATCH /read/:messageId`: gate, then the handler with the caller's id. */
    method PatchRead(header: Option<string>, verify: string -> VerifyResult,
                     messageId: string, isObjectId: Id -> bool, now: int)
      returns (r: Guarded<ReadResponse>)
      requires Valid()
      modifies this
      ensures Valid() && History(old(messages), messages)
      ensures match Authenticate(header, verify)
        case Denied(d) => r == Rejected(d) && messages == old(messages)
        case Proceed(user) =>
          var s := MarkReadEffect(old(messages), user.id, messageId, isObjectId, now);
          r == Handled(s.response) && messages == s.messages
    {
      match Authenticate(header, verify) {
        case Denied(d) =>
          r := Rejected(d);
        case Proceed(user) =>
          var resp := MarkRead(user.id, messageId, isObjectId, now);
          r := Handled(resp);
      }
    }

    /** `GET /inbox`: gate, then the caller's received messages. */
    function GetInbox(header: Option<string>, verify: string -> VerifyResult,
                      pageQuery: Option<int>, limitQuery: Option<int>): (r: Guarded<Listing>)
      reads this
      ensures Authenticate(header, verify).Denied? ==> r == Rejected(Authenticate(header, verify).denial)
      ensures r.Handled? ==> Authenticate(header, verify).Proceed?
      ensures r.Handled? && r.response.Listed? ==>
                forall k :: 0 <= k < |r.response.data| ==>
                  r.response.data[k].receiver == Authenticate(header, verify).user.id
      ensures Authenticate(header, verify).Proceed? ==>
                r == Handled(Inbox(messages, Authenticate(header, verify).user.id, pageQuery, limitQuery))
    {
      match Authenticate(header, verify)
      case Denied(d) => Rejected(d)
      case Proceed(user) => Handled(Inbox(messages, user.id, pageQuery, limitQuery))
    }

    /** `GET /sent`: gate, then the caller's sent messages. */
    function GetSent(header: Option<string>, verify: string -> VerifyResult,
                     pageQuery: Option<int>, limitQuery: Option<int>): (r: Guarded<Listing>)
      reads this
      ensures Authenticate(header, verify).Denied? ==> r == Rejected(Authenticate(header, verify).denial)
      ensures r.Handled? ==> Authenticate(header, verify).Proceed?
      ensures r.Handled? && r.response.Listed? ==>
                forall k :: 0 <= k < |r.response.data| ==>
                  r.response.data[k].sender == Authenticate(header, verify).user.id
      ensures Authenticate(header, verify).Proceed? ==>
                r == Handled(Sent(messages, Authenticate(header, verify).user.id, pageQuery, limitQuery))
    {
      match Authenticate(header, verify)
      case Denied(d) => Rejected(d)
      case Proceed(user) => Handled(Sent(messages, user.id, pageQuery, limitQuery))
    }
  }

  /** A client of the store: after a successful mark-read, repeating the same
      request is refused as already read. */
  method MarkReadTwice(store: MessageStore, userId: Id, messageId: string, isObjectId: Id -> bool, now: int)
    returns (first: ReadResponse, second: ReadResponse)
    requires store.Valid()
    modifies store
    ensures store.Valid()
    ensures first.ReadMarked? ==> second == ReadDenied(AlreadyRead)
    ensures !first.ReadMarked? ==> second == first
  {
    ghost var before := store.messages;
    first := store.MarkRead(userId, messageId, isObjectId, now);
    if first.ReadMarked? {
      SecondMarkReadIsAlreadyRead(before, userId, messageId, isObjectId, now, now);
    }
    second := store.MarkRead(userId, messageId, isObjectId, now);
  }
}
