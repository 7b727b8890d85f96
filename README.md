# securemail-backend: a verified model of the messaging core

This project models the core of a small authenticated messaging API built on
Express and MongoDB. Users register and log in to get a signed bearer token.
Authenticated users then send short text messages to each other, list their
inbox and sent messages page by page, and mark received messages as read.

The model covers:

- the access gate (`authenticateToken`): token extraction from the
  `Authorization` header, the missing / expired / invalid branches, and the
  identity handed on to the route;
- the send validator chain: `receiverId` must be present; `content` is
  trimmed, must be non-empty and count at most 500 characters the way
  validator.js `isLength` counts (presentation selectors U+FE0E and U+FE0F
  are not counted), and is then HTML-escaped; all failing checks are
  reported together;
- the Message record: required fields, stored content trimmed, `read`
  defaulting to false, and the `createdAt` / `updatedAt` timestamps;
- the message service: send (guards in order, then exactly one record
  appended), the inbox and sent listings (filter, newest first, skip and
  limit from `page` and `limit`), and mark-read (four guards in order, then
  one record's flag set);
- register and login over a user map keyed by email.

Each route is a pure decision function plus a state change. The message
collection is the `seq` field of `MessageRoutes.MessageStore`. The user
collection is the `map` field of `AuthRoutes.UserStore`. Their methods are
proved against the functions `SendEffect`, `MarkReadEffect` and
`RegisterEffect`. The lemmas beside those functions prove what the routes
promise: the store invariant is kept, read flags never go back to false,
a second mark-read is refused, no record is created whose receiver id is
the same string as its sender id, and pages cut from one order tile it.

External collaborators are parameters:

- `verify: string -> VerifyResult` is jsonwebtoken's `verify` with the
  server secret;
- `sign: Claims -> string` is jsonwebtoken's `sign`;
- `hash` and `compare` are bcrypt's, with the salt baked into `hash`;
- `isObjectId: Id -> bool` is `mongoose.Types.ObjectId.isValid`;
- `withinLimit: bool` is the verdict of the send rate limiter;
- `newId` is the `_id` the store gives a new record;
- `now` is the clock.

Modules, one per file: `Basics`, `Strings` (JavaScript trim, validator.js
escape and the `isLength` count, `split(" ")`), `AccessGate`, `MessageValidator`, `MessageModel`,
`MessageQueries`, `MessageRoutes`, `AuthRoutes`.

Behaviour of the code that the model keeps on purpose:

- The first word of the header is never checked, so any word followed by one
  space and a token works, not only `Bearer`.
- The length check runs before escaping. Accepted content can therefore be
  stored much longer than 500 characters: 500 `<` become 2000 characters.
- `parseInt(x) || d` lets negative numbers through. A negative page with a
  positive limit gives a negative skip, which MongoDB refuses, so the
  listing answers 500. On page 1, where the skip is 0, a negative limit
  asks MongoDB for a single batch of at most its absolute value, and the
  first batch holds at most 101 messages; on page 2 or above it makes the
  skip negative, and the listing answers 500.
- The send route runs the access gate first, then the rate limiter, then
  the validator (routes/message.js:26-28). `MessageStore.PostSend` keeps
  that order: a request the gate refuses never reaches the limiter.
- The 500 responses of routes/message.js carry `error.message`
  (routes/message.js:73-78, 113-118, 150-155, 208-213), so internal error
  text does reach the client. The model does not represent that text.
- `message.save()` writes `read` (routes/message.js:199-200), and the
  schema's timestamps option (models/Message.js:37-39) adds `updatedAt`, so
  `MarkReadEffect` changes both fields.

## Model

| member | source | states |
|---|---|---|
| Strings.Trim | validators/messageValidator.js:14 | The result has no JavaScript whitespace at either end. It is a contiguous piece of the input, and only whitespace is cut on either side. It is empty exactly when the input is all whitespace. |
| Strings.TrimIdempotent | validators/messageValidator.js:14 | Trimming twice is the same as trimming once, so the schema's own `trim` leaves sanitized content unchanged. |
| Strings.TrimOfTrimmed | validators/messageValidator.js:14 | A string with no whitespace at either end is its own trim. |
| Strings.CountedLength | validators/messageValidator.js:17-18 | The length `isLength` checks: never more than the number of code points, and equal to it for text without the presentation selectors U+FE0E and U+FE0F. |
| Strings.CountedLengthAppend | validators/messageValidator.js:17-18 | The count of a concatenation is the sum of the counts. |
| Strings.Escape | validators/messageValidator.js:19 | After escaping, the only markup character that can be left is `&`. The result is never shorter than the input. Text without markup is returned unchanged. |
| Strings.Entity | validators/messageValidator.js:19 | Each of the characters & " ' < > / \ and the backtick becomes an entity that starts with `&` and ends with `;`. Every other character is kept as it is. |
| Strings.EscapeAppend | validators/messageValidator.js:19 | Escaping works character by character: escaping a concatenation is concatenating the escapes. |
| Strings.EscapeKeepsTrimmed | validators/messageValidator.js:14-19 | Escaping trimmed, non-empty text gives trimmed, non-empty text. |
| Strings.EscapeOfLessThans | validators/messageValidator.js:19 | `n` copies of `<` escape to `n` copies of `&lt;`. |
| Strings.Split | middleware/auth.js:10 | `split(" ")` returns at least one piece, and no piece contains a space. |
| Strings.JoinSplit | middleware/auth.js:10 | Joining the pieces of `split(" ")` with single spaces gives back the header. |
| Strings.SplitJoin | middleware/auth.js:10 | Splitting space-free pieces joined by single spaces gives back the pieces. |
| Strings.SplitFirstWord | middleware/auth.js:10 | A space-free word, one space, then a rest splits into that word followed by the pieces of the rest. |
| AccessGate.ExtractToken | middleware/auth.js:9-13 | A token found is the non-empty second piece and has no space in it. No header, or an empty one, gives no token. |
| AccessGate.TokenIsSecondWord | middleware/auth.js:9-10 | A token found in a header is the word that follows the first single space. |
| AccessGate.AnyFirstWordYieldsToken | middleware/auth.js:10 | Conversely, any space-free first word, one space, and a non-empty space-free token gives that token. The word `Bearer` is not required. |
| AccessGate.MalformedHeadersCarryNoToken | middleware/auth.js:10-13 | A header with no space, or with two spaces after the first word, has no token. |
| AccessGate.Authenticate | middleware/auth.js:8-42 | Exactly one outcome, each with an if-and-only-if condition. No token gives 401 "token required". A `TokenExpiredError` gives 401 "expired". Any other verifier error gives 403. A verified token lets the route proceed with the decoded payload as the user. |
| AccessGate.MissingTokenIgnoresVerifier | middleware/auth.js:13-18 | Without a token the verdict is 401 whatever the verifier, so the verifier is never consulted. |
| AccessGate.OutcomeDependsOnlyOnVerdict | middleware/auth.js:20-41 | With a token, two verifiers that agree on that token give the same outcome. |
| AccessGate.BearerTokenAccepted | middleware/auth.js:9-40 | `Bearer <t>`, with a verifier that accepts `t`, proceeds as `t`'s subject. |
| MessageValidator.CheckSend | validators/messageValidator.js:8-20 | The request is invalid exactly when `receiverId` is empty, or the trimmed content is empty or counts more than 500 characters without its presentation selectors. Each failed check has exactly one entry, the receiver's first, and there are no other entries. A valid request keeps `receiverId` and carries the escaped trimmed content, which is non-empty, trimmed, and free of raw markup. |
| MessageValidator.WhitespaceOnlyContentRejected | validators/messageValidator.js:14-16 | Content that is all whitespace is rejected as empty. |
| MessageValidator.AllErrorsCollected | routes/message.js:32-37 | An empty receiver and blank content give both errors in one response. |
| MessageValidator.LengthLimitIsInclusive | validators/messageValidator.js:17-18 | After trimming, a count of 500 passes. A count of 501 gives exactly the too-long error. |
| MessageValidator.PresentationSelectorsAreFree | validators/messageValidator.js:17-18 | `n` hearts written as U+2764 U+FE0F (1 ≤ n ≤ 500) are `2n` code points and are accepted, since the selector is not counted. |
| MessageValidator.PaddingDoesNotCount | validators/messageValidator.js:14-18 | Whitespace before and after the content, each side of any length, does not count toward the limit. |
| MessageValidator.EscapedContentMayExceedLimit | validators/messageValidator.js:17-19 | `n` copies of `<` (1 ≤ n ≤ 500) are accepted and stored as `4n` characters. |
| MessageValidator.NoAngleBracketsInAcceptedContent | validators/messageValidator.js:19 | Accepted content holds no raw `<` or `>`. |
| MessageModel.Create | models/Message.js:8-40 | A new record has the given id, sender and receiver, has `read` false, and has both timestamps set to the creation time. The stored content is the trimmed input. Content that is not all whitespace gives a well-formed record. Content that is already trimmed is stored unchanged. |
| MessageModel.AsRead | routes/message.js:199-200 | Setting `read` and saving gives a record with `read` true. Id, parties, content and `createdAt` are unchanged, and well-formedness is kept. |
| MessageQueries.Select | routes/message.js:96-98 | The filter keeps exactly the messages whose receiver (or sender) is the user, each as many times as in the store, and nothing else. |
| MessageQueries.Insert | routes/message.js:100 | Inserting into a newest-first sequence keeps it newest first and adds exactly that message. |
| MessageQueries.SortNewestFirst | routes/message.js:100 | `sort({createdAt: -1})`: the result is newest first and is a permutation of the input. |
| MessageQueries.OrderIsForced | routes/message.js:96-100 | When no two of the user's messages share a `createdAt`, any newest-first arrangement of them is the model's order, so every request sees the same order. |
| MessageQueries.NewestFirstIsUnique | routes/message.js:100 | Two newest-first arrangements of the same messages with distinct creation times are equal. |
| MessageQueries.OrDefault | routes/message.js:91-92 | `parseInt(x)` or the default: NaN and 0 give the default. Any other number is kept, negative ones included. |
| MessageQueries.Paginate | routes/message.js:91-93 | Page and limit are the parsed queries, each replaced by its default (1 and 10) when missing or 0, so never 0. Skip is `(page - 1) * limit`. |
| MessageQueries.Window | routes/message.js:101-102 | `skip(s).limit(l)` returns a consecutive run that starts at `s`, never longer than the absolute value of `l`. A positive `l` takes `l` items, a negative one a single batch of `-l` items cut at 101, in both cases fewer when fewer remain. A limit of 0 returns all the rest. |
| MessageQueries.Cut | routes/message.js:101-111 | A negative skip is refused (the 500 path). Otherwise page and limit are echoed, `data` is the `skip`/`limit` window of the sorted messages, and `count` is its length. |
| MessageQueries.List | routes/message.js:86-120 | The listing fails (500) exactly when the computed skip is negative. Otherwise the computed page and limit are echoed and `count` is the length of `data`. |
| MessageQueries.ListSound | routes/message.js:96-111 | A listing's `data` holds at most as many messages as the absolute value of its limit. All of them are the user's in that role, newest first, and each is taken from the store at most as often as it is there. |
| MessageQueries.CutIsPiece | routes/message.js:101-102 | A listing's `data` is one consecutive piece of the sorted messages, no longer than \|limit\| when the limit is not 0. |
| MessageQueries.OrderedBelongs | routes/message.js:96-100 | The sorted selection holds only the user's messages in that role, newest first, each at most as often as in the store. |
| MessageQueries.PieceBelongs | routes/message.js:101-102 | Any consecutive piece of such a sequence has the same three properties. |
| MessageQueries.Inbox | routes/message.js:86-120 | Every listed message was received by the caller. `count` matches `data`, which is newest first. |
| MessageQueries.Sent | routes/message.js:125-157 | Every listed message was sent by the caller. `count` matches `data`, which is newest first. |
| MessageQueries.PagesTile | routes/message.js:91-102 | With a positive limit, the pages 1..n cut from one order of the messages, laid end to end, are exactly its first `n * limit` messages (all of them, if fewer). No message of that order is skipped or repeated. |
| MessageQueries.PageRunAt | routes/message.js:91-102 | Entry `k - 1` of the run of pages is page `k` as the handler cuts it. |
| MessageQueries.CutIsSlice | routes/message.js:91-102 | Page `p` with a positive limit is never refused, and its `data` is the `p`-th `limit`-sized slice: from `(p - 1) * limit` to `p * limit`, cut at the end. |
| MessageQueries.PageIsSlice | routes/message.js:86-111 | The same for the listing itself: page `p` of the user's listing is the `p`-th `limit`-sized slice of their newest-first messages. |
| MessageQueries.SlicesTile | routes/message.js:93-102 | The first `n` consecutive `limit`-sized slices, laid end to end, make up the prefix of length `n * limit`. |
| MessageQueries.PrefixGrows | routes/message.js:93-102 | The prefix that `n - 1` pages cover, followed by page `n`, is the prefix that `n` pages cover. |
| MessageQueries.FirstPageHoldsAll | routes/message.js:96-102 | With a limit at least the number of the user's messages, the default first page holds all of them. |
| MessageQueries.DefaultsAreFirstTen | routes/message.js:91-93 | No usable page or limit means page 1, limit 10, skip 0. |
| MessageQueries.NegativePagesAreNotClamped | routes/message.js:91-101 | A negative page with a positive limit fails with 500. With a negative limit it lists, and the negative page is echoed. |
| MessageQueries.NegativeLimitsFailPastPageOne | routes/message.js:91-101 | A negative limit lists on page 1 and fails with 500 on every page above 1. |
| MessageRoutes.FindById | routes/message.js:175 | Finds the first record with that id. The answer is none exactly when no record has it. |
| MessageRoutes.DecideSend | routes/message.js:29-58 | The guards, in order. Validation errors come first, with the full list. Then an invalid receiver id gives "Invalid receiver ID". Then a send to oneself gives "cannot send to yourself". Each has an if-and-only-if condition. An accepted send goes to a valid, different receiver and carries the sanitized content. |
| MessageRoutes.SendEffect | routes/message.js:29-79 | A refusal writes nothing. An accepted send is created unless the store rejects it; the store rejects it exactly when the sender id is not an ObjectId or the new id is taken, and that gives 500 with nothing written. A created message is appended as the only change: sender is the caller, receiver is `receiverId`, content is escaped and trimmed, `read` is false, and it carries the creation time. |
| MessageRoutes.SendKeepsInvariant | routes/message.js:61-65 | Sending keeps ids unique, records well-formed and no record's receiver id the same string as its sender id. Every old record keeps its identity, and a read flag that was set stays set. |
| MessageRoutes.NoSelfMessage | routes/message.js:52-58 | A send whose `receiverId` is the same string as the sender's id never creates a message. Once validation and the id check pass, it is refused as a message to oneself. |
| MessageRoutes.ValidSendSucceeds | routes/message.js:60-71 | A valid send to another valid id, with content that is non-empty after trimming and counts at most 500, and a free new id, creates one unread message. |
| MessageRoutes.DecideRead | routes/message.js:167-197 | The four guards, in order, each with an if-and-only-if condition: invalid id 400, not found 404, caller not the receiver 403, already read 400. Only the receiver of an unread message is allowed. |
| MessageRoutes.MarkReadEffect | routes/message.js:162-206 | When allowed, only the found record changes, to `read` true with a fresh `updatedAt`, and the response carries it. When refused, nothing changes. |
| MessageRoutes.MarkReadKeepsInvariant | routes/message.js:199-200 | Mark-read keeps the store invariant and the length of the store, and never clears a read flag. |
| MessageRoutes.OnlyReceiverMarksRead | routes/message.js:184-190 | A successful mark-read was made by the receiver. The sender of a found message is refused with 403. |
| MessageRoutes.SecondMarkReadIsAlreadyRead | routes/message.js:192-200 | After a successful mark-read, the same request is refused as already read and changes nothing. |
| MessageRoutes.MessageStore.Send | routes/message.js:29-79 | The new store and the response are those of `SendEffect`. The store invariant is kept and no record's history is lost. |
| MessageRoutes.MessageStore.MarkRead | routes/message.js:162-215 | The new store and the response are those of `MarkReadEffect`. The invariant and the store's length are kept. |
| MessageRoutes.MessageStore.PostSend | routes/message.js:24-81 | Gate, then limiter, then handler. A gate refusal or a throttled request writes nothing. Otherwise the caller's id is the sender. |
| MessageRoutes.MessageStore.PatchRead | routes/message.js:162-215 | Gate, then handler with the caller's id. A gate refusal writes nothing. |
| MessageRoutes.MessageStore.GetInbox | routes/message.js:86-120 | A gate refusal is returned as is. A listing happens only after the gate passes; it is then exactly the caller's inbox listing, and lists only messages received by the caller. |
| MessageRoutes.MessageStore.GetSent | routes/message.js:125-157 | A gate refusal is returned as is. A listing happens only after the gate passes; it is then exactly the caller's sent listing, and lists only messages sent by the caller. |
| MessageRoutes.MarkReadTwice | routes/message.js:192-200 | Two identical mark-read calls: if the first succeeds, the second is "already read". If it does not, both get the same answer. |
| AuthRoutes.RegisterEffect | routes/auth.js:9-23 | A known email gives 409 and changes nothing. Otherwise exactly one user is added under that email, with `hash(password)` stored and every other entry kept, unless the new id is taken; that gives 500 and changes nothing. |
| AuthRoutes.RegisterKeepsInvariant | routes/auth.js:13-17 | Every user stays filed under their own email, and ids stay unique. |
| AuthRoutes.SecondRegistrationConflicts | routes/auth.js:13-14 | Registering an email a second time gives 409 and changes nothing. |
| AuthRoutes.Login | routes/auth.js:26-44 | A token is issued exactly when the email is known and `compare` accepts the password against the stored hash. The token signs the user's id, issued now and expiring after 3600 s. Every other case gets the same 401. |
| AuthRoutes.UnknownEmailLooksLikeWrongPassword | routes/auth.js:30-34 | An unknown email and a wrong password give the same response. |
| AuthRoutes.RegisteredUserCanLogIn | routes/auth.js:16-40 | With a `compare` that accepts a password against its hash, a freshly registered user can log in and gets a token over the new id. |
| AuthRoutes.IssuedTokenOpensGate | routes/auth.js:36-40 | An issued token, sent as `Bearer <token>` to a verifier that accepts its claims, passes the access gate as that user. |
| AuthRoutes.UserStore.Register | routes/auth.js:9-23 | The new map and the response are those of `RegisterEffect`, and the user-map invariant is kept. |

## Left out

- The rate limiters: the window, the counter and the per-address keying
  live in express-rate-limit, which is not part of this model. The send
  limiter's verdict is the `withinLimit` parameter, placed where the code
  runs it, after the gate and before validation. Requests the limiter counts
  but a later step refuses are not tracked. `loginLimiter` is defined but
  never attached to `/login`, so login has no limiter in the model.
- app.js: bootstrap, CORS, JSON parsing, database connection, `listen` and
  the `/api/profile` echo are plumbing. app.js mounts only the auth router,
  never the message router (app.js:19), so as written the message routes
  are not reachable over HTTP. The model describes the router itself.
- Cryptography: JWT signing and verification and bcrypt hashing and
  comparison are parameters. Token expiry is decided inside `verify`.
- ObjectId casting: ids are plain strings, compared as strings, and
  `isValid` is a parameter. Mongoose also accepts 12-character strings and
  upper-case hex, and casts them to the same ObjectId. The model does not
  capture what follows from that. A differently spelled `receiverId` can
  name the sender's own id, so the code can store a message from a user to
  themselves; the model's guarantee is only that no record's receiver id is
  the same string as its sender id. `FindById` misses a record looked up
  with an upper-case `messageId` (404), where the code finds it. A message
  stored from an upper-case `receiverId` keeps that spelling in the model,
  so `DecideRead` refuses its real receiver (403) and `Select` leaves it out
  of their inbox, where the code allows and lists it.
- `populate` of the other party's name and email in the listings.
- Concurrency: the model runs one request at a time. The race between two
  concurrent mark-reads, and between register's lookup and insert, is not
  modelled.
- The catch-all 500 paths: only the store failures named in `SendEffect`,
  `RegisterEffect` and `List` are modelled. Other store or network
  failures, and the text of the 500 responses (including `error.message`),
  are not. Login's 500 path is not modelled.
- models/User.js is not part of this model. Any User schema validation
  that would make `User.create` throw is not modelled, beyond a taken id.
- Request bodies: a missing or non-string body field is read as the empty
  string in the model. `parseInt` itself is not modelled; the listing takes
  what it made of the query (none for NaN).
- MessageQueries.SortNewestFirst: MongoDB leaves the order of messages with
  equal `createdAt` open; the model fixes one order.
- MessageQueries.Window: a negative limit is cut at the server's default
  first batch of 101 documents. The 16 MiB size cap on a batch, which can
  cut a batch shorter, is not modelled.
- MessageQueries.PagesTile: the pages are cut from one order shared by all
  the requests. MongoDB may order messages with equal `createdAt`
  differently from one query to the next, so in the code pages 1..n tile
  the listing only when no two of the user's messages share a `createdAt`
  (then `OrderIsForced` shows the order is the same in every request).
  With ties, a page can repeat or skip a message.
- MessageValidator.CheckSend: Dafny strings hold Unicode scalar values, so
  a lone UTF-16 surrogate, which `isLength` counts as one character, cannot
  be written in the model.
- Strings.Escape: validator.js's entity table is modelled for the
  characters it escapes. Unicode normalisation and encoding are not
  modelled.
- AuthRoutes.RegisterEffect: the claim that the plaintext is never stored
  holds only for a `hash` that never returns its input. The model states
  that `hash(password)` is stored and nothing about `hash` itself.
