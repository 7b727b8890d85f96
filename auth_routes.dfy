/** The two handlers of routes/auth.js over a user collection held as a map
    from email to user. bcrypt's `hash` (with its generated salt and cost 10)
    and `compare`, and jsonwebtoken's `sign` with the server secret, are
    parameters; so are the identifier the store gives a new user and the
    clock. */
module AuthRoutes {
  import opened Basics
  import opened AccessGate

  datatype User = User(id: Id, name: string, email: string, passwordHash: string)

  /** `expiresIn: "1h"`. */
  const TokenLifetimeSeconds := 3600

  /** The claims jsonwebtoken signs: the payload `{id}` plus the issue time it
      adds and the expiry computed from `expiresIn`, in seconds. */
  datatype Claims = Claims(payload: Payload, issuedAt: int, expiresAt: int)

  datatype RegisterResponse = Registered | UserExists | RegisterFailed {
    function Status(): int {
      match this
      case Registered => 200
      case UserExists => 409
      case RegisterFailed => 500
    }
    function Text(): string {
      match this
      case Registered => "Registered"
      case UserExists => "User exists"
      case RegisterFailed => "Error"
    }
  }

  datatype LoginResponse = LoggedIn(token: string) | InvalidCredentials {
    function Status(): int {
      if LoggedIn? then 200 else 401
    }
  }

  const InvalidCredentialsText := "Invalid"

  /** Every user is filed under their own email, and no two users share an id. */
  predicate UserInvariant(users: map<string, User>) {
    (forall e :: e in users ==> users[e].email == e)
    && (forall e1, e2 :: e1 in users && e2 in users && e1 != e2 ==> users[e1].id != users[e2].id)
  }

  predicate IdTaken(users: map<string, User>, id: Id) {
    exists e :: e in users && users[e].id == id
  }

  datatype RegisterStep = RegisterStep(response: RegisterResponse, users: map<string, User>)

  /** One registration. A known email gets 409 and changes nothing. Otherwise
      exactly one user is added under that email, holding `hash(password)` in
      its password field, unless the store rejects the insert because `newId`
      is already taken (the catch-all 500, nothing written). No other entry
      changes. */
  function RegisterEffect(users: map<string, User>, name: string, email: string, password: string,
                          hash: string -> string, newId: Id): (s: RegisterStep)
    ensures s.response == UserExists <==> email in users
    ensures s.response == Registered <==> email !in users && !IdTaken(users, newId)
    ensures s.response.Registered? ==>
              && s.users.Keys == users.Keys + {email}
              && s.users[email] == User(newId, name, email, hash(password))
              && (forall e :: e in users ==> s.users[e] == users[e])
    ensures !s.response.Registered? ==> s.users == users
  {
    if email in users then RegisterStep(UserExists, users)
    else if IdTaken(users, newId) then RegisterStep(RegisterFailed, users)
    else RegisterStep(Registered, users[email := User(newId, name, email, hash(password))])
  }

  lemma RegisterKeepsInvariant(users: map<string, User>, name: string, email: string, password: string,
                               hash: string -> string, newId: Id)
    requires UserInvariant(users)
    ensures UserInvariant(RegisterEffect(users, name, email, password, hash, newId).users)
  {
    var s := RegisterEffect(users, name, email, password, hash, newId);
    if s.response.Registered? {
      forall e1, e2 | e1 in s.users && e2 in s.users && e1 != e2
        ensures s.users[e1].id != s.users[e2].id
      {
        if e1 == email {
          assert users[e2].id != newId;
        } else if e2 == email {
          assert users[e1].id != newId;
        }
      }
    }
  }

  /** Registering the same email a second time gets 409 and changes nothing. */
  lemma SecondRegistrationConflicts(users: map<string, User>, name: string, email: string, password: string,
                                    hash: string -> string, newId: Id,
                                    name': string, password': string, hash': string -> string, newId': Id)
    requires RegisterEffect(users, name, email, password, hash, newId).response.Registered?
    ensures var users' := RegisterEffect(users, name, email, password, hash, newId).users;
            RegisterEffect(users', name', email, password', hash', newId') == RegisterStep(UserExists, users')
  {
  }

  /** The login decision: a token only for a known email whose stored hash
      matches the password; then the token is the signature over the user's
      id, issued now and expiring one hour later. Every other case gets the
      same 401 "Invalid". */
  function Login(users: map<string, User>, email: string, password: string,
                 compare: (string, string) -> bool, sign: Claims -> string, now: int): (r: LoginResponse)
    ensures r.LoggedIn? <==> email in users && compare(password, users[email].passwordHash)
    ensures r.LoggedIn? ==>
              r.token == sign(Claims(Payload(users[email].id), now, now + TokenLifetimeSeconds))
  {
    if email !in users then InvalidCredentials
    else if !compare(password, users[email].passwordHash) then InvalidCredentials
    else LoggedIn(sign(Claims(Payload(users[email].id), now, now + TokenLifetimeSeconds)))
  }

  /** An unknown email and a wrong password give the same response, so a
      caller cannot tell which one it was. */
  lemma UnknownEmailLooksLikeWrongPassword(users: map<string, User>, unknown: string, known: string,
                                           p1: string, p2: string,
                                           compare: (string, string) -> bool, sign: Claims -> string, now: int)
    requires unknown !in users
    requires known in users && !compare(p2, users[known].passwordHash)
    ensures Login(users, unknown, p1, compare, sign, now) == Login(users, known, p2, compare, sign, now)
    ensures Login(users, unknown, p1, compare, sign, now).Status() == 401
  {
  }

  /** With a `compare` that accepts a password against its own hash, a user
      who has just registered can log in, and the token names the new id. */
  lemma RegisteredUserCanLogIn(users: map<string, User>, name: string, email: string, password: string,
                               hash: string -> string, newId: Id,
                               compare: (string, string) -> bool, sign: Claims -> string, now: int)
    requires compare(password, hash(password))
    requires RegisterEffect(users, name, email, password, hash, newId).response.Registered?
    ensures var users' := RegisterEffect(users, name, email, password, hash, newId).users;
            Login(users', email, password, compare, sign, now)
              == LoggedIn(sign(Claims(Payload(newId), now, now + TokenLifetimeSeconds)))
  {
  }

  /** An issued token, presented as "Bearer <token>" to a verifier that
      recognises its claims, lets the holder through the access gate as the
      logged-in user. */
  lemma IssuedTokenOpensGate(users: map<string, User>, email: string, password: string,
                             compare: (string, string) -> bool, sign: Claims -> string, now: int,
                             verify: string -> VerifyResult)
    requires Login(users, email, password, compare, sign, now).LoggedIn?
    requires var t := Login(users, email, password, compare, sign, now).token;
             t != "" && ' ' !in t && verify(t) == Verified(Payload(users[email].id))
    ensures var t := Login(users, email, password, compare, sign, now).token;
            Authenticate(Some("Bearer " + t), verify) == Proceed(Payload(users[email].id))
  {
    var t := Login(users, email, password, compare, sign, now).token;
    BearerTokenAccepted(t, verify, Payload(users[email].id));
  }

  class UserStore {
    var users: map<string, User>

    predicate Valid()
      reads this
    {
      UserInvariant(users)
    }

    constructor ()
      ensures Valid() && users == map[]
    {
      users := map[];
    }

    /** `POST /register`. */
    method Register(name: string, email: string, password: string, hash: string -> string, newId: Id)
      returns (resp: RegisterResponse)
      requires Valid()
      modifies this
      ensures Valid()
      ensures var s := RegisterEffect(old(users), name, email, password, hash, newId);
              resp == s.response && users == s.users
    {
      RegisterKeepsInvariant(users, name, email, password, hash, newId);
      if email in users {
        resp := UserExists;
      } else if IdTaken(users, newId) {
        resp := RegisterFailed;
      } else {
        users := users[email := User(newId, name, email, hash(password))];
        resp := Registered;
      }
    }
  }
}
