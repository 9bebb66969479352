/** Sessions and tokens, from src/auth/auth.ts. */
module Auth {
  // The clock, fresh ids, keys and password hashing are parameters; the store of users and
  // sessions is the entity store when there is one.

  import opened Bytes
  import opened Jwt
  import opened Options

  const ROOT_USER_ID := "00000000-0000-0000-0000-000000000001"

  datatype User = User(id: string, username: string, hash: string, disabled: bool)

  /** A session's row; deleting it only marks it, and queries do not show marked rows. */
  datatype Session = Session(user: string, expires: int, deleted: bool)

  /** How tokens are signed and checked, and passwords hashed and verified. */
  datatype Config = Config(ems: bool, sessionTTL: int, rootHash: string,
                           sign: (Payload, bytes) -> string, check: (string, bytes, int) -> Option<Payload>,
                           hash: string -> string, verify: (string, string) -> bool)
  {
    /** Tokens are signed and verified as src/auth/jwt.ts does. */
    ghost predicate UsesJwt(f: Platform) {
      && f.Laws()
      && (forall p, key :: sign(p, key) == SignJWT(f, p, key))
      && (forall token, key, now :: check(token, key, now) == VerifyJWT(f, token, key, now))
    }

    /** A signed token gives nothing else than its claims, never once they have expired, and
        until then always to the key that signed it. */
    ghost predicate TokenHolds(p: Payload, key: bytes, key': bytes, now: int) {
      var got := check(sign(p, key), key', now);
      p.sub.Some? && p.sid.Some? ==>
        && (got == None || got == Some(p))
        && (got.Some? ==> !Expired(p, now))
        && (key == key' && !Expired(p, now) ==> got.Some?)
    }

    ghost predicate TokensHold() {
      forall p, key, key', now :: TokenHolds(p, key, key', now)
    }
  }

  datatype State = State(key: Option<bytes>, users: seq<User>, sessions: map<string, Session>)

  /** What login and grant give back. */
  datatype Issued = Issued(user: string, session: string, token: string, expiresAt: int)

  /** An issued token, the null of bad credentials, or the error EINVAL. */
  datatype Outcome = Granted(issued: Issued) | Refused | Invalid

  /** The new user's id, the null of a name that is taken, or the error EINVAL. */
  datatype Registration = Registered(id: string) | Taken | NoStore

  // ---------------------------------------------------------------------------
  // The operations, as functions of the state

  function FindUser(users: seq<User>, username: string): Option<User> {
    if users == [] then None
    else if users[0].username == username then Some(users[0])
    else FindUser(users[1..], username)
  }

  predicate HasId(users: seq<User>, id: string) {
    exists k :: 0 <= k < |users| && users[k].id == id
  }

  function Init(c: Config, s: State, key: bytes): State {
    var s' := s.(key := Some(key));
    if !c.ems || HasId(s.users, ROOT_USER_ID) then s'
    else s'.(users := s.users + [User(ROOT_USER_ID, "root", c.rootHash, false)])
  }

  function Claims(user: string, sid: string, now: int, expiresAt: int, scope: seq<string>): Payload {
    Payload(Some(user), Some(sid), now / 1000, Some(expiresAt / 1000), scope)
  }

  function IssuedTo(c: Config, key: bytes, user: string, sid: string, now: int, expiresAt: int,
                    scope: seq<string>): Issued
  {
    Issued(user, sid, c.sign(Claims(user, sid, now, expiresAt, scope), key), expiresAt)
  }

  function Login(c: Config, s: State, username: string, password: string, sid: string, now: int): (State, Outcome) {
    if s.key.None? || !c.ems then (s, Invalid)
    else
      var user := FindUser(s.users, username);
      if user.None? || user.value.disabled || !c.verify(password, user.value.hash) then (s, Refused)
      else
        var expiresAt := now + c.sessionTTL;
        (s.(sessions := s.sessions[sid := Session(user.value.id, expiresAt, false)]),
         Granted(IssuedTo(c, s.key.value, user.value.id, sid, now, expiresAt, [])))
  }

  function Grant(c: Config, s: State, principal: string, scope: seq<string>, ttl: Option<int>, sid: string,
                 now: int): (State, Outcome)
  {
    if s.key.None? then (s, Invalid)
    else
      var expiresAt := now + if ttl.Some? then ttl.value else c.sessionTTL;
      (if c.ems then s.(sessions := s.sessions[sid := Session(principal, expiresAt, false)]) else s,
       Granted(IssuedTo(c, s.key.value, principal, sid, now, expiresAt, scope)))
  }

  function Logout(c: Config, s: State, sid: string): State {
    if !c.ems || sid !in s.sessions then s else s.(sessions := s.sessions[sid := s.sessions[sid].(deleted := true)])
  }

  function Register(c: Config, s: State, username: string, password: string, id: string): (State, Registration) {
    if !c.ems then (s, NoStore)
    else if FindUser(s.users, username).Some? then (s, Taken)
    else (s.(users := s.users + [User(id, username, c.hash(password), false)]), Registered(id))
  }

  predicate Revalidated(c: Config, s: State, sid: string, now: int) {
    !c.ems || (sid in s.sessions && !s.sessions[sid].deleted && !(s.sessions[sid].expires < now))
  }

  function Validated(c: Config, s: State, token: string, now: int): Option<Payload> {
    if s.key.None? then None else c.check(token, s.key.value, now)
  }

  // ---------------------------------------------------------------------------
  // The object

  class Authority {
    const config: Config
    var signingKey: Option<bytes>
    var users: seq<User>
    var sessions: map<string, Session>

    function Current(): State
      reads this
    {
      State(signingKey, users, sessions)
    }

    constructor (config: Config)
      ensures this.config == config && Current() == State(None, [], map[])
    {
      this.config := config;
      signingKey, users, sessions := None, [], map[];
    }

    method Initialize(key: bytes)
      modifies this
      ensures Current() == Init(config, old(Current()), key)
    {
      signingKey := Some(key);
      if config.ems {
        SeedRootUser();
      }
    }

    method SeedRootUser()
      modifies `users
      ensures users == if HasId(old(users), ROOT_USER_ID) then old(users)
                       else old(users) + [User(ROOT_USER_ID, "root", config.rootHash, false)]
    {
      for k := 0 to |users|
        invariant forall j :: 0 <= j < k ==> users[j].id != ROOT_USER_ID
      {
        if users[k].id == ROOT_USER_ID {
          return;
        }
      }
      users := users + [User(ROOT_USER_ID, "root", config.rootHash, false)];
    }

    method Shutdown()
      modifies this
      ensures Current() == old(Current()).(key := None)
    {
      signingKey := None;
    }

    method LogIn(username: string, password: string, sid: string, now: int) returns (r: Outcome)
      modifies this
      ensures (Current(), r) == Login(config, old(Current()), username, password, sid, now)
    {
      if signingKey.None? {
        return Invalid;
      }
      if !config.ems {
        return Invalid;
      }
      var user := FindUser(users, username);
      if user.None? {
        return Refused;
      }
      if user.value.disabled {
        return Refused;
      }
      if !config.verify(password, user.value.hash) {
        return Refused;
      }
      var expiresAt := now + config.sessionTTL;
      sessions := sessions[sid := Session(user.value.id, expiresAt, false)];
      return Granted(IssuedTo(config, signingKey.value, user.value.id, sid, now, expiresAt, []));
    }

    method GrantToken(principal: string, scope: seq<string>, ttl: Option<int>, sid: string, now: int)
        returns (r: Outcome)
      modifies this
      ensures (Current(), r) == Grant(config, old(Current()), principal, scope, ttl, sid, now)
    {
      if signingKey.None? {
        return Invalid;
      }
      var effective := if ttl.Some? then ttl.value else config.sessionTTL;
      var expiresAt := now + effective;
      if config.ems {
        sessions := sessions[sid := Session(principal, expiresAt, false)];
      }
      return Granted(IssuedTo(config, signingKey.value, principal, sid, now, expiresAt, scope));
    }

    method LogOut(sid: string)
      modifies `sessions
      ensures Current() == Logout(config, old(Current()), sid)
    {
      if !config.ems {
        return;
      }
      if sid in sessions {
        sessions := sessions[sid := sessions[sid].(deleted := true)];
      }
    }

    method RegisterUser(username: string, password: string, id: string) returns (r: Registration)
      modifies this
      ensures (Current(), r) == Register(config, old(Current()), username, password, id)
    {
      if !config.ems {
        return NoStore;
      }
      if FindUser(users, username).Some? {
        return Taken;
      }
      users := users + [User(id, username, config.hash(password), false)];
      return Registered(id);
    }

    method RevalidateSession(sid: string, now: int) returns (valid: bool)
      ensures valid == Revalidated(config, Current(), sid, now)
    {
      if !config.ems {
        return true;
      }
      if sid !in sessions || sessions[sid].deleted {
        return false;
      }
      if sessions[sid].expires < now {
        return false;
      }
      return true;
    }

    method ValidateToken(token: string, now: int) returns (p: Option<Payload>)
      ensures p == Validated(config, Current(), token, now)
    {
      if signingKey.None? {
        return None;
      }
      return config.check(token, signingKey.value, now);
    }
  }

  // ---------------------------------------------------------------------------
  // Runs

  datatype Op =
    | InitOp(key: bytes)
    | ShutdownOp
    | RegisterOp(username: string, password: string, id: string)
    | LoginOp(username: string, password: string, sid: string, now: int)
    | GrantOp(principal: string, scope: seq<string>, ttl: Option<int>, sid: string, now: int)
    | LogoutOp(sid: string)

  function Apply(c: Config, s: State, op: Op): State {
    match op
    case InitOp(key) => Init(c, s, key)
    case ShutdownOp => s.(key := None)
    case RegisterOp(username, password, id) => Register(c, s, username, password, id).0
    case LoginOp(username, password, sid, now) => Login(c, s, username, password, sid, now).0
    case GrantOp(principal, scope, ttl, sid, now) => Grant(c, s, principal, scope, ttl, sid, now).0
    case LogoutOp(sid) => Logout(c, s, sid)
  }

  function Run(c: Config, s: State, ops: seq<Op>): State
    decreases |ops|
  {
    if ops == [] then s else Run(c, Apply(c, s, ops[0]), ops[1..])
  }

  /** Ids of sessions are new when they are given out. */
  predicate FreshIds(c: Config, s: State, ops: seq<Op>)
    decreases |ops|
  {
    ops == [] ||
    ((ops[0].LoginOp? || ops[0].GrantOp? ==> ops[0].sid !in s.sessions) &&
     FreshIds(c, Apply(c, s, ops[0]), ops[1..]))
  }

  /** What a step issues, if anything. */
  function Issues(c: Config, s: State, op: Op): Option<Issued> {
    var r := match op
      case LoginOp(username, password, sid, now) => Login(c, s, username, password, sid, now).1
      case GrantOp(principal, scope, ttl, sid, now) => Grant(c, s, principal, scope, ttl, sid, now).1
      case _ => Refused;
    if r.Granted? then Some(r.issued) else None
  }

  predicate KeepsKey(ops: seq<Op>) {
    forall k :: 0 <= k < |ops| ==> !ops[k].InitOp? && !ops[k].ShutdownOp?
  }

  lemma {:induction false} KeyIsKept(c: Config, s: State, ops: seq<Op>)
    requires KeepsKey(ops)
    ensures Run(c, s, ops).key == s.key
    decreases |ops|
  {
    if ops != [] {
      KeyIsKept(c, Apply(c, s, ops[0]), ops[1..]);
    }
  }

  /** A session's row stays as it is over every run, but for being deleted by its logout. */
  lemma {:induction false} RowStays(c: Config, s: State, ops: seq<Op>, sid: string)
    requires c.ems && sid in s.sessions && FreshIds(c, s, ops)
    ensures var s' := Run(c, s, ops);
      sid in s'.sessions &&
      s'.sessions[sid] == s.sessions[sid].(deleted := s.sessions[sid].deleted || LogoutOp(sid) in ops)
    decreases |ops|
  {
    if ops == [] {
    } else {
      RowStays(c, Apply(c, s, ops[0]), ops[1..], sid);
      assert LogoutOp(sid) in ops <==> ops[0] == LogoutOp(sid) || LogoutOp(sid) in ops[1..];
    }
  }

  /** Revalidation over every run: a session is valid until it expires, exactly unless it was
      logged out; without an entity store every session is. */
  lemma RevalidatedIff(c: Config, s: State, ops: seq<Op>, sid: string, now: int)
    requires c.ems ==> sid in s.sessions && FreshIds(c, s, ops)
    ensures Revalidated(c, Run(c, s, ops), sid, now) <==>
            !c.ems || (!s.sessions[sid].deleted && LogoutOp(sid) !in ops && now <= s.sessions[sid].expires)
  {
    if c.ems {
      RowStays(c, s, ops, sid);
    }
  }

  /** The claims of the token a step issues. */
  function ClaimsOf(op: Op, r: Issued): Payload
    requires op.LoginOp? || op.GrantOp?
  {
    Claims(r.user, r.session, op.now, r.expiresAt, if op.GrantOp? then op.scope else [])
  }

  lemma LoginIssues(c: Config, s: State, username: string, password: string, sid: string, now: int)
    requires Login(c, s, username, password, sid, now).1.Granted?
    ensures var (s', r) := Login(c, s, username, password, sid, now); var i := r.issued;
      && s.key.Some? && c.ems && s'.key == s.key
      && i == IssuedTo(c, s.key.value, i.user, sid, now, i.expiresAt, [])
      && s'.sessions == s.sessions[sid := Session(i.user, i.expiresAt, false)]
  {
  }

  lemma GrantIssues(c: Config, s: State, principal: string, scope: seq<string>, ttl: Option<int>, sid: string, now: int)
    requires Grant(c, s, principal, scope, ttl, sid, now).1.Granted?
    ensures var (s', r) := Grant(c, s, principal, scope, ttl, sid, now); var i := r.issued;
      && s.key.Some? && s'.key == s.key
      && i == IssuedTo(c, s.key.value, i.user, sid, now, i.expiresAt, scope)
      && (c.ems ==> s'.sessions == s.sessions[sid := Session(i.user, i.expiresAt, false)])
  {
  }

  lemma IssuedClaims(c: Config, s: State, op: Op)
    requires Issues(c, s, op).Some?
    ensures op.LoginOp? || op.GrantOp?
    ensures s.key.Some? && Apply(c, s, op).key == s.key
    ensures var r := Issues(c, s, op).value;
      && r.token == c.sign(ClaimsOf(op, r), s.key.value)
      && (c.ems ==> Apply(c, s, op).sessions == s.sessions[r.session := Session(r.user, r.expiresAt, false)])
  {
    if op.LoginOp? {
      LoginIssues(c, s, op.username, op.password, op.sid, op.now);
    } else if op.GrantOp? {
      GrantIssues(c, s, op.principal, op.scope, op.ttl, op.sid, op.now);
    }
  }

  /** The tokens of src/auth/jwt.ts do. */
  lemma JwtTokensHold(c: Config, f: Platform)
    requires c.UsesJwt(f)
    ensures c.TokensHold()
  {
    forall p, key, key', now ensures c.TokenHolds(p, key, key', now) {
      TokenIsChecked(c, f, p, key, key', now);
    }
  }

  lemma TokenIsChecked(c: Config, f: Platform, p: Payload, key: bytes, key': bytes, now: int)
    requires c.UsesJwt(f)
    ensures c.TokenHolds(p, key, key', now)
  {
    var token := SignJWT(f, p, key);
    assert c.sign(p, key) == token;
    assert c.check(token, key', now) == VerifyJWT(f, token, key', now);
    SignedIsVerifiedIff(f, p, key, key', now);
  }

  /** Tokens over every run: while the key stays, an issued token is accepted exactly until the
      whole second in which its session expires. */
  lemma AcceptedIff(c: Config, s: State, op: Op, ops: seq<Op>, now: int)
    requires c.TokensHold() && Issues(c, s, op).Some? && KeepsKey(ops)
    ensures Validated(c, Run(c, Apply(c, s, op), ops), Issues(c, s, op).value.token, now).Some? <==>
            now / 1000 < Issues(c, s, op).value.expiresAt / 1000
  {
    var r := Issues(c, s, op).value;
    IssuedClaims(c, s, op);
    KeyIsKept(c, Apply(c, s, op), ops);
    assert c.TokenHolds(ClaimsOf(op, r), s.key.value, s.key.value, now);
  }

  /** Whatever happens to the key, a token that is accepted belongs to the session it was
      issued for, and that session has not expired. */
  lemma AcceptedIsUnexpired(c: Config, s: State, op: Op, ops: seq<Op>, now: int)
    requires c.TokensHold() && Issues(c, s, op).Some? && op.sid !in s.sessions && FreshIds(c, Apply(c, s, op), ops)
    requires Validated(c, Run(c, Apply(c, s, op), ops), Issues(c, s, op).value.token, now).Some?
    ensures var r, s' := Issues(c, s, op).value, Run(c, Apply(c, s, op), ops);
      && now < r.expiresAt
      && Validated(c, s', r.token, now).value.sid == Some(r.session)
      && (c.ems ==> r.session in s'.sessions && s'.sessions[r.session].expires == r.expiresAt)
  {
    var r, s' := Issues(c, s, op).value, Run(c, Apply(c, s, op), ops);
    IssuedClaims(c, s, op);
    assert c.TokenHolds(ClaimsOf(op, r), s.key.value, s'.key.value, now);
    if c.ems {
      RowStays(c, Apply(c, s, op), ops, r.session);
    }
  }

  /** While the key stays, a token is refused before its session expires only in the session's
      last second. */
  lemma RefusedEarlyInLastSecond(c: Config, s: State, op: Op, ops: seq<Op>, now: int)
    requires c.TokensHold() && Issues(c, s, op).Some? && KeepsKey(ops)
    requires Validated(c, Run(c, Apply(c, s, op), ops), Issues(c, s, op).value.token, now).None?
    requires now < Issues(c, s, op).value.expiresAt
    ensures Issues(c, s, op).value.expiresAt - now < 1000
  {
    AcceptedIff(c, s, op, ops, now);
  }

  /** A token that is accepted, of a session not logged out, is of a session that revalidates. */
  lemma AcceptedRevalidates(c: Config, s: State, op: Op, ops: seq<Op>, now: int)
    requires c.TokensHold() && Issues(c, s, op).Some? && op.sid !in s.sessions && FreshIds(c, Apply(c, s, op), ops)
    requires var r := Issues(c, s, op).value;
      Validated(c, Run(c, Apply(c, s, op), ops), r.token, now).Some? && LogoutOp(r.session) !in ops
    ensures Revalidated(c, Run(c, Apply(c, s, op), ops), Issues(c, s, op).value.session, now)
  {
    var r := Issues(c, s, op).value;
    IssuedClaims(c, s, op);
    AcceptedIsUnexpired(c, s, op, ops, now);
    RevalidatedIff(c, Apply(c, s, op), ops, r.session, now);
  }

  /** After a shutdown nothing is accepted until the next init. */
  lemma NothingAfterShutdown(c: Config, s: State, ops: seq<Op>, token: string, now: int)
    requires KeepsKey(ops)
    ensures Validated(c, Run(c, Apply(c, s, ShutdownOp), ops), token, now) == None
    ensures forall op :: Issues(c, Run(c, Apply(c, s, ShutdownOp), ops), op) == None
  {
    KeyIsKept(c, Apply(c, s, ShutdownOp), ops);
  }

  // ---------------------------------------------------------------------------
  // Registered users

  lemma {:induction false} FindInMore(users: seq<User>, more: seq<User>, username: string)
    ensures FindUser(users + more, username) ==
      if FindUser(users, username).Some? then FindUser(users, username) else FindUser(more, username)
  {
    if users == [] {
      assert users + more == more;
    } else {
      assert (users + more)[1..] == users[1..] + more;
      FindInMore(users[1..], more, username);
    }
  }

  lemma {:induction false} UsersStay(c: Config, s: State, ops: seq<Op>, username: string)
    requires FindUser(s.users, username).Some?
    ensures FindUser(Run(c, s, ops).users, username) == FindUser(s.users, username)
    decreases |ops|
  {
    if ops != [] {
      var s' := Apply(c, s, ops[0]);
      if |s'.users| > |s.users| {
        assert s'.users == s.users + [s'.users[|s.users|]];
        FindInMore(s.users, [s'.users[|s.users|]], username);
      }
      UsersStay(c, s', ops[1..], username);
    }
  }

  /** Who has registered can log in from then on, whenever a key is set, with exactly the
      passwords that verify against the hash of the one given. */
  lemma RegisteredCanLogIn(c: Config, s: State, username: string, password: string, id: string,
                           ops: seq<Op>, tried: string, sid: string, now: int)
    requires Register(c, s, username, password, id).1.Registered?
    ensures var s' := Run(c, Register(c, s, username, password, id).0, ops);
      s'.key.Some? ==>
        var r := Login(c, s', username, tried, sid, now).1;
        && (r.Granted? <==> c.verify(tried, c.hash(password)))
        && (r.Granted? ==> r.issued.user == id && r.issued.expiresAt == now + c.sessionTTL)
  {
    var s1 := Register(c, s, username, password, id).0;
    FindInMore(s.users, [User(id, username, c.hash(password), false)], username);
    UsersStay(c, s1, ops, username);
  }

  // ---------------------------------------------------------------------------
  // Who gets what

  lemma {:induction false} FirstIsFound(users: seq<User>, k: nat)
    requires k < |users| && forall j :: 0 <= j < k ==> users[j].username != users[k].username
    ensures FindUser(users, users[k].username) == Some(users[k])
  {
    if k > 0 {
      FirstIsFound(users[1..], k - 1);
    }
  }

  lemma {:induction false} NobodyIsFound(users: seq<User>, username: string)
    requires forall j :: 0 <= j < |users| ==> users[j].username != username
    ensures FindUser(users, username).None?
  {
    if users != [] {
      NobodyIsFound(users[1..], username);
    }
  }

  /** Login: without a key or a store it is an error; otherwise the first user of that name gets a
      session of the standard length and its token, unless disabled or the password does not
      verify, and nobody else gets anything. */
  lemma LoginGives(c: Config, s: State, k: nat, password: string, sid: string, now: int)
    requires k < |s.users| && forall j :: 0 <= j < k ==> s.users[j].username != s.users[k].username
    ensures var user := s.users[k]; var (s', r) := Login(c, s, user.username, password, sid, now);
      var expires := now + c.sessionTTL;
      if s.key.None? || !c.ems then r == Invalid && s' == s
      else if user.disabled || !c.verify(password, user.hash) then r == Refused && s' == s
      else
        && s' == s.(sessions := s.sessions[sid := Session(user.id, expires, false)])
        && r == Granted(Issued(user.id, sid, c.sign(Payload(Some(user.id), Some(sid), now / 1000,
             Some(expires / 1000), []), s.key.value), expires))
  {
    FirstIsFound(s.users, k);
  }

  lemma StrangersGetNothing(c: Config, s: State, username: string, password: string, sid: string, now: int)
    requires forall j :: 0 <= j < |s.users| ==> s.users[j].username != username
    ensures Login(c, s, username, password, sid, now) == (s, if s.key.None? || !c.ems then Invalid else Refused)
  {
    NobodyIsFound(s.users, username);
  }

  /** Granting needs a key and nothing else: a token for the principal with the scope and the time
      to live that are asked for, or the standard one, and a row when there is a store. */
  lemma GrantGives(c: Config, s: State, principal: string, scope: seq<string>, ttl: Option<int>, sid: string, now: int)
    ensures var (s', r) := Grant(c, s, principal, scope, ttl, sid, now);
      var expires := now + match ttl { case Some(t) => t case None => c.sessionTTL };
      if s.key.None? then r == Invalid && s' == s
      else
        && s' == (if c.ems then s.(sessions := s.sessions[sid := Session(principal, expires, false)]) else s)
        && r == Granted(Issued(principal, sid, c.sign(Payload(Some(principal), Some(sid), now / 1000,
             Some(expires / 1000), scope), s.key.value), expires))
  {
  }

  /** Init sets the key and, when there is a store without the root user, adds it, enabled. */
  lemma InitGives(c: Config, s: State, key: bytes)
    ensures var root := "00000000-0000-0000-0000-000000000001";
      Init(c, s, key) ==
        if c.ems && forall k :: 0 <= k < |s.users| ==> s.users[k].id != root
        then State(Some(key), s.users + [User(root, "root", c.rootHash, false)], s.sessions)
        else State(Some(key), s.users, s.sessions)
  {
    var root := "00000000-0000-0000-0000-000000000001";
    assert HasId(s.users, ROOT_USER_ID) <==> exists k :: 0 <= k < |s.users| && s.users[k].id == root;
  }

  /** A name can be registered exactly when there is a store and nobody has it. */
  lemma RegisterGives(c: Config, s: State, username: string, password: string, id: string)
    ensures var (s', r) := Register(c, s, username, password, id);
      if !c.ems then r == NoStore && s' == s
      else if exists k :: 0 <= k < |s.users| && s.users[k].username == username then r == Taken && s' == s
      else r == Registered(id) && s' == s.(users := s.users + [User(id, username, c.hash(password), false)])
  {
    if k :| 0 <= k < |s.users| && s.users[k].username == username {
      NameIsFound(s.users, k);
    } else {
      NobodyIsFound(s.users, username);
    }
  }

  lemma {:induction false} NameIsFound(users: seq<User>, k: nat)
    requires k < |users|
    ensures FindUser(users, users[k].username).Some?
  {
    if k > 0 {
      NameIsFound(users[1..], k - 1);
    }
  }
}
