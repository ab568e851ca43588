/** Session tokens: refresh rotation with a grace period, logout, campus switch and session
    versions, over API processes that share Redis and the user table. Times are in
    milliseconds; token ids come from a counter, so they never repeat. */
module Sessions {
  import opened Results

  const REFRESH_ROTATION_GRACE_MS: int := 60_000
  const REFRESH_TTL_MS: int := 86_400_000
  const REVOKED_TTL_MS: int := 604_800_000
  const BLOCKED_TTL_MS: int := 900_000

  type Jti = nat

  datatype RefreshToken = RefreshToken(jti: Jti, userId: string, sessionVersion: nat, issuedAt: int)
  datatype AccessToken = AccessToken(jti: Jti, userId: string, sessionVersion: nat)

  datatype User = User(isActive: bool, sessionVersion: nat)

  /** What one API process remembers by itself. */
  datatype Local = Local(revoked: set<Jti>, grace: map<Jti, int>)

  /** Redis keys with the instant at which they expire, the user table, and the signed tokens.
      Without a Redis client nothing is stored and every lookup answers no. */
  datatype Shared = Shared(
    redis: bool, revokedUntil: map<Jti, int>, graceUntil: map<Jti, int>, blockedUntil: map<Jti, int>,
    users: map<string, User>, issued: map<Jti, RefreshToken>, access: map<Jti, AccessToken>, next: nat)

  datatype Denial = InvalidToken | TokenRevoked | UserNotFound | SessionExpired

  datatype Reply = NewSession(refresh: RefreshToken, token: AccessToken) | Denied(denial: Denial) | Done

  /** Signed by us and not past its expiry. */
  predicate Verified(s: Shared, token: RefreshToken, now: int) {
    token.jti in s.issued && s.issued[token.jti] == token && now < token.issuedAt + REFRESH_TTL_MS
  }

  predicate Alive(keys: map<Jti, int>, jti: Jti, now: int) { jti in keys && now < keys[jti] }

  function Pruned(l: Local, now: int): Local {
    l.(grace := map jti | jti in l.grace && l.grace[jti] > now :: l.grace[jti])
  }

  predicate HasGrace(l: Local, s: Shared, jti: Jti, now: int) {
    Alive(Pruned(l, now).grace, jti, now) || (s.redis && Alive(s.graceUntil, jti, now))
  }

  predicate Rotated(l: Local, s: Shared, jti: Jti, now: int) {
    jti in l.revoked || (s.redis && Alive(s.revokedUntil, jti, now))
  }

  /** The rotation check of a refresh, by itself. */
  predicate RotationAllows(l: Local, s: Shared, jti: Jti, now: int) {
    Rotated(l, s, jti, now) ==> HasGrace(l, s, jti, now)
  }

  function Revoke(l: Local, s: Shared, jti: Jti, now: int): (Local, Shared) {
    (l.(revoked := l.revoked + {jti}),
     if s.redis then s.(revokedUntil := s.revokedUntil[jti := now + REVOKED_TTL_MS]) else s)
  }

  function RememberGrace(l: Local, s: Shared, jti: Jti, now: int): (Local, Shared) {
    var pruned := Pruned(l, now);
    (pruned.(grace := pruned.grace[jti := now + REFRESH_ROTATION_GRACE_MS]),
     if s.redis then s.(graceUntil := s.graceUntil[jti := now + REFRESH_ROTATION_GRACE_MS]) else s)
  }

  function OpenSession(s: Shared, userId: string, now: int): (Shared, Reply)
    requires userId in s.users
  {
    var version := s.users[userId].sessionVersion;
    var refresh, token := RefreshToken(s.next, userId, version, now), AccessToken(s.next, userId, version);
    (s.(issued := s.issued[s.next := refresh], access := s.access[s.next := token], next := s.next + 1),
     NewSession(refresh, token))
  }

  predicate ActiveUser(s: Shared, userId: string) { userId in s.users && s.users[userId].isActive }

  // ---- calls on one process ------------------------------------------------------------

  function Login(s: Shared, userId: string, now: int): (Shared, Reply) {
    if !ActiveUser(s, userId) then (s, Denied(InvalidToken)) else OpenSession(s, userId, now)
  }

  function Refresh(l: Local, s: Shared, token: RefreshToken, now: int): (Local, Shared, Reply) {
    if !Verified(s, token, now) then (l, s, Denied(InvalidToken))
    else
      var seen := if Rotated(l, s, token.jti, now) then Pruned(l, now) else l;
      if !RotationAllows(l, s, token.jti, now) then (seen, s, Denied(TokenRevoked))
      else if !ActiveUser(s, token.userId) then (seen, s, Denied(UserNotFound))
      else if token.sessionVersion != s.users[token.userId].sessionVersion then (seen, s, Denied(SessionExpired))
      else
        var (l1, s1) := RememberGrace(seen.(revoked := seen.revoked + {token.jti}), s, token.jti, now);
        var (l2, s2) := Revoke(l1, s1, token.jti, now);
        var (s3, reply) := OpenSession(s2, token.userId, now);
        (l2, s3, reply)
  }

  function Logout(l: Local, s: Shared, token: RefreshToken, now: int): (Local, Shared) {
    if !Verified(s, token, now) then (l, s) else Revoke(l, s, token.jti, now)
  }

  function BumpVersion(s: Shared, userId: string): Shared {
    if userId !in s.users then s
    else s.(users := s.users[userId := s.users[userId].(sessionVersion := s.users[userId].sessionVersion + 1)])
  }

  /** Revokes the presented refresh token, blocks the access token, bumps the session version
      and only then insists on an active user. */
  function SwitchEntity(l: Local, s: Shared, userId: string, accessJti: Jti, current: Option<RefreshToken>, now: int)
    : (Local, Shared, Reply)
  {
    var (l1, s1) := if current.Some? then Logout(l, s, current.value, now) else (l, s);
    var s2 := if s1.redis then s1.(blockedUntil := s1.blockedUntil[accessJti := now + BLOCKED_TTL_MS]) else s1;
    var s3 := BumpVersion(s2, userId);
    if !ActiveUser(s3, userId) then (l1, s3, Denied(UserNotFound))
    else var (s4, reply) := OpenSession(s3, userId, now); (l1, s4, reply)
  }

  /** The per-request check of an access token. */
  predicate AccessValid(s: Shared, token: AccessToken, now: int) {
    && token.jti in s.access && s.access[token.jti] == token
    && !(s.redis && Alive(s.blockedUntil, token.jti, now))
    && ActiveUser(s, token.userId) && token.sessionVersion == s.users[token.userId].sessionVersion
  }

  // ---- a process -----------------------------------------------------------------------

  /** Redis and the database, as every process sees them. */
  class Backend {
    var contents: Shared

    constructor (contents: Shared)
      ensures this.contents == contents
    {
      this.contents := contents;
    }
  }

  class AuthService {
    const backend: Backend
    var revokedRefresh: set<Jti>
    var refreshRotationGrace: map<Jti, int>

    constructor (backend: Backend)
      ensures this.backend == backend && Memory() == Local({}, map[])
    {
      this.backend := backend;
      revokedRefresh, refreshRotationGrace := {}, map[];
    }

    function Memory(): Local
      reads this
    {
      Local(revokedRefresh, refreshRotationGrace)
    }

    method PruneRefreshRotationGrace(now: int)
      modifies this`refreshRotationGrace
      ensures Memory() == Pruned(old(Memory()), now)
      ensures forall jti :: jti in refreshRotationGrace <==> jti in old(refreshRotationGrace) && old(refreshRotationGrace)[jti] > now
    {
      var todo := refreshRotationGrace.Keys;
      while todo != {}
        invariant todo <= refreshRotationGrace.Keys <= old(refreshRotationGrace).Keys
        invariant forall jti :: jti in refreshRotationGrace ==> refreshRotationGrace[jti] == old(refreshRotationGrace)[jti]
        invariant forall jti :: jti in old(refreshRotationGrace) && jti !in todo ==>
          (jti in refreshRotationGrace <==> old(refreshRotationGrace)[jti] > now)
        decreases todo
      {
        var jti :| jti in todo;
        if refreshRotationGrace[jti] <= now {
          refreshRotationGrace := refreshRotationGrace - {jti};
        }
        todo := todo - {jti};
      }
    }

    method HasRefreshRotationGrace(jti: Jti, now: int) returns (grace: bool)
      modifies this`refreshRotationGrace
      ensures Memory() == Pruned(old(Memory()), now)
      ensures grace == HasGrace(old(Memory()), backend.contents, jti, now)
    {
      PruneRefreshRotationGrace(now);
      if jti in refreshRotationGrace && refreshRotationGrace[jti] > now { return true; }
      return backend.contents.redis && Alive(backend.contents.graceUntil, jti, now);
    }

    method RememberRefreshRotationGrace(jti: Jti, now: int)
      modifies this`refreshRotationGrace, backend
      ensures (Memory(), backend.contents) == RememberGrace(old(Memory()), old(backend.contents), jti, now)
    {
      PruneRefreshRotationGrace(now);
      refreshRotationGrace := refreshRotationGrace[jti := now + REFRESH_ROTATION_GRACE_MS];
      if backend.contents.redis {
        backend.contents := backend.contents.(
          graceUntil := backend.contents.graceUntil[jti := now + REFRESH_ROTATION_GRACE_MS]);
      }
    }

    method RevokeRefreshJti(jti: Jti, now: int)
      modifies this`revokedRefresh, backend
      ensures (Memory(), backend.contents) == Revoke(old(Memory()), old(backend.contents), jti, now)
    {
      revokedRefresh := revokedRefresh + {jti};
      if backend.contents.redis {
        backend.contents := backend.contents.(
          revokedUntil := backend.contents.revokedUntil[jti := now + REVOKED_TTL_MS]);
      }
    }

    method BuildAuthSession(userId: string, now: int) returns (reply: Reply)
      requires userId in backend.contents.users
      modifies backend
      ensures (backend.contents, reply) == OpenSession(old(backend.contents), userId, now)
    {
      var (after, session) := OpenSession(backend.contents, userId, now);
      backend.contents := after;
      return session;
    }

    method RefreshSession(token: RefreshToken, now: int) returns (reply: Reply)
      modifies this, backend
      ensures (Memory(), backend.contents, reply) == Refresh(old(Memory()), old(backend.contents), token, now)
    {
      if !Verified(backend.contents, token, now) { return Denied(InvalidToken); }
      var rotated := token.jti in revokedRefresh
        || (backend.contents.redis && Alive(backend.contents.revokedUntil, token.jti, now));
      if rotated {
        var grace := HasRefreshRotationGrace(token.jti, now);
        if !grace { return Denied(TokenRevoked); }
      }
      if !ActiveUser(backend.contents, token.userId) { return Denied(UserNotFound); }
      if token.sessionVersion != backend.contents.users[token.userId].sessionVersion { return Denied(SessionExpired); }
      revokedRefresh := revokedRefresh + {token.jti};
      RememberRefreshRotationGrace(token.jti, now);
      RevokeRefreshJti(token.jti, now);
      reply := BuildAuthSession(token.userId, now);
    }

    method LogoutSession(token: RefreshToken, now: int)
      modifies this`revokedRefresh, backend
      ensures (Memory(), backend.contents) == Logout(old(Memory()), old(backend.contents), token, now)
    {
      if Verified(backend.contents, token, now) { RevokeRefreshJti(token.jti, now); }
    }

    method SwitchToEntity(userId: string, accessJti: Jti, current: Option<RefreshToken>, now: int) returns (reply: Reply)
      modifies this`revokedRefresh, backend
      ensures (Memory(), backend.contents, reply)
              == SwitchEntity(old(Memory()), old(backend.contents), userId, accessJti, current, now)
    {
      if current.Some? { LogoutSession(current.value, now); }
      if backend.contents.redis {
        backend.contents := backend.contents.(
          blockedUntil := backend.contents.blockedUntil[accessJti := now + BLOCKED_TTL_MS]);
      }
      backend.contents := BumpVersion(backend.contents, userId);
      if !ActiveUser(backend.contents, userId) { return Denied(UserNotFound); }
      reply := BuildAuthSession(userId, now);
    }
  }
}
