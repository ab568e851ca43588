/** What every run of session calls keeps, over any number of processes that come and go, with
    or without Redis. The log records what was revoked and what was used, when and where. */
module SessionSafety {
  import opened Results
  import opened Sessions

  /** A refresh token was revoked by a process in one of its lives; `used` if by an accepted
      refresh. */
  datatype Event = Event(jti: Jti, at: int, used: bool, pid: nat, life: nat)

  /** `lives` counts the restarts of a process. */
  datatype Cluster = Cluster(locals: map<nat, Local>, shared: Shared, log: seq<Event>, lives: map<nat, nat>)

  datatype Call =
    | CallLogin(userId: string)
    | CallRefresh(pid: nat, token: RefreshToken)
    | CallLogout(pid: nat, token: RefreshToken)
    | CallSwitch(pid: nat, userId: string, accessJti: Jti, current: Option<RefreshToken>)
    | CallResetPassword(userId: string)
    | CallSetActive(userId: string, active: bool)
    | CallRestart(pid: nat)

  const FORGETFUL := Local({}, map[])

  function LifeOf(c: Cluster, pid: nat): nat { if pid in c.lives then c.lives[pid] else 0 }

  function LocalOf(c: Cluster, pid: nat): Local { if pid in c.locals then c.locals[pid] else FORGETFUL }

  function SetActive(s: Shared, userId: string, active: bool): Shared {
    s.(users := s.users[userId := User(active, if userId in s.users then s.users[userId].sessionVersion else 0)])
  }

  function LogRevoked(c: Cluster, pid: nat, token: RefreshToken, now: int): seq<Event> {
    if Verified(c.shared, token, now) then [Event(token.jti, now, false, pid, LifeOf(c, pid))] else []
  }

  function Step(c: Cluster, call: Call, now: int): (Cluster, Reply) {
    match call
    case CallLogin(userId) =>
      var (s, reply) := Login(c.shared, userId, now);
      (c.(shared := s), reply)
    case CallRefresh(pid, token) =>
      var (l, s, reply) := Refresh(LocalOf(c, pid), c.shared, token, now);
      var more := if reply.NewSession? then [Event(token.jti, now, true, pid, LifeOf(c, pid))] else [];
      (Cluster(c.locals[pid := l], s, c.log + more, c.lives), reply)
    case CallLogout(pid, token) =>
      var (l, s) := Logout(LocalOf(c, pid), c.shared, token, now);
      (Cluster(c.locals[pid := l], s, c.log + LogRevoked(c, pid, token, now), c.lives), Done)
    case CallSwitch(pid, userId, accessJti, current) =>
      var (l, s, reply) := SwitchEntity(LocalOf(c, pid), c.shared, userId, accessJti, current, now);
      var more := if current.Some? then LogRevoked(c, pid, current.value, now) else [];
      (Cluster(c.locals[pid := l], s, c.log + more, c.lives), reply)
    case CallResetPassword(userId) => (c.(shared := BumpVersion(c.shared, userId)), Done)
    case CallSetActive(userId, active) => (c.(shared := SetActive(c.shared, userId, active)), Done)
    case CallRestart(pid) => (c.(locals := c.locals - {pid}, lives := c.lives[pid := LifeOf(c, pid) + 1]), Done)
  }

  // ---- the specification over the log ----------------------------------------------------

  /** With Redis every process sees what any process did; without it a process sees what it
      did itself since its last restart. */
  predicate Sees(redis: bool, pid: nat, life: nat, e: Event) { redis || (e.pid == pid && e.life == life) }

  ghost predicate WasRevoked(c: Cluster, pid: nat, jti: Jti) {
    exists i :: 0 <= i < |c.log| && c.log[i].jti == jti && Sees(c.shared.redis, pid, LifeOf(c, pid), c.log[i])
  }

  /** The last accepted use was less than a grace period ago. */
  ghost predicate UsedWithin(c: Cluster, pid: nat, jti: Jti, now: int) {
    exists i :: 0 <= i < |c.log| && c.log[i].jti == jti && Sees(c.shared.redis, pid, LifeOf(c, pid), c.log[i])
                && c.log[i].used && now < c.log[i].at + REFRESH_ROTATION_GRACE_MS
  }

  ghost predicate MayRotate(c: Cluster, pid: nat, jti: Jti, now: int) {
    WasRevoked(c, pid, jti) ==> UsedWithin(c, pid, jti, now)
  }

  // ---- the invariant -------------------------------------------------------------------

  ghost predicate RevokedIn(log: seq<Event>, redis: bool, pid: nat, life: nat, jti: Jti) {
    exists i :: 0 <= i < |log| && log[i].jti == jti && Sees(redis, pid, life, log[i])
  }

  ghost predicate GraceOf(log: seq<Event>, redis: bool, pid: nat, life: nat, jti: Jti, until: int) {
    exists i :: 0 <= i < |log| && log[i].jti == jti && Sees(redis, pid, life, log[i])
                && log[i].used && until == log[i].at + REFRESH_ROTATION_GRACE_MS
  }

  /** What is remembered happened where it can be seen from. */
  ghost predicate Sound(log: seq<Event>, redis: bool, pid: nat, life: nat, revoked: set<Jti>, grace: map<Jti, int>) {
    (forall jti :: jti in revoked ==> RevokedIn(log, redis, pid, life, jti))
    && (forall jti :: jti in grace ==> GraceOf(log, redis, pid, life, jti, grace[jti]))
  }

  ghost predicate LocalSound(log: seq<Event>, l: Local, pid: nat, life: nat) {
    Sound(log, false, pid, life, l.revoked, l.grace)
  }

  ghost predicate RedisSound(log: seq<Event>, s: Shared) { Sound(log, true, 0, 0, s.revokedUntil.Keys, s.graceUntil) }

  ghost predicate KnownToRedis(s: Shared, e: Event) {
    && e.jti in s.revokedUntil && s.revokedUntil[e.jti] >= e.at + REVOKED_TTL_MS
    && (e.used ==> e.jti in s.graceUntil && s.graceUntil[e.jti] >= e.at + REFRESH_ROTATION_GRACE_MS)
  }

  ghost predicate KnownLocally(l: Local, e: Event, clock: int) {
    && e.jti in l.revoked
    && (e.used && clock < e.at + REFRESH_ROTATION_GRACE_MS ==>
          e.jti in l.grace && l.grace[e.jti] >= e.at + REFRESH_ROTATION_GRACE_MS)
  }

  ghost predicate Known(c: Cluster, e: Event, clock: int) {
    if c.shared.redis then KnownToRedis(c.shared, e)
    else e.life == LifeOf(c, e.pid) ==> KnownLocally(LocalOf(c, e.pid), e, clock)
  }

  ghost predicate EventSound(c: Cluster, e: Event, clock: int) {
    e.jti in c.shared.issued && c.shared.issued[e.jti].issuedAt <= e.at <= clock && e.life <= LifeOf(c, e.pid)
  }

  ghost predicate TokensSound(s: Shared, clock: int) {
    && (forall j :: j in s.issued ==>
          j < s.next && s.issued[j].jti == j && s.issued[j].issuedAt <= clock
          && s.issued[j].userId in s.users && s.issued[j].sessionVersion <= s.users[s.issued[j].userId].sessionVersion)
    && (forall j :: j in s.access ==>
          j < s.next && s.access[j].jti == j
          && s.access[j].userId in s.users && s.access[j].sessionVersion <= s.users[s.access[j].userId].sessionVersion)
  }

  ghost predicate Inv(c: Cluster, clock: int) {
    && (forall pid :: pid in c.locals ==> LocalSound(c.log, c.locals[pid], pid, LifeOf(c, pid)))
    && RedisSound(c.log, c.shared)
    && (forall i :: 0 <= i < |c.log| ==> Known(c, c.log[i], clock) && EventSound(c, c.log[i], clock))
    && TokensSound(c.shared, clock)
  }

  // ---- the rotation check is exact -------------------------------------------------------

  lemma RotatedExact(c: Cluster, clock: int, pid: nat, token: RefreshToken, now: int)
    requires Inv(c, clock) && clock <= now && Verified(c.shared, token, now)
    ensures Rotated(LocalOf(c, pid), c.shared, token.jti, now) <==> WasRevoked(c, pid, token.jti)
  {
    if i :| 0 <= i < |c.log| && c.log[i].jti == token.jti && Sees(c.shared.redis, pid, LifeOf(c, pid), c.log[i]) {
      assert Known(c, c.log[i], clock) && EventSound(c, c.log[i], clock);
    }
    LocalOfSound(c, pid, clock);
    RotatedSound(c, clock, pid, token.jti, now);
  }

  lemma RotatedSound(c: Cluster, clock: int, pid: nat, jti: Jti, now: int)
    requires Inv(c, clock)
    ensures Rotated(LocalOf(c, pid), c.shared, jti, now) ==> WasRevoked(c, pid, jti)
  {
    if jti in LocalOf(c, pid).revoked {
      LocalOfSound(c, pid, clock);
      assert RevokedIn(c.log, false, pid, LifeOf(c, pid), jti);
    } else if c.shared.redis && Alive(c.shared.revokedUntil, jti, now) {
      assert jti in c.shared.revokedUntil.Keys;
      assert RevokedIn(c.log, true, 0, 0, jti);
    }
  }

  lemma GraceSound(c: Cluster, clock: int, pid: nat, jti: Jti, now: int)
    requires Inv(c, clock)
    ensures HasGrace(LocalOf(c, pid), c.shared, jti, now) ==> UsedWithin(c, pid, jti, now)
  {
    var l := LocalOf(c, pid);
    if Alive(Pruned(l, now).grace, jti, now) {
      LocalOfSound(c, pid, clock);
      assert GraceOf(c.log, false, pid, LifeOf(c, pid), jti, l.grace[jti]);
    } else if c.shared.redis && Alive(c.shared.graceUntil, jti, now) {
      assert GraceOf(c.log, true, 0, 0, jti, c.shared.graceUntil[jti]);
    }
  }

  lemma GraceExact(c: Cluster, clock: int, pid: nat, jti: Jti, now: int)
    requires Inv(c, clock) && clock <= now
    ensures HasGrace(LocalOf(c, pid), c.shared, jti, now) <==> UsedWithin(c, pid, jti, now)
  {
    if i :| 0 <= i < |c.log| && c.log[i].jti == jti && Sees(c.shared.redis, pid, LifeOf(c, pid), c.log[i])
            && c.log[i].used && now < c.log[i].at + REFRESH_ROTATION_GRACE_MS
    {
      assert Known(c, c.log[i], clock);
    }
    GraceSound(c, clock, pid, jti, now);
  }

  /** On every process a refresh is accepted exactly when the token is genuine and unexpired,
      was never revoked or last used under a minute ago as far as the process can see, and
      carries its active user's current session version. */
  lemma RefreshExact(c: Cluster, clock: int, pid: nat, token: RefreshToken, now: int)
    requires Inv(c, clock) && clock <= now
    ensures Step(c, CallRefresh(pid, token), now).1.NewSession? <==>
            && Verified(c.shared, token, now) && MayRotate(c, pid, token.jti, now)
            && ActiveUser(c.shared, token.userId)
            && token.sessionVersion == c.shared.users[token.userId].sessionVersion
  {
    if Verified(c.shared, token, now) {
      RotatedExact(c, clock, pid, token, now);
      GraceExact(c, clock, pid, token.jti, now);
    }
  }

  /** Pruning never changes an answer, now or later. */
  lemma PruneInvisible(l: Local, s: Shared, jti: Jti, now: int, later: int)
    requires now <= later
    ensures HasGrace(Pruned(l, now), s, jti, later) == HasGrace(l, s, jti, later)
    ensures RotationAllows(Pruned(l, now), s, jti, later) == RotationAllows(l, s, jti, later)
  {
  }

  // ---- every call keeps the invariant ----------------------------------------------------

  lemma RevokedMore(log: seq<Event>, more: seq<Event>, redis: bool, pid: nat, life: nat, jti: Jti)
    requires RevokedIn(log, redis, pid, life, jti)
    ensures RevokedIn(log + more, redis, pid, life, jti)
  {
    var i :| 0 <= i < |log| && log[i].jti == jti && Sees(redis, pid, life, log[i]);
    assert (log + more)[i] == log[i];
  }

  lemma GraceOfMore(log: seq<Event>, more: seq<Event>, redis: bool, pid: nat, life: nat, jti: Jti, until: int)
    requires GraceOf(log, redis, pid, life, jti, until)
    ensures GraceOf(log + more, redis, pid, life, jti, until)
  {
    var i :| 0 <= i < |log| && log[i].jti == jti && Sees(redis, pid, life, log[i])
             && log[i].used && until == log[i].at + REFRESH_ROTATION_GRACE_MS;
    assert (log + more)[i] == log[i];
  }

  lemma SoundMore(log: seq<Event>, more: seq<Event>, redis: bool, pid: nat, life: nat, revoked: set<Jti>, grace: map<Jti, int>)
    requires Sound(log, redis, pid, life, revoked, grace)
    ensures Sound(log + more, redis, pid, life, revoked, grace)
  {
    forall jti | jti in revoked ensures RevokedIn(log + more, redis, pid, life, jti) {
      RevokedMore(log, more, redis, pid, life, jti);
    }
    forall jti | jti in grace ensures GraceOf(log + more, redis, pid, life, jti, grace[jti]) {
      GraceOfMore(log, more, redis, pid, life, jti, grace[jti]);
    }
  }

  /** Time passing forgets nothing that matters. */
  lemma InvLater(c: Cluster, clock: int, now: int)
    requires Inv(c, clock) && clock <= now
    ensures Inv(c, now)
  {
    forall i | 0 <= i < |c.log| ensures Known(c, c.log[i], now) && EventSound(c, c.log[i], now) {
      assert Known(c, c.log[i], clock) && EventSound(c, c.log[i], clock);
    }
  }

  /** The same rotation records with users, tokens and access blocks that only grow. */
  ghost predicate SameRecords(s: Shared, s': Shared) {
    s'.redis == s.redis && s'.revokedUntil == s.revokedUntil && s'.graceUntil == s.graceUntil
    && forall j :: j in s.issued ==> j in s'.issued && s'.issued[j] == s.issued[j]
  }

  lemma InvShared(c: Cluster, s: Shared, now: int)
    requires Inv(c, now) && SameRecords(c.shared, s) && TokensSound(s, now)
    ensures Inv(c.(shared := s), now)
  {
    var c' := c.(shared := s);
    forall i | 0 <= i < |c'.log| ensures Known(c', c'.log[i], now) && EventSound(c', c'.log[i], now) {
      assert Known(c, c.log[i], now) && EventSound(c, c.log[i], now);
    }
  }

  lemma LocalOfSound(c: Cluster, pid: nat, now: int)
    requires Inv(c, now)
    ensures LocalSound(c.log, LocalOf(c, pid), pid, LifeOf(c, pid))
  {
  }

  lemma PrunedSound(log: seq<Event>, l: Local, pid: nat, life: nat, now: int)
    requires LocalSound(log, l, pid, life)
    ensures LocalSound(log, Pruned(l, now), pid, life)
  {
  }

  /** A process's memory may lose expired grace entries. */
  lemma InvLocal(c: Cluster, pid: nat, l: Local, now: int)
    requires Inv(c, now) && (l == LocalOf(c, pid) || l == Pruned(LocalOf(c, pid), now))
    ensures Inv(c.(locals := c.locals[pid := l]), now)
  {
    var c' := c.(locals := c.locals[pid := l]);
    LocalOfSound(c, pid, now);
    PrunedSound(c.log, LocalOf(c, pid), pid, LifeOf(c, pid), now);
    forall i | 0 <= i < |c'.log| ensures Known(c', c'.log[i], now) && EventSound(c', c'.log[i], now) {
      assert Known(c, c.log[i], now) && EventSound(c, c.log[i], now);
    }
  }

  /** The cluster after process pid has recorded an event. */
  function Recorded(c: Cluster, e: Event, l: Local, s: Shared): Cluster {
    Cluster(c.locals[e.pid := l], s, c.log + [e], c.lives)
  }

  /** One more event, with each part of the invariant shown for the new records. */
  lemma InvRecord(c: Cluster, e: Event, l: Local, s: Shared, now: int)
    requires Inv(c, now) && EventSound(c, e, now)
    requires LocalSound(c.log + [e], l, e.pid, LifeOf(c, e.pid)) && RedisSound(c.log + [e], s)
    requires s.issued == c.shared.issued && TokensSound(s, now)
    requires forall e0: Event :: Known(c, e0, now) && e0.at <= now ==> Known(Recorded(c, e, l, s), e0, now)
    requires Known(Recorded(c, e, l, s), e, now)
    ensures Inv(Recorded(c, e, l, s), now)
  {
    var c' := Recorded(c, e, l, s);
    forall p | p in c'.locals ensures LocalSound(c'.log, c'.locals[p], p, LifeOf(c', p)) {
      if p != e.pid { SoundMore(c.log, [e], false, p, LifeOf(c, p), c.locals[p].revoked, c.locals[p].grace); }
    }
    forall i | 0 <= i < |c'.log| ensures Known(c', c'.log[i], now) && EventSound(c', c'.log[i], now) {
      if i < |c.log| { assert Known(c, c.log[i], now) && EventSound(c, c.log[i], now); }
    }
  }

  lemma NewestSeen(log: seq<Event>, e: Event, redis: bool, pid: nat, life: nat)
    requires Sees(redis, pid, life, e)
    ensures RevokedIn(log + [e], redis, pid, life, e.jti)
    ensures e.used ==> GraceOf(log + [e], redis, pid, life, e.jti, e.at + REFRESH_ROTATION_GRACE_MS)
  {
    assert (log + [e])[|log|] == e;
  }

  /** Remembering the newest event keeps a memory sound. */
  lemma SoundWith(log: seq<Event>, e: Event, redis: bool, pid: nat, life: nat, revoked: set<Jti>, grace: map<Jti, int>)
    requires Sound(log, redis, pid, life, revoked, grace) && Sees(redis, pid, life, e)
    ensures Sound(log + [e], redis, pid, life, revoked + {e.jti}, grace)
    ensures e.used ==> Sound(log + [e], redis, pid, life, revoked + {e.jti}, grace[e.jti := e.at + REFRESH_ROTATION_GRACE_MS])
  {
    SoundMore(log, [e], redis, pid, life, revoked, grace);
    NewestSeen(log, e, redis, pid, life);
  }

  lemma InvRevoke(c: Cluster, pid: nat, token: RefreshToken, now: int)
    requires Inv(c, now) && Verified(c.shared, token, now)
    ensures var (l, s) := Revoke(LocalOf(c, pid), c.shared, token.jti, now);
            Inv(Recorded(c, Event(token.jti, now, false, pid, LifeOf(c, pid)), l, s), now)
  {
    var (l, s) := Revoke(LocalOf(c, pid), c.shared, token.jti, now);
    var e := Event(token.jti, now, false, pid, LifeOf(c, pid));
    LocalOfSound(c, pid, now);
    RevokeSound(c.log, LocalOf(c, pid), c.shared, e);
    forall e0: Event | Known(c, e0, now) && e0.at <= now ensures Known(Recorded(c, e, l, s), e0, now) {
      RevokeKeepsKnown(c, pid, token.jti, e0, now);
    }
    InvRecord(c, e, l, s, now);
  }

  lemma RevokeSound(log: seq<Event>, l: Local, s: Shared, e: Event)
    requires LocalSound(log, l, e.pid, e.life) && RedisSound(log, s)
    ensures var (l', s') := Revoke(l, s, e.jti, e.at);
            LocalSound(log + [e], l', e.pid, e.life) && RedisSound(log + [e], s')
  {
    SoundWith(log, e, false, e.pid, e.life, l.revoked, l.grace);
    if s.redis {
      SoundWith(log, e, true, 0, 0, s.revokedUntil.Keys, s.graceUntil);
      assert Revoke(l, s, e.jti, e.at).1.revokedUntil.Keys == s.revokedUntil.Keys + {e.jti};
    } else {
      SoundMore(log, [e], true, 0, 0, s.revokedUntil.Keys, s.graceUntil);
    }
  }

  lemma RevokeKeepsKnown(c: Cluster, pid: nat, jti: Jti, e0: Event, now: int)
    requires Known(c, e0, now) && e0.at <= now
    ensures var (l, s) := Revoke(LocalOf(c, pid), c.shared, jti, now);
            Known(Recorded(c, Event(jti, now, false, pid, LifeOf(c, pid)), l, s), e0, now)
  {
  }

  /** The records after the rotation part of an accepted refresh. */
  function RotatedLocal(l: Local, jti: Jti, now: int): Local {
    Local(l.revoked + {jti}, Pruned(l, now).grace[jti := now + REFRESH_ROTATION_GRACE_MS])
  }

  function RotatedShared(s: Shared, jti: Jti, now: int): Shared {
    if !s.redis then s
    else s.(revokedUntil := s.revokedUntil[jti := now + REVOKED_TTL_MS],
            graceUntil := s.graceUntil[jti := now + REFRESH_ROTATION_GRACE_MS])
  }

  lemma RotatedLocalSound(log: seq<Event>, l: Local, e: Event)
    requires LocalSound(log, l, e.pid, e.life) && e.used
    ensures LocalSound(log + [e], RotatedLocal(l, e.jti, e.at), e.pid, e.life)
  {
    var kept := Pruned(l, e.at).grace;
    assert Sound(log, false, e.pid, e.life, l.revoked, kept);
    SoundWith(log, e, false, e.pid, e.life, l.revoked, kept);
  }

  lemma RotatedSharedSound(log: seq<Event>, s: Shared, e: Event)
    requires RedisSound(log, s) && e.used
    ensures RedisSound(log + [e], RotatedShared(s, e.jti, e.at))
  {
    if s.redis {
      SoundWith(log, e, true, 0, 0, s.revokedUntil.Keys, s.graceUntil);
      assert RotatedShared(s, e.jti, e.at).revokedUntil.Keys == s.revokedUntil.Keys + {e.jti};
    } else {
      SoundMore(log, [e], true, 0, 0, s.revokedUntil.Keys, s.graceUntil);
    }
  }

  /** The event of a refresh accepted by process pid. */
  function UseOf(c: Cluster, pid: nat, jti: Jti, now: int): Event { Event(jti, now, true, pid, LifeOf(c, pid)) }

  function Rotation(c: Cluster, pid: nat, jti: Jti, now: int): Cluster {
    Recorded(c, UseOf(c, pid, jti, now), RotatedLocal(LocalOf(c, pid), jti, now), RotatedShared(c.shared, jti, now))
  }

  /** An accepted refresh revokes the token and grants a grace period at once. */
  lemma InvRotate(c: Cluster, pid: nat, token: RefreshToken, now: int)
    requires Inv(c, now) && Verified(c.shared, token, now)
    ensures Inv(Rotation(c, pid, token.jti, now), now)
  {
    var e := UseOf(c, pid, token.jti, now);
    LocalOfSound(c, pid, now);
    RotatedLocalSound(c.log, LocalOf(c, pid), e);
    RotatedSharedSound(c.log, c.shared, e);
    forall e0: Event | Known(c, e0, now) && e0.at <= now ensures Known(Rotation(c, pid, token.jti, now), e0, now) {
      RotateKeepsKnown(c, pid, token.jti, e0, now);
    }
    InvRecord(c, e, RotatedLocal(LocalOf(c, pid), token.jti, now), RotatedShared(c.shared, token.jti, now), now);
  }

  lemma RotateKeepsKnown(c: Cluster, pid: nat, jti: Jti, e0: Event, now: int)
    requires Known(c, e0, now) && e0.at <= now
    ensures Known(Rotation(c, pid, jti, now), e0, now)
  {
  }

  lemma PrunedAgain(l: Local, now: int)
    ensures Pruned(Pruned(l, now), now) == Pruned(l, now)
  {
    assert Pruned(Pruned(l, now), now).grace == Pruned(l, now).grace;
  }

  /** Where an accepted refresh leaves the process and the shared records. */
  lemma RefreshAccepted(l: Local, s: Shared, token: RefreshToken, now: int)
    requires Refresh(l, s, token, now).2.NewSession?
    ensures Verified(s, token, now) && ActiveUser(s, token.userId)
    ensures Refresh(l, s, token, now).0 == RotatedLocal(l, token.jti, now)
    ensures Refresh(l, s, token, now).1 == OpenSession(RotatedShared(s, token.jti, now), token.userId, now).0
  {
    var seen := if Rotated(l, s, token.jti, now) then Pruned(l, now) else l;
    PrunedAgain(l, now);
    assert Pruned(seen.(revoked := seen.revoked + {token.jti}), now).grace == Pruned(l, now).grace;
  }

  lemma RefreshRefused(l: Local, s: Shared, token: RefreshToken, now: int)
    requires !Refresh(l, s, token, now).2.NewSession?
    ensures Refresh(l, s, token, now).1 == s
    ensures Refresh(l, s, token, now).0 == l || Refresh(l, s, token, now).0 == Pruned(l, now)
  {
  }

  lemma OpenSessionSound(s: Shared, userId: string, now: int)
    requires userId in s.users && TokensSound(s, now)
    ensures SameRecords(s, OpenSession(s, userId, now).0) && TokensSound(OpenSession(s, userId, now).0, now)
  {
  }

  lemma BumpVersionSound(s: Shared, userId: string, now: int)
    requires TokensSound(s, now)
    ensures SameRecords(s, BumpVersion(s, userId)) && TokensSound(BumpVersion(s, userId), now)
  {
  }

  lemma SetActiveSound(s: Shared, userId: string, active: bool, now: int)
    requires TokensSound(s, now)
    ensures SameRecords(s, SetActive(s, userId, active)) && TokensSound(SetActive(s, userId, active), now)
  {
  }

  lemma InvLogin(c: Cluster, userId: string, now: int)
    requires Inv(c, now)
    ensures Inv(Step(c, CallLogin(userId), now).0, now)
  {
    if ActiveUser(c.shared, userId) {
      OpenSessionSound(c.shared, userId, now);
      InvShared(c, OpenSession(c.shared, userId, now).0, now);
    } else {
      assert Step(c, CallLogin(userId), now).0 == c;
    }
  }

  lemma InvRefresh(c: Cluster, pid: nat, token: RefreshToken, now: int)
    requires Inv(c, now)
    ensures Inv(Step(c, CallRefresh(pid, token), now).0, now)
  {
    var l := LocalOf(c, pid);
    var after := Step(c, CallRefresh(pid, token), now).0;
    if Refresh(l, c.shared, token, now).2.NewSession? {
      RefreshAccepted(l, c.shared, token, now);
      InvRotate(c, pid, token, now);
      var mid := Rotation(c, pid, token.jti, now);
      OpenSessionSound(mid.shared, token.userId, now);
      InvShared(mid, OpenSession(mid.shared, token.userId, now).0, now);
      assert after == mid.(shared := OpenSession(mid.shared, token.userId, now).0);
    } else {
      RefreshRefused(l, c.shared, token, now);
      InvLocal(c, pid, Refresh(l, c.shared, token, now).0, now);
      assert c.log + [] == c.log;
      assert after == c.(locals := c.locals[pid := Refresh(l, c.shared, token, now).0]);
    }
  }

  lemma InvLogout(c: Cluster, pid: nat, token: RefreshToken, now: int)
    requires Inv(c, now)
    ensures Inv(Step(c, CallLogout(pid, token), now).0, now)
  {
    var after := Step(c, CallLogout(pid, token), now).0;
    if Verified(c.shared, token, now) {
      InvRevoke(c, pid, token, now);
    } else {
      InvLocal(c, pid, LocalOf(c, pid), now);
      assert c.log + [] == c.log;
      assert after == c.(locals := c.locals[pid := LocalOf(c, pid)]);
    }
  }

  function Blocked(s: Shared, accessJti: Jti, now: int): Shared {
    if s.redis then s.(blockedUntil := s.blockedUntil[accessJti := now + BLOCKED_TTL_MS]) else s
  }

  /** A campus switch after its logout part. */
  function SwitchRest(s: Shared, userId: string, accessJti: Jti, now: int): Shared {
    var bumped := BumpVersion(Blocked(s, accessJti, now), userId);
    if ActiveUser(bumped, userId) then OpenSession(bumped, userId, now).0 else bumped
  }

  lemma SwitchRestSound(s: Shared, userId: string, accessJti: Jti, now: int)
    requires TokensSound(s, now)
    ensures SameRecords(s, SwitchRest(s, userId, accessJti, now)) && TokensSound(SwitchRest(s, userId, accessJti, now), now)
  {
    var blocked := Blocked(s, accessJti, now);
    BumpVersionSound(blocked, userId, now);
    var bumped := BumpVersion(blocked, userId);
    if ActiveUser(bumped, userId) { OpenSessionSound(bumped, userId, now); }
  }

  function BeforeSwitch(c: Cluster, pid: nat, current: Option<RefreshToken>, now: int): Cluster {
    if current.Some? then Step(c, CallLogout(pid, current.value), now).0
    else c.(locals := c.locals[pid := LocalOf(c, pid)])
  }

  lemma SwitchParts(c: Cluster, pid: nat, userId: string, accessJti: Jti, current: Option<RefreshToken>, now: int)
    ensures var mid := BeforeSwitch(c, pid, current, now);
            Step(c, CallSwitch(pid, userId, accessJti, current), now).0
            == mid.(shared := SwitchRest(mid.shared, userId, accessJti, now))
  {
    if current.None? { assert c.log + [] == c.log; }
  }

  lemma InvSwitch(c: Cluster, pid: nat, userId: string, accessJti: Jti, current: Option<RefreshToken>, now: int)
    requires Inv(c, now)
    ensures Inv(Step(c, CallSwitch(pid, userId, accessJti, current), now).0, now)
  {
    var mid := BeforeSwitch(c, pid, current, now);
    if current.Some? { InvLogout(c, pid, current.value, now); } else { InvLocal(c, pid, LocalOf(c, pid), now); }
    SwitchRestSound(mid.shared, userId, accessJti, now);
    InvShared(mid, SwitchRest(mid.shared, userId, accessJti, now), now);
    SwitchParts(c, pid, userId, accessJti, current, now);
  }

  lemma InvRestart(c: Cluster, pid: nat, now: int)
    requires Inv(c, now)
    ensures Inv(Step(c, CallRestart(pid), now).0, now)
  {
    var c' := Step(c, CallRestart(pid), now).0;
    forall p | p in c'.locals ensures LocalSound(c'.log, c'.locals[p], p, LifeOf(c', p)) {
      assert p != pid && LifeOf(c', p) == LifeOf(c, p);
    }
    forall i | 0 <= i < |c'.log| ensures Known(c', c'.log[i], now) && EventSound(c', c'.log[i], now) {
      assert Known(c, c.log[i], now) && EventSound(c, c.log[i], now);
    }
  }

  lemma StepInv(c: Cluster, clock: int, call: Call, now: int)
    requires Inv(c, clock) && clock <= now
    ensures Inv(Step(c, call, now).0, now)
  {
    InvLater(c, clock, now);
    match call
    case CallLogin(userId) => InvLogin(c, userId, now);
    case CallRefresh(pid, token) => InvRefresh(c, pid, token, now);
    case CallLogout(pid, token) => InvLogout(c, pid, token, now);
    case CallSwitch(pid, userId, accessJti, current) => InvSwitch(c, pid, userId, accessJti, current, now);
    case CallResetPassword(userId) =>
      BumpVersionSound(c.shared, userId, now);
      InvShared(c, BumpVersion(c.shared, userId), now);
    case CallSetActive(userId, active) =>
      SetActiveSound(c.shared, userId, active, now);
      InvShared(c, SetActive(c.shared, userId, active), now);
    case CallRestart(pid) => InvRestart(c, pid, now);
  }

  // ---- what every call only adds to --------------------------------------------------------

  /** Tokens are never reissued and session versions never fall. */
  ghost predicate Grows(s: Shared, s': Shared) {
    && s'.redis == s.redis && s.next <= s'.next
    && (forall j :: j in s.issued ==> j in s'.issued && s'.issued[j] == s.issued[j])
    && (forall j :: j in s.access ==> j in s'.access && s'.access[j] == s.access[j])
    && (forall u :: u in s.users ==> u in s'.users && s.users[u].sessionVersion <= s'.users[u].sessionVersion)
  }

  lemma GrowsOn(s: Shared, s1: Shared, s2: Shared)
    requires Grows(s, s1) && Grows(s1, s2)
    ensures Grows(s, s2)
  {
  }

  lemma OpenSessionGrows(s: Shared, userId: string, now: int)
    requires userId in s.users && TokensSound(s, now)
    ensures Grows(s, OpenSession(s, userId, now).0)
  {
  }

  lemma BumpVersionGrows(s: Shared, userId: string)
    ensures Grows(s, BumpVersion(s, userId))
  {
  }

  lemma SetActiveGrows(s: Shared, userId: string, active: bool)
    ensures Grows(s, SetActive(s, userId, active))
  {
  }

  lemma BlockedGrows(s: Shared, accessJti: Jti, now: int)
    ensures Grows(s, Blocked(s, accessJti, now))
  {
  }

  lemma LogoutGrows(l: Local, s: Shared, token: RefreshToken, now: int)
    ensures Grows(s, Logout(l, s, token, now).1)
  {
  }

  lemma BumpedAfterBlock(s: Shared, userId: string, accessJti: Jti, now: int)
    requires TokensSound(s, now)
    ensures Grows(s, BumpVersion(Blocked(s, accessJti, now), userId))
    ensures TokensSound(BumpVersion(Blocked(s, accessJti, now), userId), now)
  {
    BlockedGrows(s, accessJti, now);
    BumpVersionGrows(Blocked(s, accessJti, now), userId);
    BumpVersionSound(Blocked(s, accessJti, now), userId, now);
    GrowsOn(s, Blocked(s, accessJti, now), BumpVersion(Blocked(s, accessJti, now), userId));
  }

  lemma SwitchRestGrows(s: Shared, userId: string, accessJti: Jti, now: int)
    requires TokensSound(s, now)
    ensures Grows(s, SwitchRest(s, userId, accessJti, now))
  {
    BumpedAfterBlock(s, userId, accessJti, now);
    var bumped := BumpVersion(Blocked(s, accessJti, now), userId);
    if ActiveUser(bumped, userId) {
      OpenSessionGrows(bumped, userId, now);
      GrowsOn(s, bumped, OpenSession(bumped, userId, now).0);
    }
  }

  lemma BeforeSwitchUsers(c: Cluster, pid: nat, current: Option<RefreshToken>, now: int)
    ensures var mid := BeforeSwitch(c, pid, current, now).shared;
            mid.users == c.shared.users && mid.issued == c.shared.issued && mid.access == c.shared.access
            && mid.next == c.shared.next && mid.redis == c.shared.redis
  {
  }

  lemma SwitchGrows(c: Cluster, pid: nat, userId: string, accessJti: Jti, current: Option<RefreshToken>, now: int)
    requires TokensSound(c.shared, now)
    ensures Grows(c.shared, Step(c, CallSwitch(pid, userId, accessJti, current), now).0.shared)
  {
    SwitchParts(c, pid, userId, accessJti, current, now);
    BeforeSwitchUsers(c, pid, current, now);
    var mid := BeforeSwitch(c, pid, current, now).shared;
    SwitchRestGrows(mid, userId, accessJti, now);
    GrowsOn(c.shared, mid, SwitchRest(mid, userId, accessJti, now));
  }

  lemma RefreshGrows(l: Local, s: Shared, token: RefreshToken, now: int)
    requires TokensSound(s, now)
    ensures Grows(s, Refresh(l, s, token, now).1)
  {
    if Refresh(l, s, token, now).2.NewSession? {
      RefreshAccepted(l, s, token, now);
      var mid := RotatedShared(s, token.jti, now);
      OpenSessionGrows(mid, token.userId, now);
      GrowsOn(s, mid, OpenSession(mid, token.userId, now).0);
    } else {
      RefreshRefused(l, s, token, now);
    }
  }

  lemma StepGrows(c: Cluster, clock: int, call: Call, now: int)
    requires Inv(c, clock) && clock <= now
    ensures Grows(c.shared, Step(c, call, now).0.shared)
  {
    match call
    case CallLogin(userId) => if ActiveUser(c.shared, userId) { OpenSessionGrows(c.shared, userId, now); }
    case CallRefresh(pid, token) => RefreshGrows(LocalOf(c, pid), c.shared, token, now);
    case CallLogout(pid, token) => LogoutGrows(LocalOf(c, pid), c.shared, token, now);
    case CallSwitch(pid, userId, accessJti, current) => SwitchGrows(c, pid, userId, accessJti, current, now);
    case CallResetPassword(userId) => BumpVersionGrows(c.shared, userId);
    case CallSetActive(userId, active) => SetActiveGrows(c.shared, userId, active);
    case CallRestart(_) =>
  }

  // ---- runs ----------------------------------------------------------------------------

  datatype Timed = At(call: Call, now: int)

  /** A run on a clock that never goes back. */
  predicate Possible(clock: int, run: seq<Timed>)
    decreases |run|
  {
    run == [] || (clock <= run[0].now && Possible(run[0].now, run[1..]))
  }

  function Run(c: Cluster, run: seq<Timed>): Cluster
    decreases |run|
  {
    if run == [] then c else Run(Step(c, run[0].call, run[0].now).0, run[1..])
  }

  function EndOf(clock: int, run: seq<Timed>): int { if run == [] then clock else run[|run| - 1].now }

  lemma {:induction false} RunInv(c: Cluster, clock: int, run: seq<Timed>)
    requires Inv(c, clock) && Possible(clock, run)
    ensures Inv(Run(c, run), EndOf(clock, run)) && Grows(c.shared, Run(c, run).shared)
    decreases |run|
  {
    if run != [] {
      StepInv(c, clock, run[0].call, run[0].now);
      StepGrows(c, clock, run[0].call, run[0].now);
      var next := Step(c, run[0].call, run[0].now).0;
      RunInv(next, run[0].now, run[1..]);
      GrowsOn(c.shared, next.shared, Run(next, run[1..]).shared);
    }
  }

  /** No token yet, no session; any users. */
  function Fresh(redis: bool, users: map<string, User>): Cluster {
    Cluster(map[], Shared(redis, map[], map[], map[], users, map[], map[], 0), [], map[])
  }

  /** In every run, on every process, with or without Redis. */
  lemma RefreshOverRuns(redis: bool, users: map<string, User>, start: int, run: seq<Timed>, pid: nat,
                        token: RefreshToken, now: int)
    requires Possible(start, run) && EndOf(start, run) <= now
    ensures var c := Run(Fresh(redis, users), run);
            Step(c, CallRefresh(pid, token), now).1.NewSession? <==>
              && Verified(c.shared, token, now) && MayRotate(c, pid, token.jti, now)
              && ActiveUser(c.shared, token.userId)
              && token.sessionVersion == c.shared.users[token.userId].sessionVersion
  {
    RunInv(Fresh(redis, users), start, run);
    RefreshExact(Run(Fresh(redis, users), run), EndOf(start, run), pid, token, now);
  }

  /** Without Redis a restarted process takes back every token that is otherwise good, revoked
      or not. */
  lemma RestartForgets(c: Cluster, clock: int, pid: nat, restart: int, token: RefreshToken, now: int)
    requires Inv(c, clock) && clock <= restart <= now && !c.shared.redis
    ensures var c1 := Step(c, CallRestart(pid), restart).0;
            Step(c1, CallRefresh(pid, token), now).1.NewSession? <==>
              && Verified(c.shared, token, now) && ActiveUser(c.shared, token.userId)
              && token.sessionVersion == c.shared.users[token.userId].sessionVersion
  {
    var c1 := Step(c, CallRestart(pid), restart).0;
    StepInv(c, clock, CallRestart(pid), restart);
    RefreshExact(c1, restart, pid, token, now);
    forall i | 0 <= i < |c1.log| ensures !Sees(false, pid, LifeOf(c1, pid), c1.log[i]) {
      assert EventSound(c, c.log[i], clock);
    }
  }

  /** So a logout is forgotten: a fresh session that was logged out is taken back. */
  lemma LogoutForgotten(users: map<string, User>, userId: string, start: int, pid: nat)
    requires userId in users && users[userId].isActive
    ensures var token := Login(Fresh(false, users).shared, userId, start).1.refresh;
            var c := Run(Fresh(false, users), [At(CallLogin(userId), start), At(CallLogout(pid, token), start)]);
            && !Step(c, CallRefresh(pid, token), start).1.NewSession?
            && Step(Step(c, CallRestart(pid), start).0, CallRefresh(pid, token), start).1.NewSession?
  {
    var c0 := Fresh(false, users);
    var token := Login(c0.shared, userId, start).1.refresh;
    var c1 := Step(c0, CallLogin(userId), start).0;
    var c := Step(c1, CallLogout(pid, token), start).0;
    var run := [At(CallLogin(userId), start), At(CallLogout(pid, token), start)];
    assert run[1..][1..] == [] && Run(c, run[1..][1..]) == c;
    assert Run(c0, run) == Run(c1, run[1..]) == c;
    StepInv(c0, start, CallLogin(userId), start);
    StepInv(c1, start, CallLogout(pid, token), start);
    RestartForgets(c, start, pid, start, token, start);
    LogoutSeen(c1, pid, token, start);
    RefreshExact(c, start, pid, token, start);
  }

  lemma LogoutSeen(c: Cluster, pid: nat, token: RefreshToken, now: int)
    requires c.log == [] && Verified(c.shared, token, now)
    ensures !MayRotate(Step(c, CallLogout(pid, token), now).0, pid, token.jti, now)
  {
    var c' := Step(c, CallLogout(pid, token), now).0;
    assert c'.log == [Event(token.jti, now, false, pid, LifeOf(c, pid))];
    assert c'.log[0].jti == token.jti && Sees(c'.shared.redis, pid, LifeOf(c', pid), c'.log[0]);
  }

  // ---- session versions ------------------------------------------------------------------

  /** The calls that raise a user's session version. */
  predicate Bumps(call: Call, userId: string) {
    (call.CallResetPassword? || call.CallSwitch?) && call.userId == userId
  }

  /** Every refresh and access token of the user from before carries an older version. */
  ghost predicate Outdated(s: Shared, s': Shared, userId: string) {
    userId in s'.users
    && (forall j :: j in s.issued && s.issued[j].userId == userId ==>
          s.issued[j].sessionVersion < s'.users[userId].sessionVersion)
    && (forall j :: j in s.access && s.access[j].userId == userId ==>
          s.access[j].sessionVersion < s'.users[userId].sessionVersion)
  }

  lemma BumpOutdates(s: Shared, mid: Shared, userId: string, now: int)
    requires TokensSound(s, now) && userId in s.users && mid.users == s.users
    ensures Outdated(s, BumpVersion(mid, userId), userId)
  {
  }

  lemma StepOutdates(c: Cluster, clock: int, call: Call, userId: string, now: int)
    requires Inv(c, clock) && clock <= now
    requires userId in c.shared.users && Bumps(call, userId)
    ensures Outdated(c.shared, Step(c, call, now).0.shared, userId)
  {
    if call.CallSwitch? {
      SwitchParts(c, call.pid, userId, call.accessJti, call.current, now);
      BeforeSwitchUsers(c, call.pid, call.current, now);
      BumpOutdates(c.shared, Blocked(BeforeSwitch(c, call.pid, call.current, now).shared, call.accessJti, now), userId, now);
    } else {
      BumpOutdates(c.shared, c.shared, userId, now);
    }
  }

  /** After a campus switch or a password reset, however the run goes on, no refresh token and
      no access token handed to that user before is accepted again on any process. */
  lemma BumpEndsSessions(c: Cluster, clock: int, bump: Timed, userId: string, run: seq<Timed>, pid: nat,
                         token: RefreshToken, access: AccessToken, now: int)
    requires Inv(c, clock) && userId in c.shared.users && Bumps(bump.call, userId)
    requires Possible(clock, [bump] + run) && EndOf(clock, [bump] + run) <= now
    requires token.jti in c.shared.issued && c.shared.issued[token.jti].userId == userId
    requires access.jti in c.shared.access && c.shared.access[access.jti].userId == userId
    ensures !Step(Run(c, [bump] + run), CallRefresh(pid, token), now).1.NewSession?
    ensures !AccessValid(Run(c, [bump] + run).shared, access, now)
  {
    var run1 := [bump] + run;
    assert run1[0] == bump && run1[1..] == run;
    var c1 := Step(c, bump.call, bump.now).0;
    StepInv(c, clock, bump.call, bump.now);
    StepGrows(c, clock, bump.call, bump.now);
    StepOutdates(c, clock, bump.call, userId, bump.now);
    RunInv(c1, bump.now, run);
    assert Run(c, run1) == Run(c1, run);
    Stale(c.shared, c1.shared, Run(c1, run).shared, userId, LocalOf(Run(c1, run), pid), token, access, now);
  }

  lemma Stale(s: Shared, s1: Shared, s2: Shared, userId: string, l: Local, token: RefreshToken, access: AccessToken, now: int)
    requires Grows(s, s1) && Outdated(s, s1, userId) && Grows(s1, s2)
    requires token.jti in s.issued && s.issued[token.jti].userId == userId
    requires access.jti in s.access && s.access[access.jti].userId == userId
    ensures !Refresh(l, s2, token, now).2.NewSession? && !AccessValid(s2, access, now)
  {
  }

  /** A token used under a minute before still opens a session after its logout. */
  lemma LogoutWithinGrace(c: Cluster, clock: int, pid: nat, token: RefreshToken, used: int, out: int, now: int)
    requires Inv(c, clock) && clock <= used <= out <= now < used + REFRESH_ROTATION_GRACE_MS
    requires Step(c, CallRefresh(pid, token), used).1.NewSession? && now < token.issuedAt + REFRESH_TTL_MS
    ensures var c1 := Step(c, CallRefresh(pid, token), used).0;
            var c2 := Step(c1, CallLogout(pid, token), out).0;
            Step(c2, CallRefresh(pid, token), now).1.NewSession?
  {
    var c1 := Step(c, CallRefresh(pid, token), used).0;
    var c2 := Step(c1, CallLogout(pid, token), out).0;
    UsedTokenLogged(c, clock, pid, token, used);
    LogoutKeepsLog(c1, used, pid, token, out);
    UsedSeen(c2, pid, token.jti, |c.log|, now);
    RefreshExact(c, clock, pid, token, used);
    RefreshExact(c2, out, pid, token, now);
  }

  lemma UsedSeen(c: Cluster, pid: nat, jti: Jti, i: nat, now: int)
    requires i < |c.log| && c.log[i].jti == jti && c.log[i].used && now < c.log[i].at + REFRESH_ROTATION_GRACE_MS
    requires c.log[i].pid == pid && c.log[i].life == LifeOf(c, pid)
    ensures UsedWithin(c, pid, jti, now)
  {
    assert Sees(c.shared.redis, pid, LifeOf(c, pid), c.log[i]);
  }

  lemma UsedTokenLogged(c: Cluster, clock: int, pid: nat, token: RefreshToken, used: int)
    requires Inv(c, clock) && clock <= used
    requires Step(c, CallRefresh(pid, token), used).1.NewSession?
    ensures var c1 := Step(c, CallRefresh(pid, token), used).0;
            && Inv(c1, used) && Grows(c.shared, c1.shared) && c1.shared.users == c.shared.users && c1.lives == c.lives
            && c1.log == c.log + [UseOf(c, pid, token.jti, used)]
  {
    StepInv(c, clock, CallRefresh(pid, token), used);
    StepGrows(c, clock, CallRefresh(pid, token), used);
    RefreshAccepted(LocalOf(c, pid), c.shared, token, used);
  }

  lemma LogoutKeepsLog(c: Cluster, clock: int, pid: nat, token: RefreshToken, now: int)
    requires Inv(c, clock) && clock <= now
    ensures var c1 := Step(c, CallLogout(pid, token), now).0;
            && Inv(c1, now) && Grows(c.shared, c1.shared) && c1.shared.users == c.shared.users && c1.lives == c.lives
            && c.log <= c1.log
  {
    StepInv(c, clock, CallLogout(pid, token), now);
    StepGrows(c, clock, CallLogout(pid, token), now);
  }

  /** The user of a session a call has opened. */
  predicate Opens(c: Cluster, call: Call, now: int, userId: string) {
    && Step(c, call, now).1.NewSession?
    && match call
       case CallLogin(u) => userId == u
       case CallRefresh(_, token) => userId == token.userId
       case CallSwitch(_, u, _, _) => userId == u
       case _ => false
  }

  lemma OpenedFacts(c: Cluster, call: Call, now: int, userId: string)
    requires Opens(c, call, now, userId)
    ensures var (c1, reply) := Step(c, call, now);
            && ActiveUser(c1.shared, userId) && reply.refresh == RefreshToken(c.shared.next, userId, reply.refresh.sessionVersion, now)
            && reply.token == AccessToken(c.shared.next, userId, reply.refresh.sessionVersion)
            && reply.refresh.sessionVersion == c1.shared.users[userId].sessionVersion
            && reply.refresh.jti in c1.shared.issued && c1.shared.issued[reply.refresh.jti] == reply.refresh
            && reply.token.jti in c1.shared.access && c1.shared.access[reply.token.jti] == reply.token
  {
  }

  lemma LogBelow(c: Cluster, call: Call, clock: int, now: int)
    requires Inv(c, clock)
    ensures forall pid :: !WasRevoked(Step(c, call, now).0, pid, c.shared.next)
  {
    var log := Step(c, call, now).0.log;
    forall i | 0 <= i < |log| ensures log[i].jti != c.shared.next {
      if i < |c.log| { assert log[i] == c.log[i] && EventSound(c, c.log[i], clock); }
    }
  }

  /** A session opened by a sign-in, a refresh or a campus switch is its user's, and at once
      good for a refresh on every process. */
  lemma NewSessionWorks(c: Cluster, clock: int, call: Call, now: int, userId: string, pid: nat)
    requires Inv(c, clock) && clock <= now
    requires Opens(c, call, now, userId)
    ensures var (c1, reply) := Step(c, call, now);
            && reply.refresh.userId == reply.token.userId == userId
            && Step(c1, CallRefresh(pid, reply.refresh), now).1.NewSession?
            && (AccessValid(c1.shared, reply.token, now) <==>
                  !(c1.shared.redis && Alive(c1.shared.blockedUntil, reply.token.jti, now)))
  {
    var (c1, reply) := Step(c, call, now);
    StepInv(c, clock, call, now);
    StepGrows(c, clock, call, now);
    OpenedFacts(c, call, now, userId);
    LogBelow(c, call, clock, now);
    RefreshExact(c1, now, pid, reply.refresh, now);
  }
}
