/** Which session calls are taken, with the times written out: a refresh token lives a day, is
    usable for a minute after a use, and a switched-from access token is blocked for a quarter of
    an hour. */
module SessionCalls {
  import opened Results
  import opened Sessions
  import opened SessionSafety

  predicate ActiveAs(s: Shared, userId: string, version: nat) {
    userId in s.users && s.users[userId] == User(true, version)
  }

  /** Issued by us, less than a day ago. */
  predicate Current(s: Shared, token: RefreshToken, now: int) {
    token.jti in s.issued && s.issued[token.jti] == token && now < token.issuedAt + 24 * 60 * 60 * 1000
  }

  /** The process knows of a revocation. */
  ghost predicate KnownRevoked(c: Cluster, pid: nat, jti: Jti) {
    exists e :: e in c.log && e.jti == jti && (c.shared.redis || (e.pid == pid && e.life == LifeOf(c, pid)))
  }

  /** And of a use less than a minute ago. */
  ghost predicate KnownJustUsed(c: Cluster, pid: nat, jti: Jti, now: int) {
    exists e :: e in c.log && e.jti == jti && (c.shared.redis || (e.pid == pid && e.life == LifeOf(c, pid)))
                && e.used && now < e.at + 60 * 1000
  }

  /** After every run, on every process: a refresh is taken exactly of a current token of an active
      user with an unchanged session version, never revoked or just used as far as is known. */
  lemma RefreshTaken(redis: bool, users: map<string, User>, start: int, run: seq<Timed>, pid: nat,
                     token: RefreshToken, now: int)
    requires Possible(start, run) && EndOf(start, run) <= now
    ensures var c := Run(Fresh(redis, users), run);
            Step(c, CallRefresh(pid, token), now).1.NewSession? <==>
              && Current(c.shared, token, now) && ActiveAs(c.shared, token.userId, token.sessionVersion)
              && (KnownRevoked(c, pid, token.jti) ==> KnownJustUsed(c, pid, token.jti, now))
  {
    var c := Run(Fresh(redis, users), run);
    RefreshOverRuns(redis, users, start, run, pid, token, now);
    RevokedKnown(c, pid, token.jti);
    UsedKnown(c, pid, token.jti, now);
  }

  /** Genuine, and not revoked unless just used, as far as the process knows. */
  ghost predicate Rotates(c: Cluster, pid: nat, token: RefreshToken, now: int) {
    Current(c.shared, token, now) && (KnownRevoked(c, pid, token.jti) ==> KnownJustUsed(c, pid, token.jti, now))
  }

  predicate IsActive(s: Shared, userId: string) { userId in s.users && s.users[userId].isActive }

  lemma DeniedFor(l: Local, s: Shared, token: RefreshToken, now: int)
    ensures var reply := Refresh(l, s, token, now).2;
            && (reply == Denied(InvalidToken) <==> !Current(s, token, now))
            && (reply == Denied(TokenRevoked) <==> Current(s, token, now) && !RotationAllows(l, s, token.jti, now))
            && (RotationAllows(l, s, token.jti, now) && Current(s, token, now) ==>
                  && (reply == Denied(UserNotFound) <==> !IsActive(s, token.userId))
                  && (reply == Denied(SessionExpired) <==>
                        IsActive(s, token.userId) && !ActiveAs(s, token.userId, token.sessionVersion)))
  {
  }

  lemma RotationKnown(c: Cluster, clock: int, pid: nat, token: RefreshToken, now: int)
    requires Inv(c, clock) && clock <= now && Current(c.shared, token, now)
    ensures RotationAllows(LocalOf(c, pid), c.shared, token.jti, now) <==> Rotates(c, pid, token, now)
  {
    RotatedExact(c, clock, pid, token, now);
    GraceExact(c, clock, pid, token.jti, now);
    RevokedKnown(c, pid, token.jti);
    UsedKnown(c, pid, token.jti, now);
  }

  /** Why a refresh is denied: the first of these that applies. */
  lemma RefreshDenied(redis: bool, users: map<string, User>, start: int, run: seq<Timed>, pid: nat,
                      token: RefreshToken, now: int)
    requires Possible(start, run) && EndOf(start, run) <= now
    ensures var c := Run(Fresh(redis, users), run);
            var reply := Step(c, CallRefresh(pid, token), now).1;
            && (reply == Denied(InvalidToken) <==> !Current(c.shared, token, now))
            && (reply == Denied(TokenRevoked) <==> Current(c.shared, token, now) && !Rotates(c, pid, token, now))
            && (Rotates(c, pid, token, now) ==>
                  && (reply == Denied(UserNotFound) <==> !IsActive(c.shared, token.userId))
                  && (reply == Denied(SessionExpired) <==>
                        IsActive(c.shared, token.userId) && !ActiveAs(c.shared, token.userId, token.sessionVersion)))
  {
    var c := Run(Fresh(redis, users), run);
    RunInv(Fresh(redis, users), start, run);
    DeniedFor(LocalOf(c, pid), c.shared, token, now);
    if Current(c.shared, token, now) { RotationKnown(c, EndOf(start, run), pid, token, now); }
  }

  lemma RevokedKnown(c: Cluster, pid: nat, jti: Jti)
    ensures WasRevoked(c, pid, jti) <==> KnownRevoked(c, pid, jti)
  {
    if i :| 0 <= i < |c.log| && c.log[i].jti == jti && Sees(c.shared.redis, pid, LifeOf(c, pid), c.log[i]) {
      assert c.log[i] in c.log;
    }
  }

  lemma UsedKnown(c: Cluster, pid: nat, jti: Jti, now: int)
    ensures UsedWithin(c, pid, jti, now) <==> KnownJustUsed(c, pid, jti, now)
  {
    if i :| 0 <= i < |c.log| && c.log[i].jti == jti && Sees(c.shared.redis, pid, LifeOf(c, pid), c.log[i])
            && c.log[i].used && now < c.log[i].at + REFRESH_ROTATION_GRACE_MS
    {
      assert c.log[i] in c.log;
    }
  }

  /** A logout or a refresh that is taken is known from then on; the log tells of nothing else. */
  lemma LogTells(c: Cluster, call: Call, now: int, e: Event)
    ensures var (after, reply) := Step(c, call, now);
            e in after.log <==>
              || e in c.log
              || (call.CallRefresh? && reply.NewSession? && e == Event(call.token.jti, now, true, call.pid, LifeOf(c, call.pid)))
              || (call.CallLogout? && Current(c.shared, call.token, now)
                  && e == Event(call.token.jti, now, false, call.pid, LifeOf(c, call.pid)))
              || (call.CallSwitch? && call.current.Some? && Current(c.shared, call.current.value, now)
                  && e == Event(call.current.value.jti, now, false, call.pid, LifeOf(c, call.pid)))
  {
  }

  /** Signing in is for active users and leaves every session version as it is. */
  lemma SignInTaken(c: Cluster, userId: string, now: int)
    ensures var (after, reply) := Step(c, CallLogin(userId), now);
            && (reply.NewSession? <==> userId in c.shared.users && c.shared.users[userId].isActive)
            && after.shared.users == c.shared.users
            && (reply.NewSession? ==> reply.refresh.sessionVersion == c.shared.users[userId].sessionVersion)
  {
  }

  /** Switching campus is for active users, and raises the version even where it is refused. */
  lemma SwitchTaken(c: Cluster, userId: string, pid: nat, accessJti: Jti, current: Option<RefreshToken>, now: int)
    requires userId in c.shared.users
    ensures var (after, reply) := Step(c, CallSwitch(pid, userId, accessJti, current), now);
            var next := User(c.shared.users[userId].isActive, c.shared.users[userId].sessionVersion + 1);
            && (reply.NewSession? <==> c.shared.users[userId].isActive)
            && after.shared.users == c.shared.users[userId := next]
            && (reply.NewSession? ==> reply.refresh.sessionVersion == next.sessionVersion)
  {
    SwitchUsers(LocalOf(c, pid), c.shared, userId, accessJti, current, now);
  }

  lemma SwitchUsers(l: Local, s: Shared, userId: string, accessJti: Jti, current: Option<RefreshToken>, now: int)
    requires userId in s.users
    ensures var (_, after, reply) := SwitchEntity(l, s, userId, accessJti, current, now);
            var next := User(s.users[userId].isActive, s.users[userId].sessionVersion + 1);
            && (reply.NewSession? <==> next.isActive) && after.users == s.users[userId := next]
            && (reply.NewSession? ==> reply.refresh.sessionVersion == next.sessionVersion)
  {
  }

  predicate BlockedAt(s: Shared, jti: Jti, now: int) { s.redis && jti in s.blockedUntil && now < s.blockedUntil[jti] }

  /** An access token is good exactly if it is ours, of an active user with an unchanged session
      version, and not blocked. */
  lemma AccessTaken(s: Shared, token: AccessToken, now: int)
    ensures AccessValid(s, token, now) <==>
            && token.jti in s.access && s.access[token.jti] == token && !BlockedAt(s, token.jti, now)
            && ActiveAs(s, token.userId, token.sessionVersion)
  {
  }

  /** With Redis the access token of a switch is blocked for a quarter of an hour, by itself and
      whatever becomes of session versions. */
  lemma SwitchBlocks(c: Cluster, userId: string, pid: nat, accessJti: Jti, current: Option<RefreshToken>, now: int, later: int)
    ensures var after := Step(c, CallSwitch(pid, userId, accessJti, current), now).0.shared;
            BlockedAt(after, accessJti, later) <==> c.shared.redis && later < now + 15 * 60 * 1000
  {
    BeforeSwitchUsers(c, pid, current, now);
    SwitchParts(c, pid, userId, accessJti, current, now);
  }
}
