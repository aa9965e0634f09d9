/**
 * The session-keyed login limiter and the CSRF check of class `Security`.
 * Time is a parameter `now` in seconds. The limiter keys its records by
 * `md5` of the identifier; the model keys them by the identifier itself.
 */
module Security {
  import opened Wrappers
  import opened Sessions
  import Str
  import Php

  /** `MAX_LOGIN_ATTEMPTS`. */
  const MaxLoginAttempts: int := 5
  /** `LOCKOUT_MINUTES`. */
  const LockoutMinutes: int := 15
  const LockoutSeconds: int := LockoutMinutes * 60

  /** `verifyCsrf`: a token is set in the session and the submitted one equals it. */
  function VerifyCsrf(session: Session, token: string): (ok: bool)
    reads session
    ensures ok <==> session.csrfToken == Some(token)
  {
    session.csrfToken.Some? && session.csrfToken.value == token
  }

  /** `strip` without `strip_tags`: surrounding blanks removed. */
  function Strip(input: string): string {
    Str.Trim(input, Str.Trimmable)
  }

  /** The record `checkLoginAttempts` leaves: a new one when missing or when the lockout window has passed. */
  function Refreshed(rec: Option<Attempt>, now: int): Attempt {
    match rec
    case None => Attempt(0, now)
    case Some(a) => if now - a.time > LockoutSeconds then Attempt(0, now) else a
  }

  /** The record `incrementLoginAttempts` leaves. */
  function Bumped(rec: Option<Attempt>, now: int): Attempt {
    match rec
    case None => Attempt(1, now)
    case Some(a) => Attempt(a.count + 1, a.time)
  }

  /** Whether a record still allows a login attempt. */
  predicate Allows(a: Attempt) { a.count < MaxLoginAttempts }

  /**
   * `checkLoginAttempts`: make sure a current record exists, then allow the
   * attempt exactly when fewer than `MaxLoginAttempts` failures are counted.
   */
  method CheckLoginAttempts(session: Session, identifier: string, now: int) returns (allowed: bool)
    modifies session
    ensures session.loginAttempts == old(session.loginAttempts)[identifier := Refreshed(Lookup(old(session.loginAttempts), identifier), now)]
    ensures allowed <==> Allows(session.loginAttempts[identifier])
    ensures session.csrfToken == old(session.csrfToken) && session.adminId == old(session.adminId)
    ensures session.adminRole == old(session.adminRole) && session.adminName == old(session.adminName)
    ensures session.flashes == old(session.flashes)
  {
    if identifier !in session.loginAttempts {
      session.loginAttempts := session.loginAttempts[identifier := Attempt(0, now)];
    }
    var data := session.loginAttempts[identifier];
    if now - data.time > LockoutSeconds {
      data := Attempt(0, now);
      session.loginAttempts := session.loginAttempts[identifier := data];
    }
    allowed := data.count < MaxLoginAttempts;
  }

  /** `incrementLoginAttempts`: one more failure; an existing record keeps its start time. */
  method IncrementLoginAttempts(session: Session, identifier: string, now: int)
    modifies session
    ensures session.loginAttempts == old(session.loginAttempts)[identifier := Bumped(Lookup(old(session.loginAttempts), identifier), now)]
    ensures session.csrfToken == old(session.csrfToken) && session.adminId == old(session.adminId)
    ensures session.adminRole == old(session.adminRole) && session.adminName == old(session.adminName)
    ensures session.flashes == old(session.flashes)
  {
    var count := if identifier in session.loginAttempts then session.loginAttempts[identifier].count else 0;
    var time := if identifier in session.loginAttempts then session.loginAttempts[identifier].time else now;
    session.loginAttempts := session.loginAttempts[identifier := Attempt(count + 1, time)];
  }

  /** `clearLoginAttempts`: forget the record. */
  method ClearLoginAttempts(session: Session, identifier: string)
    modifies session
    ensures session.loginAttempts == old(session.loginAttempts) - {identifier}
    ensures session.csrfToken == old(session.csrfToken) && session.adminId == old(session.adminId)
    ensures session.adminRole == old(session.adminRole) && session.adminName == old(session.adminName)
    ensures session.flashes == old(session.flashes)
  {
    session.loginAttempts := session.loginAttempts - {identifier};
  }

  /**
   * `getRemainingLockout`: the seconds left of the lockout window, never
   * negative, zero without a record, at most the window for a record that does
   * not lie in the future, and zero exactly when the window has run out.
   */
  function RemainingLockout(attempts: map<string, Attempt>, identifier: string, now: int): (r: int)
    ensures r >= 0
    ensures identifier !in attempts ==> r == 0
    ensures identifier in attempts && attempts[identifier].time <= now ==> r <= LockoutSeconds
    ensures identifier in attempts ==> (r == 0 <==> now - attempts[identifier].time >= LockoutSeconds)
  {
    if identifier !in attempts then 0
    else
      var elapsed := now - attempts[identifier].time;
      if LockoutSeconds - elapsed > 0 then LockoutSeconds - elapsed else 0
  }

  /** After `clearLoginAttempts` the next check allows the attempt and there is no time left to wait. */
  lemma ClearedAllows(attempts: map<string, Attempt>, identifier: string, now: int)
    ensures Allows(Refreshed(Lookup(attempts - {identifier}, identifier), now))
    ensures RemainingLockout(attempts - {identifier}, identifier, now) == 0
  {
  }

  /** A locked-out record stays locked, with its count unchanged, until the window has passed. */
  lemma LockoutHolds(a: Attempt, now: int)
    requires !Allows(a) && now - a.time <= LockoutSeconds
    ensures Refreshed(Some(a), now) == a && !Allows(Refreshed(Some(a), now))
  {
  }

  /** Once more than the window has passed since counting started, the record is reset and allows the attempt. */
  lemma LockoutExpires(a: Attempt, now: int)
    requires now - a.time > LockoutSeconds
    ensures Refreshed(Some(a), now) == Attempt(0, now) && Allows(Refreshed(Some(a), now))
  {
  }

  /**
   * At exactly `LockoutSeconds` after counting started no time is reported
   * left, yet the check still refuses: the reset needs strictly more time, and
   * the refusal reports 0 minutes.
   */
  lemma NoTimeLeftYetLocked(a: Attempt)
    requires !Allows(a)
    ensures RemainingLockout(map["id" := a], "id", a.time + LockoutSeconds) == 0
    ensures !Allows(Refreshed(Some(a), a.time + LockoutSeconds))
    ensures LockoutMinutesLeft(RemainingLockout(map["id" := a], "id", a.time + LockoutSeconds)) == 0
  {
  }

  /**
   * The record after failed logins at the given times, as `loginPost` drives
   * the limiter: each attempt is checked (which may reset the record), and an
   * allowed attempt that fails counts one more failure.
   */
  function AfterFailures(rec: Option<Attempt>, times: seq<int>): Option<Attempt>
    decreases |times|
  {
    if times == [] then rec
    else
      var r := Refreshed(rec, times[0]);
      AfterFailures(Some(if Allows(r) then Bumped(Some(r), times[0]) else r), times[1..])
  }

  /**
   * Within the window of a record, failures are counted up to the limit and no
   * further, and the record keeps its start time.
   */
  lemma {:induction false} FailuresWithinWindow(a: Attempt, times: seq<int>)
    requires forall k :: 0 <= k < |times| ==> times[k] - a.time <= LockoutSeconds
    ensures AfterFailures(Some(a), times)
      == Some(Attempt(if a.count >= MaxLoginAttempts then a.count else Php.Min(MaxLoginAttempts, a.count + |times|), a.time))
    decreases |times|
  {
    if times != [] {
      assert Refreshed(Some(a), times[0]) == a;
      var next := if Allows(a) then Attempt(a.count + 1, a.time) else a;
      assert forall k :: 0 <= k < |times[1..]| ==> times[1..][k] - next.time <= LockoutSeconds by {
        forall k | 0 <= k < |times[1..]|
          ensures times[1..][k] - next.time <= LockoutSeconds
        {
          assert times[1..][k] == times[k + 1];
        }
      }
      FailuresWithinWindow(next, times[1..]);
    }
  }

  /** Five failed logins within the window of the first one lock the identifier out. */
  lemma FiveFailuresLock(times: seq<int>)
    requires |times| >= MaxLoginAttempts
    requires forall k :: 0 <= k < |times| ==> times[k] - times[0] <= LockoutSeconds
    ensures var rec := AfterFailures(None, times);
      rec.Some? && rec.value.count == MaxLoginAttempts && !Allows(rec.value)
  {
    var first := Attempt(1, times[0]);
    assert AfterFailures(None, times) == AfterFailures(Some(first), times[1..]);
    assert forall k :: 0 <= k < |times[1..]| ==> times[1..][k] - first.time <= LockoutSeconds by {
      forall k | 0 <= k < |times[1..]|
        ensures times[1..][k] - first.time <= LockoutSeconds
      {
        assert times[1..][k] == times[k + 1];
      }
    }
    FailuresWithinWindow(first, times[1..]);
  }

  /**
   * The minutes `loginPost` reports, `ceil(seconds / 60)`: the fewest whole
   * minutes covering `seconds`, and at most `LockoutMinutes` within the window.
   */
  function LockoutMinutesLeft(seconds: int): (m: nat)
    requires seconds >= 0
    ensures seconds <= 60 * m < seconds + 60
    ensures seconds <= LockoutSeconds ==> m <= LockoutMinutes
  {
    var q := Php.CeilDiv(seconds, 60);
    q
  }
}
