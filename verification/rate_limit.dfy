/** The failed-login counter of the authentication module: one record per
    e-mail, a five-failure / fifteen-minute gate, no decay — the record is
    only ever deleted, on a successful login. */
module RateLimit {

  const MaxLoginAttempts: nat := 5
  const LockoutMs: nat := 15 * 60 * 1000

  /** `{count, lastAttempt}`; times are milliseconds since the epoch. */
  datatype Attempt = Attempt(count: nat, lastAttempt: int)

  /** The `login_attempts` object, keyed by the e-mail exactly as typed. */
  type Attempts = map<string, Attempt>

  /** `isAccountLocked`: no record means not locked; otherwise the count must
      have reached the maximum and the last failure be less than the lockout
      window ago (a clock that went backwards counts as "within"). */
  predicate IsLocked(a: Attempts, email: string, now: int): (locked: bool)
    ensures locked ==> email in a && a[email].count >= MaxLoginAttempts
    ensures email in a && now >= a[email].lastAttempt + LockoutMs ==> !locked
    ensures email in a && a[email].count >= MaxLoginAttempts && now < a[email].lastAttempt + LockoutMs ==> locked
  {
    && email in a
    && a[email].count >= MaxLoginAttempts
    && now - a[email].lastAttempt < LockoutMs
  }

  /** `recordFailedAttempt`: create `{0, 0}` if absent, add one, stamp `now`. */
  function RecordFailure(a: Attempts, email: string, now: int): (r: Attempts)
    ensures r.Keys == a.Keys + {email}
    ensures r[email].count == (if email in a then a[email].count else 0) + 1
    ensures r[email].lastAttempt == now
    ensures forall e :: e in a && e != email ==> r[e] == a[e]
  {
    var prior := if email in a then a[email] else Attempt(0, 0);
    a[email := Attempt(prior.count + 1, now)]
  }

  /** `clearFailedAttempts`: delete this e-mail's record and nothing else. */
  function Clear(a: Attempts, email: string): (r: Attempts)
    ensures r.Keys == a.Keys - {email}
    ensures forall e :: e in r ==> r[e] == a[e]
    ensures forall now :: !IsLocked(r, email, now)
  {
    a - {email}
  }

  /** A failure never unlocks: whoever was locked stays locked at the same instant. */
  lemma FailureKeepsLock(a: Attempts, email: string, other: string, now: int)
    requires IsLocked(a, other, now)
    ensures IsLocked(RecordFailure(a, email, now), other, now)
  {
  }

  /** A failure only ever touches the record of its own e-mail. */
  lemma FailureIsolated(a: Attempts, email: string, other: string, now: int, t: int)
    requires other != email
    ensures IsLocked(RecordFailure(a, email, now), other, t) <==> IsLocked(a, other, t)
  {
  }

  /** Failures at the given instants, in order. */
  function Failures(a: Attempts, email: string, times: seq<int>): Attempts
    decreases |times|
  {
    if |times| == 0 then a
    else Failures(RecordFailure(a, email, times[0]), email, times[1..])
  }

  /** n failures from no record leave a record of count n stamped with the last. */
  lemma {:induction false} FailuresCount(a: Attempts, email: string, times: seq<int>)
    requires |times| > 0
    ensures email in Failures(a, email, times)
    ensures Failures(a, email, times)[email].count
         == (if email in a then a[email].count else 0) + |times|
    ensures Failures(a, email, times)[email].lastAttempt == times[|times| - 1]
    decreases |times|
  {
    var a' := RecordFailure(a, email, times[0]);
    if |times| > 1 {
      FailuresCount(a', email, times[1..]);
    }
  }

  /** The lockout: five failures with the last one less than fifteen minutes
      before `now` lock the e-mail. */
  lemma FiveFailuresLock(a: Attempts, email: string, times: seq<int>, now: int)
    requires |times| >= MaxLoginAttempts
    requires now - times[|times| - 1] < LockoutMs
    ensures IsLocked(Failures(a, email, times), email, now)
  {
    FailuresCount(a, email, times);
  }

  /** The gate is a window, not a cooldown that resets the counter: once the
      window has passed the e-mail is unlocked although the count is still at
      least five, and the next failure locks it again at once. */
  lemma StaleCounterRelocks(a: Attempts, email: string, now: int)
    requires email in a && a[email].count >= MaxLoginAttempts
    requires now - a[email].lastAttempt >= LockoutMs
    ensures !IsLocked(a, email, now)
    ensures IsLocked(RecordFailure(a, email, now), email, now)
    ensures RecordFailure(a, email, now)[email].count > MaxLoginAttempts
  {
  }
}
