/** The gate in front of the password hash. */
module LoginLimiters {

  // Times are in nanoseconds of the steady clock.
  const SECOND: int := 1_000_000_000
  const MINUTE: int := 60 * SECOND
  const MAX_ARGON2: int := 2
  const IP_FAIL_MAX: int := 10
  const EMAIL_FAIL_MAX: int := 10
  const IP_WINDOW: int := 10 * MINUTE
  const EMAIL_WINDOW: int := 10 * MINUTE
  const INFLIGHT_RETRY_AFTER_SEC: int := 5

  datatype Admit = Admitted | Inflight | Busy | Throttled

  type Fails = map<string, seq<int>>

  datatype Gate = Gate(inflightIp: set<string>, inflightEmail: set<string>, argon2Live: int,
                       failsByIp: Fails, failsByEmail: Fails)

  /** What tryBegin answers, and the gate after it. */
  datatype Begun = Begun(gate: Gate, admit: Admit, retryAfterSec: int)

  function FailsOf(fails: Fails, key: string): seq<int> {
    if key in fails then fails[key] else []
  }

  /** The stamps that are not older than the cutoff, in order. */
  function Kept(stamps: seq<int>, cutoff: int): seq<int> {
    if stamps == [] then []
    else if stamps[0] < cutoff then Kept(stamps[1..], cutoff)
    else [stamps[0]] + Kept(stamps[1..], cutoff)
  }

  function Pruned(fails: Fails, key: string, now: int, window: int): Fails {
    if key !in fails then fails
    else
      var kept := Kept(fails[key], now - window);
      if kept == [] then fails - {key} else fails[key := kept]
  }

  function RemainingSec(stamps: seq<int>, now: int, window: int): int {
    if stamps == [] then INFLIGHT_RETRY_AFTER_SEC
    else
      var until := stamps[0] + window;
      if until <= now then 1
      else
        var sec := (until - now) / SECOND;
        if sec < 1 then 1 else sec
  }

  /** The locked section of tryBegin for a clock read at t. */
  function Begin(g: Gate, ip: string, email: string, t: int): Begun {
    var byIp := Pruned(g.failsByIp, ip, t, IP_WINDOW);
    var byEmail := Pruned(g.failsByEmail, email, t, EMAIL_WINDOW);
    var pruned := g.(failsByIp := byIp, failsByEmail := byEmail);
    var ipFails := FailsOf(byIp, ip);
    var emailFails := FailsOf(byEmail, email);
    if |ipFails| >= IP_FAIL_MAX then Begun(pruned, Throttled, RemainingSec(ipFails, t, IP_WINDOW))
    else if |emailFails| >= EMAIL_FAIL_MAX then Begun(pruned, Throttled, RemainingSec(emailFails, t, EMAIL_WINDOW))
    else if ip in g.inflightIp || email in g.inflightEmail then Begun(pruned, Inflight, INFLIGHT_RETRY_AFTER_SEC)
    else if g.argon2Live >= MAX_ARGON2 then Begun(pruned, Busy, INFLIGHT_RETRY_AFTER_SEC)
    else
      Begun(pruned.(inflightIp := g.inflightIp + {ip}, inflightEmail := g.inflightEmail + {email},
                    argon2Live := g.argon2Live + 1),
            Admitted, 0)
  }

  /** The locked section of recordFailure. */
  function Failed(g: Gate, ip: string, email: string, t: int): Gate {
    g.(failsByIp := Pruned(g.failsByIp[ip := FailsOf(g.failsByIp, ip) + [t]], ip, t, IP_WINDOW),
       failsByEmail := Pruned(g.failsByEmail[email := FailsOf(g.failsByEmail, email) + [t]], email, t, EMAIL_WINDOW))
  }

  function Succeeded(g: Gate, email: string): Gate {
    g.(failsByEmail := g.failsByEmail - {email})
  }

  function Released(g: Gate, ip: string, email: string): Gate {
    g.(inflightIp := g.inflightIp - {ip}, inflightEmail := g.inflightEmail - {email},
       argon2Live := if g.argon2Live > 0 then g.argon2Live - 1 else g.argon2Live)
  }

  lemma PrunedFails(fails: Fails, key: string, now: int, window: int, k: string)
    ensures FailsOf(Pruned(fails, key, now, window), k) ==
            if k == key then Kept(FailsOf(fails, key), now - window) else FailsOf(fails, k)
  {
  }

  /** How many failures of a key the list still has in the window. */
  function Recent(fails: Fails, key: string, now: int, window: int): nat {
    |Kept(FailsOf(fails, key), now - window)|
  }

  /** The refusals in order of precedence: too many recent failures, a busy key, no free slot. */
  lemma BeginAnswers(g: Gate, ip: string, email: string, t: int)
    ensures var b := Begin(g, ip, email, t);
            var throttled := Recent(g.failsByIp, ip, t, IP_WINDOW) >= IP_FAIL_MAX
                             || Recent(g.failsByEmail, email, t, EMAIL_WINDOW) >= EMAIL_FAIL_MAX;
            var busy := ip in g.inflightIp || email in g.inflightEmail;
            && (b.admit == Throttled <==> throttled)
            && (b.admit == Inflight <==> !throttled && busy)
            && (b.admit == Busy <==> !throttled && !busy && g.argon2Live >= MAX_ARGON2)
            && (b.admit != Admitted ==> b.gate == g.(failsByIp := b.gate.failsByIp, failsByEmail := b.gate.failsByEmail)
                                        && b.retryAfterSec >= 1)
  {
    hide Pruned, Kept;
    PrunedFails(g.failsByIp, ip, t, IP_WINDOW, ip);
    PrunedFails(g.failsByEmail, email, t, EMAIL_WINDOW, email);
  }

  /** What a refused caller is told to wait: five seconds, or by the list that throttles it, IP before email. */
  lemma RetryAnswers(g: Gate, ip: string, email: string, t: int)
    ensures var b := Begin(g, ip, email, t);
            var ipFails := Kept(FailsOf(g.failsByIp, ip), t - IP_WINDOW);
            var emailFails := Kept(FailsOf(g.failsByEmail, email), t - EMAIL_WINDOW);
            b.retryAfterSec ==
              match b.admit
              case Admitted => 0
              case Inflight => 5
              case Busy => 5
              case Throttled =>
                if |ipFails| >= IP_FAIL_MAX then RemainingSec(ipFails, t, IP_WINDOW)
                else RemainingSec(emailFails, t, EMAIL_WINDOW)
  {
    hide Pruned, Kept, RemainingSec;
    PrunedFails(g.failsByIp, ip, t, IP_WINDOW, ip);
    PrunedFails(g.failsByEmail, email, t, EMAIL_WINDOW, email);
  }

  lemma RemainingIsExact(stamps: seq<int>, t: int, window: int, later: int)
    requires stamps != []
    ensures var sec := RemainingSec(stamps, t, window);
            && sec >= 1
            && (later <= t + sec * SECOND && stamps[0] + window >= t + SECOND ==> stamps[0] >= later - window)
            && (later >= t + (sec + 1) * SECOND ==> stamps[0] < later - window)
  {
    var left := stamps[0] + window - t;
    assert left == left / SECOND * SECOND + left % SECOND;
  }

  /**
   * A throttled caller is told the whole seconds, at least one, until the oldest stamp of the list that throttles it
   * leaves the window: for so long the stamp stays, unless less than a second is left, and a second later it is gone.
   */
  lemma RetryIsExact(g: Gate, ip: string, email: string, t: int, later: int)
    requires Begin(g, ip, email, t).admit == Throttled
    ensures var ipFails := Kept(FailsOf(g.failsByIp, ip), t - IP_WINDOW);
            var emailFails := Kept(FailsOf(g.failsByEmail, email), t - EMAIL_WINDOW);
            var stamps, window := if |ipFails| >= 10 then ipFails else emailFails,
                                  if |ipFails| >= 10 then IP_WINDOW else EMAIL_WINDOW;
            var sec := Begin(g, ip, email, t).retryAfterSec;
            && |stamps| >= 10 && sec >= 1
            && (later <= t + sec * SECOND && stamps[0] + window >= t + SECOND ==> stamps[0] >= later - window)
            && (later >= t + (sec + 1) * SECOND ==> stamps[0] < later - window)
  {
    hide Begin, Kept, RemainingSec, FailsOf;
    BeginAnswers(g, ip, email, t);
    RetryAnswers(g, ip, email, t);
    var ipFails := Kept(FailsOf(g.failsByIp, ip), t - IP_WINDOW);
    var emailFails := Kept(FailsOf(g.failsByEmail, email), t - EMAIL_WINDOW);
    if |ipFails| >= 10 {
      RemainingIsExact(ipFails, t, IP_WINDOW, later);
    } else {
      RemainingIsExact(emailFails, t, EMAIL_WINDOW, later);
    }
  }

  class LoginLimiter {
    const normalizeEmail: string -> string
    var inflightIp: set<string>
    var inflightEmail: set<string>
    var argon2Live: int
    var failsByIp: Fails
    var failsByEmail: Fails

    ghost function State(): Gate
      reads this
    {
      Gate(inflightIp, inflightEmail, argon2Live, failsByIp, failsByEmail)
    }

    constructor (normalizeEmail: string -> string)
      ensures State() == Gate({}, {}, 0, map[], map[]) && this.normalizeEmail == normalizeEmail
    {
      this.normalizeEmail := normalizeEmail;
      inflightIp, inflightEmail, argon2Live, failsByIp, failsByEmail := {}, {}, 0, map[], map[];
    }

    /** t is what the clock said before the lock was taken. */
    method TryBegin(ip: string, email: string, t: int) returns (admit: Admit, guard: Guard, retryAfterSec: int)
      modifies this
      ensures Begun(State(), admit, retryAfterSec) == Begin(old(State()), ip, normalizeEmail(email), t)
      ensures fresh(guard) && (guard.owner == this <==> admit.Admitted?) && (guard.owner == null <==> !admit.Admitted?)
      ensures admit.Admitted? ==> guard.ip == ip && guard.email == normalizeEmail(email)
    {
      hide Pruned, RemainingSec;
      var emailKey := normalizeEmail(email);
      failsByIp := Pruned(failsByIp, ip, t, IP_WINDOW);
      failsByEmail := Pruned(failsByEmail, emailKey, t, EMAIL_WINDOW);
      guard := new Guard.Empty();
      if ip in failsByIp && |failsByIp[ip]| >= IP_FAIL_MAX {
        return Throttled, guard, RemainingSec(failsByIp[ip], t, IP_WINDOW);
      }
      if emailKey in failsByEmail && |failsByEmail[emailKey]| >= EMAIL_FAIL_MAX {
        return Throttled, guard, RemainingSec(failsByEmail[emailKey], t, EMAIL_WINDOW);
      }
      if ip in inflightIp || emailKey in inflightEmail {
        return Inflight, guard, INFLIGHT_RETRY_AFTER_SEC;
      }
      if argon2Live >= MAX_ARGON2 {
        return Busy, guard, INFLIGHT_RETRY_AFTER_SEC;
      }
      inflightIp := inflightIp + {ip};
      inflightEmail := inflightEmail + {emailKey};
      argon2Live := argon2Live + 1;
      var owning := new Guard.Owning(this, ip, emailKey);
      guard.MoveAssign(owning);
      return Admitted, guard, 0;
    }

    method RecordFailure(ip: string, email: string, t: int)
      modifies this
      ensures State() == Failed(old(State()), ip, normalizeEmail(email), t)
    {
      var emailKey := normalizeEmail(email);
      failsByIp := failsByIp[ip := FailsOf(failsByIp, ip) + [t]];
      failsByIp := Pruned(failsByIp, ip, t, IP_WINDOW);
      failsByEmail := failsByEmail[emailKey := FailsOf(failsByEmail, emailKey) + [t]];
      failsByEmail := Pruned(failsByEmail, emailKey, t, EMAIL_WINDOW);
    }

    method RecordSuccess(email: string)
      modifies this
      ensures State() == Succeeded(old(State()), normalizeEmail(email))
    {
      failsByEmail := failsByEmail - {normalizeEmail(email)};
    }

    method Release(ip: string, email: string)
      modifies this
      ensures State() == Released(old(State()), ip, email)
    {
      inflightIp := inflightIp - {ip};
      inflightEmail := inflightEmail - {email};
      if argon2Live > 0 {
        argon2Live := argon2Live - 1;
      }
    }
  }

  /** Owns one slot of a limiter until it is moved from, assigned to or destroyed. */
  class Guard {
    var owner: LoginLimiter?
    var ip: string
    var email: string

    constructor Empty()
      ensures owner == null
    {
      owner, ip, email := null, "", "";
    }

    constructor Owning(owner: LoginLimiter, ip: string, email: string)
      ensures this.owner == owner && this.ip == ip && this.email == email
    {
      this.owner, this.ip, this.email := owner, ip, email;
    }

    /** Moved-from strings are unspecified. */
    constructor Moved(other: Guard)
      modifies other
      ensures owner == old(other.owner) && ip == old(other.ip) && email == old(other.email)
      ensures other.owner == null
    {
      owner, ip, email := other.owner, other.ip, other.email;
      new;
      other.ip, other.email := *, *;
      other.owner := null;
    }

    method MoveAssign(other: Guard)
      modifies this, other, owner
      ensures other == this ==> unchanged(this) && (owner != null ==> unchanged(owner))
      ensures other != this ==>
                && owner == old(other.owner) && ip == old(other.ip) && email == old(other.email)
                && other.owner == null
                && (old(owner) != null ==>
                      old(owner).State() == Released(old(owner.State()), old(ip), old(email)))
    {
      if this != other {
        Reset();
        owner := other.owner;
        ip := other.ip;
        email := other.email;
        other.ip, other.email := *, *;
        other.owner := null;
      }
    }

    /** What the destructor does. */
    method Reset()
      modifies this, owner
      ensures owner == null && ip == old(ip) && email == old(email)
      ensures old(owner) != null ==>
                old(owner).State() == Released(old(owner.State()), ip, email)
    {
      if owner == null {
        return;
      }
      owner.Release(ip, email);
      owner := null;
    }
  }
}
