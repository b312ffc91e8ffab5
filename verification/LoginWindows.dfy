/** Threads that log in, and what they leave in the gate. */
module LoginWindows {
  // Each reads the clock, then takes the lock, and records its failure while it holds its guard.

  import opened FiniteSets
  import opened LoginLimiters
  import opened LoginGuards

  /** Where a thread is; Asking and Failing come between a clock read at t and the lock. */
  datatype Thread =
    | Asking(keys: Keys, t: int)
    | Hashing(keys: Keys)
    | Failing(keys: Keys, t: int)
    | Leaving(keys: Keys)

  datatype Event = Failure(ip: string, email: string, t: int) | Success(email: string)

  /** events lists what was recorded, in the order of the lock. */
  datatype System = System(gate: Gate, now: int, threads: map<nat, Thread>, events: seq<Event>)

  datatype Move =
    | Tick(to: int)
    | Ask(thread: nat, ip: string, email: string)
    | Enter(thread: nat)
    | ReadClock(thread: nat)
    | Fail(thread: nat)
    | Succeed(thread: nat)
    | Skip(thread: nat)
    | Leave(thread: nat)

  predicate Possible(s: System, m: Move) {
    match m
    case Tick(to) => to >= s.now
    case Ask(th, _, _) => th !in s.threads
    case Enter(th) => th in s.threads && s.threads[th].Asking?
    case ReadClock(th) => th in s.threads && s.threads[th].Hashing?
    case Fail(th) => th in s.threads && s.threads[th].Failing?
    case Succeed(th) => th in s.threads && s.threads[th].Hashing?
    case Skip(th) => th in s.threads && s.threads[th].Hashing?
    case Leave(th) => th in s.threads && s.threads[th].Leaving?
  }

  function Moved(s: System, m: Move): System
    requires Possible(s, m)
  {
    match m
    case Tick(to) => s.(now := to)
    case Ask(th, ip, email) => s.(threads := s.threads[th := Asking(Keys(ip, email), s.now)])
    case Enter(th) =>
      var Asking(keys, t) := s.threads[th];
      var b := Begin(s.gate, keys.ip, keys.email, t);
      s.(gate := b.gate, threads := if b.admit.Admitted? then s.threads[th := Hashing(keys)] else s.threads - {th})
    case ReadClock(th) => s.(threads := s.threads[th := Failing(s.threads[th].keys, s.now)])
    case Fail(th) =>
      var Failing(keys, t) := s.threads[th];
      s.(gate := Failed(s.gate, keys.ip, keys.email, t), threads := s.threads[th := Leaving(keys)],
         events := s.events + [Failure(keys.ip, keys.email, t)])
    case Succeed(th) =>
      var keys := s.threads[th].keys;
      s.(gate := Succeeded(s.gate, keys.email), threads := s.threads[th := Leaving(keys)],
         events := s.events + [Success(keys.email)])
    case Skip(th) => s.(threads := s.threads[th := Leaving(s.threads[th].keys)])
    case Leave(th) =>
      var keys := s.threads[th].keys;
      s.(gate := Released(s.gate, keys.ip, keys.email), threads := s.threads - {th})
  }

  /** The stamps of all failures of an IP, in the order they were recorded. */
  function StampsOfIp(events: seq<Event>, ip: string): seq<int> {
    if events == [] then []
    else
      var before := StampsOfIp(events[..|events| - 1], ip);
      var e := events[|events| - 1];
      if e.Failure? && e.ip == ip then before + [e.t] else before
  }

  /** The stamps of the failures of an email since its last success. */
  function StampsOfEmail(events: seq<Event>, email: string): seq<int> {
    if events == [] then []
    else
      var before := StampsOfEmail(events[..|events| - 1], email);
      var e := events[|events| - 1];
      if e.email != email then before
      else if e.Failure? then before + [e.t]
      else []
  }

  // ----- one list of stamps -----

  ghost predicate Sorted(s: seq<int>) {
    forall i: nat, j: nat :: i <= j < |s| ==> s[i] <= s[j]
  }

  ghost predicate AllUpTo(s: seq<int>, t: int) {
    forall x <- s :: x <= t
  }

  ghost predicate AllBelow(s: seq<int>, t: int) {
    forall x <- s :: x < t
  }

  /** Any stamp and the one max places later are more than a window apart. */
  ghost predicate Spaced(s: seq<int>, window: int, max: nat) {
    forall i: nat :: i + max < |s| ==> s[i] < s[i + max] - window
  }

  /** The list is the end of the history, sorted and spaced; what is missing is out of the window. */
  ghost predicate Tracks(list: seq<int>, history: seq<int>, now: int, window: int, max: nat) {
    && Sorted(history) && AllUpTo(history, now) && Spaced(history, window, max)
    && |list| <= |history|
    && list == history[|history| - |list|..]
    && AllBelow(history[..|history| - |list|], now - window)
  }

  /** One more failure at t would not be one too many. */
  ghost predicate Room(history: seq<int>, t: int, window: int, max: nat) {
    |history| >= max > 0 ==> history[|history| - max] < t - window
  }

  lemma {:induction false} KeptIsEnd(s: seq<int>, cutoff: int) returns (n: nat)
    requires Sorted(s)
    ensures n <= |s| && Kept(s, cutoff) == s[n..] && AllBelow(s[..n], cutoff)
  {
    if s == [] {
      n := 0;
    } else if s[0] < cutoff {
      var m := KeptIsEnd(s[1..], cutoff);
      n := m + 1;
      assert s[1..][m..] == s[n..];
      assert s[..n] == [s[0]] + s[1..][..m];
    } else {
      n := 0;
      assert forall i: nat :: i < |s| ==> s[0] <= s[i];
      KeptAll(s, cutoff);
    }
  }

  lemma {:induction false} KeptAll(s: seq<int>, cutoff: int)
    requires forall x <- s :: x >= cutoff
    ensures Kept(s, cutoff) == s
  {
    if s != [] {
      assert s[0] in s;
      assert forall x <- s[1..] :: x in s;
      KeptAll(s[1..], cutoff);
    }
  }

  /** Pruning with a clock read of the past keeps the list right. */
  lemma PruneTracks(list: seq<int>, history: seq<int>, now: int, window: int, max: nat, t: int)
    requires Tracks(list, history, now, window, max) && t <= now
    ensures Tracks(Kept(list, t - window), history, now, window, max)
  {
    hide Spaced, Kept;
    var n := KeptIsEnd(list, t - window);
    var d := |history| - |list|;
    assert list[n..] == history[d + n..];
    assert history[..d + n] == history[..d] + list[..n];
  }

  /** A short list means room. */
  lemma ShortListHasRoom(list: seq<int>, history: seq<int>, now: int, window: int, max: nat)
    requires Tracks(list, history, now, window, max) && |list| < max
    ensures Room(history, now, window, max)
  {
    if |history| >= max {
      assert history[|history| - max] in history[..|history| - |list|];
    }
  }

  lemma PushTracks(list: seq<int>, history: seq<int>, now: int, window: int, max: nat, t: int)
    requires Tracks(list, history, now, window, max) && AllUpTo(history, t) && t <= now && 0 < max
    requires Room(history, t, window, max)
    ensures Tracks(list + [t], history + [t], now, window, max)
  {
    var longer := history + [t];
    var d := |history| - |list|;
    assert longer[..d] == history[..d];
    assert list + [t] == longer[d..];
    assert Sorted(longer) by {
      forall i: nat, j: nat | i <= j < |longer| ensures longer[i] <= longer[j] {
        if j == |history| && i < j {
          assert history[i] in history;
        }
      }
    }
    assert Spaced(longer, window, max);
  }

  lemma LaterTracks(list: seq<int>, history: seq<int>, now: int, window: int, max: nat, to: int)
    requires Tracks(list, history, now, window, max) && now <= to
    ensures Tracks(list, history, to, window, max)
  {
  }

  // ----- the two maps -----

  ghost predicate TracksIp(s: System, ip: string) {
    Tracks(FailsOf(s.gate.failsByIp, ip), StampsOfIp(s.events, ip), s.now, IP_WINDOW, IP_FAIL_MAX)
  }

  ghost predicate TracksEmail(s: System, email: string) {
    Tracks(FailsOf(s.gate.failsByEmail, email), StampsOfEmail(s.events, email), s.now, EMAIL_WINDOW, EMAIL_FAIL_MAX)
  }

  ghost predicate RoomFor(s: System, keys: Keys, t: int) {
    && Room(StampsOfIp(s.events, keys.ip), t, IP_WINDOW, IP_FAIL_MAX)
    && Room(StampsOfEmail(s.events, keys.email), t, EMAIL_WINDOW, EMAIL_FAIL_MAX)
  }

  ghost predicate NothingLater(s: System, keys: Keys, t: int) {
    AllUpTo(StampsOfIp(s.events, keys.ip), t) && AllUpTo(StampsOfEmail(s.events, keys.email), t)
  }

  ghost predicate ThreadInv(s: System, x: Thread) {
    match x
    case Asking(keys, t) => t <= s.now
    case Hashing(keys) => RoomFor(s, keys, s.now)
    case Failing(keys, t) => t <= s.now && RoomFor(s, keys, t) && NothingLater(s, keys, t)
    case Leaving(keys) => true
  }

  /** The threads that own a guard. */
  ghost function HeldBy(threads: map<nat, Thread>): Held {
    map th <- threads | !threads[th].Asking? :: threads[th].keys
  }

  ghost predicate Inv(s: System) {
    && Counts(s.gate, HeldBy(s.threads))
    && (forall ip: string :: TracksIp(s, ip))
    && (forall email: string :: TracksEmail(s, email))
    && (forall th <- s.threads :: ThreadInv(s, s.threads[th]))
  }

  lemma HeldAfter(threads: map<nat, Thread>, th: nat, x: Thread)
    ensures x.Asking? ==> HeldBy(threads[th := x]) == HeldBy(threads) - {th}
    ensures !x.Asking? ==> HeldBy(threads[th := x]) == HeldBy(threads)[th := x.keys]
    ensures HeldBy(threads - {th}) == HeldBy(threads) - {th}
    ensures th in threads && threads[th].Asking? ==> th !in HeldBy(threads)
    ensures th in threads && !threads[th].Asking? ==> th in HeldBy(threads) && HeldBy(threads)[th] == threads[th].keys
    ensures th !in threads ==> th !in HeldBy(threads)
  {
  }

  /** Two threads that own guards differ in IP and in email. */
  lemma HoldersDiffer(s: System, th: nat, other: nat)
    requires Counts(s.gate, HeldBy(s.threads)) && th in s.threads && other in s.threads && th != other
    requires !s.threads[th].Asking? && !s.threads[other].Asking?
    ensures s.threads[th].keys.ip != s.threads[other].keys.ip && s.threads[th].keys.email != s.threads[other].keys.email
  {
    hide Enumerates, HeldBy;
    var held := HeldBy(s.threads);
    HeldAfter(s.threads, th, s.threads[th]);
    HeldAfter(s.threads, other, s.threads[other]);
    KeysDiffer(held, s.gate.inflightIp, s.gate.inflightEmail, th, other);
  }

  lemma KeysDiffer(held: Held, ips: set<string>, emails: set<string>, h: nat, k: nat)
    requires Enumerates(Ips(held), ips) && Enumerates(Emails(held), emails) && h in held && k in held && h != k
    ensures held[h].ip != held[k].ip && held[h].email != held[k].email
  {
    assert Ips(held)[h] != Ips(held)[k] && Emails(held)[h] != Emails(held)[k];
  }

  // ----- steps -----

  lemma TickKeepsInv(s: System, to: int)
    requires Inv(s) && to >= s.now
    ensures Inv(s.(now := to))
  {
    hide Tracks, Counts, StampsOfIp, StampsOfEmail, FailsOf;
    var after := s.(now := to);
    forall ip: string ensures TracksIp(after, ip) {
      assert TracksIp(s, ip);
      LaterTracks(FailsOf(s.gate.failsByIp, ip), StampsOfIp(s.events, ip), s.now, IP_WINDOW, IP_FAIL_MAX, to);
    }
    forall email: string ensures TracksEmail(after, email) {
      assert TracksEmail(s, email);
      LaterTracks(FailsOf(s.gate.failsByEmail, email), StampsOfEmail(s.events, email), s.now,
                  EMAIL_WINDOW, EMAIL_FAIL_MAX, to);
    }
  }

  /** Pruning at an earlier clock read changes no history. */
  lemma PruneKeepsTracks(s: System, keys: Keys, t: int, after: System)
    requires (forall ip: string :: TracksIp(s, ip)) && (forall email: string :: TracksEmail(s, email)) && t <= s.now
    requires after.events == s.events && after.now == s.now
    requires after.gate.failsByIp == Pruned(s.gate.failsByIp, keys.ip, t, IP_WINDOW)
    requires after.gate.failsByEmail == Pruned(s.gate.failsByEmail, keys.email, t, EMAIL_WINDOW)
    ensures (forall ip: string :: TracksIp(after, ip)) && (forall email: string :: TracksEmail(after, email))
  {
    hide Tracks, StampsOfIp, StampsOfEmail, FailsOf, Pruned, Kept;
    forall ip: string ensures TracksIp(after, ip) {
      assert TracksIp(s, ip);
      PrunedFails(s.gate.failsByIp, keys.ip, t, IP_WINDOW, ip);
      PruneTracks(FailsOf(s.gate.failsByIp, ip), StampsOfIp(s.events, ip), s.now, IP_WINDOW, IP_FAIL_MAX, t);
    }
    forall email: string ensures TracksEmail(after, email) {
      assert TracksEmail(s, email);
      PrunedFails(s.gate.failsByEmail, keys.email, t, EMAIL_WINDOW, email);
      PruneTracks(FailsOf(s.gate.failsByEmail, email), StampsOfEmail(s.events, email), s.now,
                  EMAIL_WINDOW, EMAIL_FAIL_MAX, t);
    }
  }

  lemma AdmittedHasRoom(s: System, keys: Keys, t: int, after: System)
    requires TracksIp(after, keys.ip) && TracksEmail(after, keys.email)
    requires after.gate == Begin(s.gate, keys.ip, keys.email, t).gate
    requires Begin(s.gate, keys.ip, keys.email, t).admit.Admitted?
    ensures RoomFor(after, keys, after.now)
  {
    hide Tracks, StampsOfIp, StampsOfEmail, FailsOf, Pruned, Room, RemainingSec;
    ShortListHasRoom(FailsOf(after.gate.failsByIp, keys.ip), StampsOfIp(after.events, keys.ip), after.now,
                     IP_WINDOW, IP_FAIL_MAX);
    ShortListHasRoom(FailsOf(after.gate.failsByEmail, keys.email), StampsOfEmail(after.events, keys.email), after.now,
                     EMAIL_WINDOW, EMAIL_FAIL_MAX);
  }

  lemma EnterKeepsInv(s: System, th: nat)
    requires Inv(s) && Possible(s, Enter(th))
    ensures Inv(Moved(s, Enter(th)))
  {
    hide Tracks, Counts, StampsOfIp, StampsOfEmail, FailsOf, Pruned, Room, RemainingSec, HeldBy;
    hide TracksIp, TracksEmail, AllUpTo;
    var after := Moved(s, Enter(th));
    var Asking(keys, t) := s.threads[th];
    HeldAfter(s.threads, th, Hashing(keys));
    BeginCounts(s.gate, HeldBy(s.threads), th, keys.ip, keys.email, t);
    assert HeldBy(s.threads) - {th} == HeldBy(s.threads);
    PruneKeepsTracks(s, keys, t, after);
    if Begin(s.gate, keys.ip, keys.email, t).admit.Admitted? {
      AdmittedHasRoom(s, keys, t, after);
    }
    forall x <- after.threads ensures ThreadInv(after, after.threads[x]) {
      if x != th {
        assert ThreadInv(s, s.threads[x]);
      }
    }
  }

  lemma StampsAfter(events: seq<Event>, e: Event, ip: string, email: string)
    ensures StampsOfIp(events + [e], ip) ==
            if e.Failure? && e.ip == ip then StampsOfIp(events, ip) + [e.t] else StampsOfIp(events, ip)
    ensures StampsOfEmail(events + [e], email) ==
            if e.email != email then StampsOfEmail(events, email)
            else if e.Failure? then StampsOfEmail(events, email) + [e.t] else []
  {
    assert (events + [e])[..|events|] == events;
  }

  /** The lists and the histories grow by the same stamp. */
  lemma FailureKeepsTracks(s: System, th: nat)
    requires Inv(s) && Possible(s, Fail(th))
    ensures var after := Moved(s, Fail(th));
            (forall ip: string :: TracksIp(after, ip)) && (forall email: string :: TracksEmail(after, email))
  {
    hide Tracks, Counts, StampsOfIp, StampsOfEmail, Pruned, Room, HeldBy, AllUpTo, Kept;
    assert ThreadInv(s, s.threads[th]);
    var Failing(keys, t) := s.threads[th];
    var after := Moved(s, Fail(th));
    var pushedIp := s.gate.failsByIp[keys.ip := FailsOf(s.gate.failsByIp, keys.ip) + [t]];
    var pushedEmail := s.gate.failsByEmail[keys.email := FailsOf(s.gate.failsByEmail, keys.email) + [t]];
    forall ip: string ensures TracksIp(after, ip) {
      StampsAfter(s.events, Failure(keys.ip, keys.email, t), ip, keys.email);
      PrunedFails(pushedIp, keys.ip, t, IP_WINDOW, ip);
      assert TracksIp(s, ip);
      if ip == keys.ip {
        var list, history := FailsOf(s.gate.failsByIp, ip), StampsOfIp(s.events, ip);
        PushTracks(list, history, s.now, IP_WINDOW, IP_FAIL_MAX, t);
        PruneTracks(list + [t], history + [t], s.now, IP_WINDOW, IP_FAIL_MAX, t);
      }
    }
    forall email: string ensures TracksEmail(after, email) {
      StampsAfter(s.events, Failure(keys.ip, keys.email, t), keys.ip, email);
      PrunedFails(pushedEmail, keys.email, t, EMAIL_WINDOW, email);
      assert TracksEmail(s, email);
      if email == keys.email {
        var list, history := FailsOf(s.gate.failsByEmail, email), StampsOfEmail(s.events, email);
        PushTracks(list, history, s.now, EMAIL_WINDOW, EMAIL_FAIL_MAX, t);
        PruneTracks(list + [t], history + [t], s.now, EMAIL_WINDOW, EMAIL_FAIL_MAX, t);
      }
    }
  }

  /** What one holder records does not touch the keys of another. */
  lemma OthersKeepThreadInv(s: System, after: System, th: nat, e: Event, other: nat)
    requires Inv(s) && th in s.threads && other in s.threads && other != th && !s.threads[th].Asking?
    requires after.events == s.events + [e] && after.now == s.now
    requires e.email == s.threads[th].keys.email && (e.Failure? ==> e.ip == s.threads[th].keys.ip)
    ensures ThreadInv(after, s.threads[other])
  {
    hide Tracks, Counts, StampsOfIp, StampsOfEmail, Room, HeldBy, AllUpTo, TracksIp, TracksEmail;
    var x := s.threads[other];
    assert ThreadInv(s, x);
    if !x.Asking? {
      HoldersDiffer(s, th, other);
      StampsAfter(s.events, e, x.keys.ip, x.keys.email);
    }
  }

  lemma RecordKeepsCounts(s: System, th: nat)
    requires Inv(s) && (Possible(s, Fail(th)) || Possible(s, Succeed(th)) || Possible(s, ReadClock(th)))
    ensures Possible(s, Fail(th)) ==>
              var after := Moved(s, Fail(th)); Counts(after.gate, HeldBy(after.threads))
    ensures Possible(s, Succeed(th)) ==>
              var after := Moved(s, Succeed(th)); Counts(after.gate, HeldBy(after.threads))
    ensures HeldBy(s.threads[th := Leaving(s.threads[th].keys)]) == HeldBy(s.threads)
    ensures HeldBy(s.threads[th := Failing(s.threads[th].keys, s.now)]) == HeldBy(s.threads)
  {
    hide Counts, HeldBy, Tracks, TracksIp, TracksEmail, ThreadInv;
    var held := HeldBy(s.threads);
    var keys := s.threads[th].keys;
    HeldAfter(s.threads, th, Leaving(keys));
    HeldAfter(s.threads, th, Failing(keys, s.now));
    assert held[th := keys] == held;
    if Possible(s, Fail(th)) {
      SameCounts(s.gate, Moved(s, Fail(th)).gate, held);
    }
    if Possible(s, Succeed(th)) {
      SameCounts(s.gate, Moved(s, Succeed(th)).gate, held);
    }
  }

  lemma FailureKeepsInv(s: System, th: nat)
    requires Inv(s) && Possible(s, Fail(th))
    ensures Inv(Moved(s, Fail(th)))
  {
    hide Tracks, Counts, StampsOfIp, StampsOfEmail, Failed, Room, HeldBy, AllUpTo, TracksIp, TracksEmail;
    var after := Moved(s, Fail(th));
    FailureKeepsTracks(s, th);
    RecordKeepsCounts(s, th);
    var Failing(keys, t) := s.threads[th];
    forall x <- after.threads ensures ThreadInv(after, after.threads[x]) {
      if x != th {
        OthersKeepThreadInv(s, after, th, Failure(keys.ip, keys.email, t), x);
      }
    }
  }

  lemma SuccessKeepsInv(s: System, th: nat)
    requires Inv(s) && Possible(s, Succeed(th))
    ensures Inv(Moved(s, Succeed(th)))
  {
    hide Tracks, Counts, StampsOfIp, StampsOfEmail, Room, HeldBy, AllUpTo;
    var after := Moved(s, Succeed(th));
    RecordKeepsCounts(s, th);
    var keys := s.threads[th].keys;
    forall ip: string ensures TracksIp(after, ip) {
      StampsAfter(s.events, Success(keys.email), ip, keys.email);
      assert TracksIp(s, ip);
    }
    forall email: string ensures TracksEmail(after, email) {
      StampsAfter(s.events, Success(keys.email), keys.ip, email);
      assert TracksEmail(s, email);
      if email == keys.email {
        EmptyTracks(s.now, EMAIL_WINDOW, EMAIL_FAIL_MAX);
      }
    }
    forall x <- after.threads ensures ThreadInv(after, after.threads[x]) {
      if x != th {
        OthersKeepThreadInv(s, after, th, Success(keys.email), x);
      }
    }
  }

  lemma EmptyTracks(now: int, window: int, max: nat)
    ensures Tracks([], [], now, window, max)
  {
  }

  lemma LeaveKeepsInv(s: System, th: nat)
    requires Inv(s) && Possible(s, Leave(th))
    ensures Inv(Moved(s, Leave(th)))
  {
    hide Tracks, Counts, StampsOfIp, StampsOfEmail, Room, HeldBy, AllUpTo, FailsOf;
    HeldAfter(s.threads, th, s.threads[th]);
    ReleaseCounts(s.gate, HeldBy(s.threads), th);
    var after := Moved(s, Leave(th));
    forall ip: string ensures TracksIp(after, ip) {
      assert TracksIp(s, ip);
    }
    forall email: string ensures TracksEmail(after, email) {
      assert TracksEmail(s, email);
    }
    forall x <- after.threads ensures ThreadInv(after, after.threads[x]) {
      assert ThreadInv(s, s.threads[x]);
    }
  }

  /** Moves that only change what one thread does. */
  lemma ThreadMoveKeepsInv(s: System, th: nat, x: Thread)
    requires Inv(s) && ThreadInv(s, x)
    requires Counts(s.gate, HeldBy(s.threads[th := x]))
    ensures Inv(s.(threads := s.threads[th := x]))
  {
    hide Tracks, Counts, StampsOfIp, StampsOfEmail, Room, HeldBy, AllUpTo, FailsOf;
    var after := s.(threads := s.threads[th := x]);
    forall ip: string ensures TracksIp(after, ip) {
      assert TracksIp(s, ip);
    }
    forall email: string ensures TracksEmail(after, email) {
      assert TracksEmail(s, email);
    }
    forall k <- after.threads ensures ThreadInv(after, after.threads[k]) {
      if k != th {
        assert ThreadInv(s, s.threads[k]);
      }
    }
  }

  lemma ReadClockInv(s: System, keys: Keys)
    requires TracksIp(s, keys.ip) && TracksEmail(s, keys.email) && RoomFor(s, keys, s.now)
    ensures ThreadInv(s, Failing(keys, s.now))
  {
    hide StampsOfIp, StampsOfEmail, Room, AllUpTo, FailsOf;
  }

  lemma MoveKeepsInv(s: System, m: Move)
    requires Inv(s) && Possible(s, m)
    ensures Inv(Moved(s, m))
  {
    hide Counts, StampsOfIp, StampsOfEmail, HeldBy, TracksIp, TracksEmail, Room, AllUpTo, Begin, Failed, Released;
    match m
    case Tick(to) => TickKeepsInv(s, to);
    case Ask(th, ip, email) =>
      HeldAfter(s.threads, th, Asking(Keys(ip, email), s.now));
      assert HeldBy(s.threads) - {th} == HeldBy(s.threads);
      ThreadMoveKeepsInv(s, th, Asking(Keys(ip, email), s.now));
    case Enter(th) => EnterKeepsInv(s, th);
    case ReadClock(th) =>
      var keys := s.threads[th].keys;
      assert ThreadInv(s, s.threads[th]);
      RecordKeepsCounts(s, th);
      ReadClockInv(s, keys);
      ThreadMoveKeepsInv(s, th, Failing(keys, s.now));
    case Fail(th) => FailureKeepsInv(s, th);
    case Succeed(th) => SuccessKeepsInv(s, th);
    case Skip(th) =>
      RecordKeepsCounts(s, th);
      ThreadMoveKeepsInv(s, th, Leaving(s.threads[th].keys));
    case Leave(th) => LeaveKeepsInv(s, th);
  }

  // ----- runs -----

  ghost predicate Start(s: System) {
    s.gate == Gate({}, {}, 0, map[], map[]) && s.threads == map[] && s.events == []
  }

  ghost predicate IsRun(systems: seq<System>, moves: seq<Move>) {
    && |systems| == |moves| + 1
    && Start(systems[0])
    && forall i: nat :: i < |moves| ==> Possible(systems[i], moves[i]) && systems[i + 1] == Moved(systems[i], moves[i])
  }

  lemma StartInv(s: System)
    requires Start(s)
    ensures Inv(s)
  {
    assert HeldBy(s.threads) == map[];
    forall ip: string ensures TracksIp(s, ip) && TracksEmail(s, ip) {
      EmptyTracks(s.now, IP_WINDOW, IP_FAIL_MAX);
    }
  }

  lemma {:induction false} RunKeepsInv(systems: seq<System>, moves: seq<Move>, i: nat)
    requires IsRun(systems, moves) && i < |systems|
    ensures Inv(systems[i])
  {
    hide Moved, Inv;
    if i == 0 {
      StartInv(systems[0]);
    } else {
      RunKeepsInv(systems, moves, i - 1);
      MoveKeepsInv(systems[i - 1], moves[i - 1]);
    }
  }

  /** The places of the stamps in a closed window. */
  ghost function InWindow(stamps: seq<int>, from: int, window: int): set<nat> {
    set i: nat | i < |stamps| && from <= stamps[i] <= from + window
  }

  lemma {:induction false} FirstAtLeast(stamps: seq<int>, from: int) returns (n: nat)
    requires Sorted(stamps)
    ensures n <= |stamps| && (forall i: nat :: i < n ==> stamps[i] < from) && (n < |stamps| ==> stamps[n] >= from)
  {
    n := 0;
    while n < |stamps| && stamps[n] < from
      invariant n <= |stamps| && forall i: nat :: i < n ==> stamps[i] < from
    {
      n := n + 1;
    }
  }

  lemma SpacedWindow(stamps: seq<int>, from: int, window: int, max: nat)
    requires Sorted(stamps) && Spaced(stamps, window, max)
    ensures |InWindow(stamps, from, window)| <= max
  {
    var n := FirstAtLeast(stamps, from);
    forall i <- InWindow(stamps, from, window) ensures i as int in Interval(n, max) {
      FartherThanWindow(stamps, window, max, n, i);
    }
    NatsInInterval(InWindow(stamps, from, window), n, max);
  }

  lemma FartherThanWindow(stamps: seq<int>, window: int, max: nat, n: nat, i: nat)
    requires Sorted(stamps) && Spaced(stamps, window, max) && i < |stamps|
    ensures n + max <= i ==> stamps[n] < stamps[i] - window
  {
    if n + max <= i {
      assert stamps[n] < stamps[n + max] - window;
    }
  }

  lemma NatsInInterval(s: set<nat>, from: nat, n: nat)
    requires forall i <- s :: i as int in Interval(from, n)
    ensures |s| <= n
  {
    assert s <= Interval(from, n);
    SubsetSize(s, Interval(from, n));
  }

  /** In no run do more than ten failures of one IP fall into any ten minutes. */
  lemma FailuresPerWindow(systems: seq<System>, moves: seq<Move>, i: nat, ip: string, from: int)
    requires IsRun(systems, moves) && i < |systems|
    ensures |InWindow(StampsOfIp(systems[i].events, ip), from, 600 * SECOND)| <= 10
  {
    hide Moved, StampsOfIp, InWindow, Spaced, Sorted, Counts;
    RunKeepsInv(systems, moves, i);
    assert TracksIp(systems[i], ip);
    SpacedWindow(StampsOfIp(systems[i].events, ip), from, IP_WINDOW, IP_FAIL_MAX);
  }

  /** The same for an email, between two successes. */
  lemma EmailFailuresPerWindow(systems: seq<System>, moves: seq<Move>, i: nat, email: string, from: int)
    requires IsRun(systems, moves) && i < |systems|
    ensures |InWindow(StampsOfEmail(systems[i].events, email), from, 600 * SECOND)| <= 10
  {
    hide Moved, StampsOfEmail, InWindow, Spaced, Sorted, Counts;
    RunKeepsInv(systems, moves, i);
    assert TracksEmail(systems[i], email);
    SpacedWindow(StampsOfEmail(systems[i].events, email), from, EMAIL_WINDOW, EMAIL_FAIL_MAX);
  }

  /** In every run the list of an IP is sorted and holds, in order, every failure still in the window. */
  lemma ListHoldsTheWindow(systems: seq<System>, moves: seq<Move>, i: nat, ip: string)
    requires IsRun(systems, moves) && i < |systems|
    ensures var list := FailsOf(systems[i].gate.failsByIp, ip);
            var history := StampsOfIp(systems[i].events, ip);
            && Sorted(list) && Sorted(history)
            && |list| <= |history| && list == history[|history| - |list|..]
            && AllBelow(history[..|history| - |list|], systems[i].now - IP_WINDOW)
  {
    hide Moved, StampsOfIp, Spaced, Counts, FailsOf;
    RunKeepsInv(systems, moves, i);
    assert TracksIp(systems[i], ip);
  }

  /** The list of an email holds every failure since its last success that is still in the window. */
  lemma EmailListHoldsTheWindow(systems: seq<System>, moves: seq<Move>, i: nat, email: string)
    requires IsRun(systems, moves) && i < |systems|
    ensures var list := FailsOf(systems[i].gate.failsByEmail, email);
            var history := StampsOfEmail(systems[i].events, email);
            && Sorted(list) && Sorted(history)
            && |list| <= |history| && list == history[|history| - |list|..]
            && AllBelow(history[..|history| - |list|], systems[i].now - EMAIL_WINDOW)
  {
    hide Moved, StampsOfEmail, Spaced, Counts, FailsOf;
    RunKeepsInv(systems, moves, i);
    assert TracksEmail(systems[i], email);
  }
}
