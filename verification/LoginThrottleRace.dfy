/** A thread that is admitted late. */
module LoginThrottleRace {
  // Thread 0 reads the clock at 0 and is not scheduled; ten failures at 0 follow, which throttle anybody who asks then.
  // A clock read ten minutes later drops them, and thread 0, whose window still holds all ten, is let in.

  import LoginGuards
  import opened LoginLimiters
  import opened LoginWindows
  import opened LoginThrottles

  const KEYS: Keys := LoginGuards.Keys.Keys("ip", "email")

  function Zeros(n: nat): seq<int> {
    if n == 0 then [] else Zeros(n - 1) + [0]
  }

  function Failures(n: nat): seq<Event> {
    if n == 0 then [] else Failures(n - 1) + [Failure("ip", "email", 0)]
  }

  function Fails(n: nat, key: string): LoginLimiters.Fails {
    if n == 0 then map[] else map[key := Zeros(n)]
  }

  function Quiet(n: nat): Gate {
    Gate({}, {}, 0, Fails(n, "ip"), Fails(n, "email"))
  }

  /** Thread 0 asked at time 0, and since then n others failed. */
  function AfterFailures(n: nat): System {
    System(Quiet(n), 0, map[0 := Asking(KEYS, 0)], Failures(n))
  }

  lemma {:induction false} ZerosAre(n: nat)
    ensures |Zeros(n)| == n && forall x <- Zeros(n) :: x == 0
  {
    if n > 0 {
      ZerosAre(n - 1);
    }
  }

  lemma {:induction false} KeptNone(s: seq<int>, cutoff: int)
    requires forall x <- s :: x < cutoff
    ensures Kept(s, cutoff) == []
  {
    if s != [] {
      assert s[0] in s;
      assert forall x <- s[1..] :: x in s;
      KeptNone(s[1..], cutoff);
    }
  }

  lemma {:induction false} StampsOfFailures(n: nat)
    ensures StampsOfIp(Failures(n), "ip") == Zeros(n) && StampsOfEmail(Failures(n), "email") == Zeros(n)
  {
    if n > 0 {
      StampsOfFailures(n - 1);
      StampsAfter(Failures(n - 1), Failure("ip", "email", 0), "ip", "email");
    }
  }

  /** Nothing is dropped at time 0. */
  lemma PruneAtZero(n: nat, key: string)
    ensures Pruned(Fails(n, key), key, 0, IP_WINDOW) == Fails(n, key)
    ensures FailsOf(Fails(n, key), key) == Zeros(n)
  {
    ZerosAre(n);
    KeptAll(Zeros(n), -IP_WINDOW);
  }

  lemma PruneLate(n: nat, key: string)
    ensures Pruned(Fails(n, key), key, IP_WINDOW + 1, IP_WINDOW) == map[]
  {
    ZerosAre(n);
    KeptNone(Zeros(n), 1);
  }

  lemma BeginAtZero(n: nat)
    requires n < 10
    ensures Begin(Quiet(n), "ip", "email", 0) ==
            Begun(Gate({"ip"}, {"email"}, 1, Fails(n, "ip"), Fails(n, "email")), Admitted, 0)
  {
    hide Fails, Pruned, Kept;
    ZerosAre(n);
    PruneAtZero(n, "ip");
    PruneAtZero(n, "email");
  }

  lemma FailAtZero(n: nat, g: Gate)
    requires g.failsByIp == Fails(n, "ip") && g.failsByEmail == Fails(n, "email")
    ensures Failed(g, "ip", "email", 0) == g.(failsByIp := Fails(n + 1, "ip"), failsByEmail := Fails(n + 1, "email"))
  {
    hide Pruned, Kept;
    PruneAtZero(n, "ip");
    PruneAtZero(n, "email");
    PruneAtZero(n + 1, "ip");
    PruneAtZero(n + 1, "email");
    assert Fails(n, "ip")["ip" := Zeros(n) + [0]] == Fails(n + 1, "ip");
    assert Fails(n, "email")["email" := Zeros(n) + [0]] == Fails(n + 1, "email");
  }

  lemma Then(systems: seq<System>, moves: seq<Move>, m: Move) returns (systems': seq<System>, moves': seq<Move>)
    requires IsRun(systems, moves) && Possible(systems[|moves|], m)
    ensures |systems'| == |moves'| + 1 && IsRun(systems', moves') && systems'[|moves'|] == Moved(systems[|moves|], m)
  {
    hide Possible, Moved, Start;
    systems', moves' := systems + [Moved(systems[|moves|], m)], moves + [m];
  }

  /** One more thread asks, is admitted, fails and leaves, all at time 0. */
  lemma OneFailure(systems: seq<System>, moves: seq<Move>, n: nat) returns (systems': seq<System>, moves': seq<Move>)
    requires IsRun(systems, moves) && systems[|moves|] == AfterFailures(n) && n < 10
    ensures IsRun(systems', moves') && systems'[|moves'|] == AfterFailures(n + 1)
  {
    hide Begin, Failed, Fails, IsRun;
    BeginAtZero(n);
    var gate := Begin(Quiet(n), "ip", "email", 0).gate;
    FailAtZero(n, gate);
    systems', moves' := Then(systems, moves, Ask(1, "ip", "email"));
    systems', moves' := Then(systems', moves', Enter(1));
    systems', moves' := Then(systems', moves', ReadClock(1));
    systems', moves' := Then(systems', moves', Fail(1));
    systems', moves' := Then(systems', moves', Leave(1));
    assert systems'[|moves'|].threads == map[0 := Asking(KEYS, 0)];
  }

  lemma {:induction false} RunToFailures(n: nat) returns (systems: seq<System>, moves: seq<Move>)
    requires n <= 10
    ensures IsRun(systems, moves) && systems[|moves|] == AfterFailures(n)
  {
    if n == 0 {
      systems, moves := [System(Quiet(0), 0, map[], [])], [];
      systems, moves := Then(systems, moves, Ask(0, "ip", "email"));
    } else {
      hide IsRun;
      systems, moves := RunToFailures(n - 1);
      systems, moves := OneFailure(systems, moves, n - 1);
    }
  }

  /** Ten minutes later a thread asks, is let in and leaves without recording anything. */
  lemma LateVisit(systems: seq<System>, moves: seq<Move>) returns (systems': seq<System>, moves': seq<Move>)
    requires IsRun(systems, moves) && systems[|moves|] == AfterFailures(10)
    ensures IsRun(systems', moves')
    ensures systems'[|moves'|] == AfterFailures(10).(gate := Gate({}, {}, 0, map[], map[]), now := IP_WINDOW + 1)
  {
    hide Begin, Failed, Fails, IsRun, Failures;
    var late := IP_WINDOW + 1;
    BeginLate(10);
    systems', moves' := Then(systems, moves, Tick(late));
    systems', moves' := Then(systems', moves', Ask(1, "ip", "email"));
    systems', moves' := Then(systems', moves', Enter(1));
    systems', moves' := Then(systems', moves', Skip(1));
    systems', moves' := Then(systems', moves', Leave(1));
    assert systems'[|moves'|].threads == map[0 := Asking(KEYS, 0)];
  }

  lemma BeginLate(n: nat)
    ensures Begin(Quiet(n), "ip", "email", IP_WINDOW + 1) ==
            Begun(Gate({"ip"}, {"email"}, 1, map[], map[]), Admitted, 0)
  {
    hide Fails, Pruned, Kept;
    PruneLate(n, "ip");
    PruneLate(n, "email");
  }

  lemma {:induction false} AllSince(n: nat)
    ensures CountSince(Zeros(n), -IP_WINDOW) == n
  {
    if n > 0 {
      AllSince(n - 1);
      assert Zeros(n)[..|Zeros(n)| - 1] == Zeros(n - 1);
    }
  }

  /** Ten failures in the window of a clock read do not always throttle: a later clock read may have dropped them. */
  lemma LateThreadIsAdmitted() returns (systems: seq<System>, moves: seq<Move>)
    ensures IsRun(systems, moves) && systems[|moves|].threads == map[0 := Asking(KEYS, 0)]
    ensures TenInWindow(systems[|moves|], Ip("ip"), 0) && TenInWindow(systems[|moves|], Email("email"), 0)
    ensures Begin(systems[|moves|].gate, "ip", "email", 0).admit == Admitted
  {
    hide IsRun, Failures, Fails;
    systems, moves := RunToFailures(10);
    systems, moves := LateVisit(systems, moves);
    StampsOfFailures(10);
    AllSince(10);
  }
}
