/** When a login is throttled, told by what was recorded. */
module LoginThrottles {
  import opened Outcomes
  import opened LoginLimiters
  import LoginGuards
  import opened LoginWindows

  type Keys = LoginGuards.Keys

  datatype Key = Ip(ip: string) | Email(email: string)

  function WindowOf(key: Key): int {
    match key
    case Ip(_) => IP_WINDOW
    case Email(_) => EMAIL_WINDOW
  }

  function MaxOf(key: Key): nat {
    match key
    case Ip(_) => IP_FAIL_MAX
    case Email(_) => EMAIL_FAIL_MAX
  }

  function ListOf(g: Gate, key: Key): seq<int> {
    match key
    case Ip(ip) => FailsOf(g.failsByIp, ip)
    case Email(email) => FailsOf(g.failsByEmail, email)
  }

  function StampsOf(events: seq<Event>, key: Key): seq<int> {
    match key
    case Ip(ip) => StampsOfIp(events, ip)
    case Email(email) => StampsOfEmail(events, email)
  }

  predicate HasKey(keys: Keys, key: Key) {
    match key
    case Ip(ip) => keys.ip == ip
    case Email(email) => keys.email == email
  }

  predicate IsFailureOf(e: Event, key: Key) {
    e.Failure? && HasKey(LoginGuards.Keys.Keys(e.ip, e.email), key)
  }

  /** Where the stamps of a key stand among the events: all failures of an IP, those of an email since its success. */
  function PlacesOf(events: seq<Event>, key: Key): (r: seq<nat>)
    ensures forall j: nat :: j < |r| ==> r[j] < |events| && IsFailureOf(events[r[j]], key)
  {
    if events == [] then []
    else
      var n := |events| - 1;
      var before := PlacesOf(events[..n], key);
      if IsFailureOf(events[n], key) then before + [n]
      else if key == Email(events[n].email) then []
      else before
  }

  function StampOf(events: seq<Event>, e: nat): int
    requires e < |events|
  {
    if events[e].Failure? then events[e].t else 0
  }

  lemma {:induction false} StampAt(events: seq<Event>, key: Key)
    ensures |PlacesOf(events, key)| == |StampsOf(events, key)|
    ensures forall j: nat :: j < |PlacesOf(events, key)| ==>
              StampsOf(events, key)[j] == StampOf(events, PlacesOf(events, key)[j])
  {
    if events != [] {
      StampAt(events[..|events| - 1], key);
    }
  }

  /** The clock read with which a move prunes the list of the key. */
  function PruneRead(s: System, m: Move, key: Key): Option<int>
    requires Possible(s, m)
  {
    match m
    case Enter(th) => if HasKey(s.threads[th].keys, key) then Some(s.threads[th].t) else None
    case Fail(th) => if HasKey(s.threads[th].keys, key) then Some(s.threads[th].t) else None
    case _ => None
  }

  /** No clock read that pruned the list after event e was recorded put stamp x out of the window. */
  ghost predicate Survives(systems: seq<System>, moves: seq<Move>, i: nat, key: Key, e: nat, x: int)
    requires IsRun(systems, moves) && i < |systems|
  {
    forall k: nat :: k < i && e < |systems[k + 1].events| ==>
      (var read := PruneRead(systems[k], moves[k], key); read.Some? ==> x >= read.value - WindowOf(key))
  }

  /** The tenth last failure of the key is in the window of t and of every clock read that pruned since. */
  ghost predicate IsFull(systems: seq<System>, moves: seq<Move>, i: nat, key: Key, t: int)
    requires IsRun(systems, moves) && i < |systems|
  {
    var places := PlacesOf(systems[i].events, key);
    && |places| >= MaxOf(key)
    && var e := places[|places| - MaxOf(key)];
       var x := StampOf(systems[i].events, e);
       x >= t - WindowOf(key) && Survives(systems, moves, i, key, e, x)
  }

  // ----- one list -----

  /** The list is the end of the sorted stamps of the key. */
  ghost predicate IsEnd(list: seq<int>, stamps: seq<int>) {
    Sorted(stamps) && |list| <= |stamps| && list == stamps[|stamps| - |list|..]
  }

  lemma ListIsEnd(systems: seq<System>, moves: seq<Move>, i: nat, key: Key)
    requires IsRun(systems, moves) && i < |systems|
    ensures IsEnd(ListOf(systems[i].gate, key), StampsOf(systems[i].events, key))
  {
    hide IsRun, Sorted, FailsOf, StampsOfIp, StampsOfEmail;
    match key
    case Ip(ip) => ListHoldsTheWindow(systems, moves, i, ip);
    case Email(email) => EmailListHoldsTheWindow(systems, moves, i, email);
  }

  lemma {:induction false} KeptAtLeast(s: seq<int>, cutoff: int)
    ensures forall x <- Kept(s, cutoff) :: x >= cutoff
  {
    if s != [] {
      KeptAtLeast(s[1..], cutoff);
    }
  }

  /** Pruning keeps exactly the places whose stamp is in the window. */
  lemma KeptPlaces(list: seq<int>, stamps: seq<int>, cutoff: int, j: nat)
    requires IsEnd(list, stamps) && j < |stamps|
    ensures IsEnd(Kept(list, cutoff), stamps)
    ensures j >= |stamps| - |Kept(list, cutoff)| <==> j >= |stamps| - |list| && stamps[j] >= cutoff
  {
    hide Kept;
    var n := KeptIsEnd(list, cutoff);
    KeptAtLeast(list, cutoff);
    var d := |stamps| - |list|;
    assert list[n..] == stamps[d + n..];
    if d <= j < d + n {
      assert stamps[j] == list[..n][j - d] && stamps[j] in list[..n];
    } else if j >= d + n {
      assert stamps[j] == list[n..][j - d - n] && stamps[j] in Kept(list, cutoff);
    }
  }

  // ----- one move -----

  /** What a move does to the list and to the places of one key. */
  ghost predicate ChangesKey(s: System, m: Move, after: System, key: Key)
    requires Possible(s, m)
  {
    var read := PruneRead(s, m, key);
    var list, places := ListOf(s.gate, key), PlacesOf(s.events, key);
    var list', places' := ListOf(after.gate, key), PlacesOf(after.events, key);
    && s.events <= after.events
    && (if m.Fail? && read.Some? then
          && |after.events| == |s.events| + 1 && StampOf(after.events, |s.events|) == read.value
          && list' == Kept(list + [read.value], read.value - WindowOf(key)) && places' == places + [|s.events|]
        else if m.Enter? && read.Some? then list' == Kept(list, read.value - WindowOf(key)) && places' == places
        else if m.Succeed? && key == Email(s.threads[m.thread].keys.email) then list' == [] && places' == []
        else list' == list && places' == places)
  }

  lemma MoveOnKey(s: System, m: Move, key: Key)
    requires Possible(s, m)
    ensures ChangesKey(s, m, Moved(s, m), key)
  {
    if m.Enter? {
      EnterOnKey(s, m.thread, key);
    } else if m.Fail? {
      FailOnKey(s, m.thread, key);
    } else if m.Succeed? {
      SucceedOnKey(s, m.thread, key);
    } else {
      hide Kept, PlacesOf, StampOf, WindowOf;
    }
  }

  lemma EnterOnKey(s: System, th: nat, key: Key)
    requires Possible(s, Enter(th))
    ensures ChangesKey(s, Enter(th), Moved(s, Enter(th)), key)
  {
    hide Kept, PlacesOf, ListOf, Begin, WindowOf, HasKey, StampOf;
    BeginLists(s.gate, s.threads[th].keys, s.threads[th].t, key);
  }

  lemma FailOnKey(s: System, th: nat, key: Key)
    requires Possible(s, Fail(th))
    ensures ChangesKey(s, Fail(th), Moved(s, Fail(th)), key)
  {
    hide Kept, PlacesOf, ListOf, Failed, WindowOf;
    var Failing(keys, t) := s.threads[th];
    FailedLists(s.gate, keys, t, key);
    PlacesAfter(s.events, Failure(keys.ip, keys.email, t), key);
  }

  lemma SucceedOnKey(s: System, th: nat, key: Key)
    requires Possible(s, Succeed(th))
    ensures ChangesKey(s, Succeed(th), Moved(s, Succeed(th)), key)
  {
    hide Kept, PlacesOf, WindowOf;
    PlacesAfter(s.events, Success(s.threads[th].keys.email), key);
  }

  lemma BeginLists(g: Gate, keys: Keys, t: int, key: Key)
    ensures ListOf(Begin(g, keys.ip, keys.email, t).gate, key) ==
            if HasKey(keys, key) then Kept(ListOf(g, key), t - WindowOf(key)) else ListOf(g, key)
  {
    hide Pruned, Kept, FailsOf, RemainingSec;
    match key
    case Ip(ip) => PrunedFails(g.failsByIp, keys.ip, t, IP_WINDOW, ip);
    case Email(email) => PrunedFails(g.failsByEmail, keys.email, t, EMAIL_WINDOW, email);
  }

  lemma FailedLists(g: Gate, keys: Keys, t: int, key: Key)
    ensures ListOf(Failed(g, keys.ip, keys.email, t), key) ==
            if HasKey(keys, key) then Kept(ListOf(g, key) + [t], t - WindowOf(key)) else ListOf(g, key)
  {
    hide Pruned, Kept;
    match key
    case Ip(ip) =>
      PrunedFails(g.failsByIp[keys.ip := FailsOf(g.failsByIp, keys.ip) + [t]], keys.ip, t, IP_WINDOW, ip);
    case Email(email) =>
      PrunedFails(g.failsByEmail[keys.email := FailsOf(g.failsByEmail, keys.email) + [t]], keys.email, t,
                  EMAIL_WINDOW, email);
  }

  lemma PlacesAfter(events: seq<Event>, e: Event, key: Key)
    ensures PlacesOf(events + [e], key) ==
            if IsFailureOf(e, key) then PlacesOf(events, key) + [|events|]
            else if key == Email(e.email) then [] else PlacesOf(events, key)
  {
    assert (events + [e])[..|events|] == events;
  }

  // ----- runs -----

  lemma {:induction false} EventsGrow(systems: seq<System>, moves: seq<Move>, i: nat, j: nat)
    requires IsRun(systems, moves) && i <= j < |systems|
    ensures systems[i].events <= systems[j].events
    decreases j
  {
    hide Moved, Possible;
    if i < j {
      EventsGrow(systems, moves, i, j - 1);
      MoveOnKey(systems[j - 1], moves[j - 1], Ip(""));
    }
  }

  lemma SurvivesStep(systems: seq<System>, moves: seq<Move>, i: nat, key: Key, e: nat, x: int)
    requires IsRun(systems, moves) && i < |moves| && e < |systems[i + 1].events|
    ensures Survives(systems, moves, i + 1, key, e, x) <==>
            Survives(systems, moves, i, key, e, x)
            && (var read := PruneRead(systems[i], moves[i], key); read.Some? ==> x >= read.value - WindowOf(key))
  {
    hide PruneRead, Moved, Possible;
  }

  /** Nothing pruned after an event that is not recorded yet. */
  lemma NewEventSurvives(systems: seq<System>, moves: seq<Move>, i: nat, key: Key, x: int)
    requires IsRun(systems, moves) && i < |systems|
    ensures Survives(systems, moves, i, key, |systems[i].events|, x)
  {
    hide PruneRead, Moved, Possible;
    forall k: nat | k <= i ensures |systems[k].events| <= |systems[i].events| {
      EventsGrow(systems, moves, k, i);
    }
  }

  /** Place j of the stamps of the key is still in the list. */
  ghost predicate InList(s: System, key: Key, j: nat) {
    j >= |StampsOf(s.events, key)| - |ListOf(s.gate, key)|
  }

  /** How a move changes which places are still in the list. */
  lemma InListStep(systems: seq<System>, moves: seq<Move>, i: nat, key: Key, j: nat)
    requires IsRun(systems, moves) && i < |moves| && j < |PlacesOf(systems[i + 1].events, key)|
    ensures var before, after := systems[i], systems[i + 1];
            var read, places := PruneRead(before, moves[i], key), PlacesOf(before.events, key);
            var e := PlacesOf(after.events, key)[j];
            && before.events <= after.events
            && (if j < |places| then e == places[j] else e == |before.events|)
            && (InList(after, key, j) <==>
                (j < |places| ==> InList(before, key, j))
                && (read.Some? ==> StampOf(after.events, e) >= read.value - WindowOf(key)))
  {
    hide Moved, Possible, PruneRead, ListOf, StampsOf, Kept, IsFailureOf, PlacesOf, Start;
    var before, m, after := systems[i], moves[i], systems[i + 1];
    var read, list := PruneRead(before, m, key), ListOf(before.gate, key);
    StampAt(before.events, key);
    StampAt(after.events, key);
    ListIsEnd(systems, moves, i, key);
    ListIsEnd(systems, moves, i + 1, key);
    MoveOnKey(before, m, key);
    ReadingMove(before, m, key);
    var stamps, stamps' := StampsOf(before.events, key), StampsOf(after.events, key);
    if m.Fail? && read.Some? {
      assert stamps' == stamps + [read.value];
      assert IsEnd(list + [read.value], stamps');
      KeptPlaces(list + [read.value], stamps', read.value - WindowOf(key), j);
    } else if m.Enter? && read.Some? {
      assert stamps' == stamps;
      KeptPlaces(list, stamps, read.value - WindowOf(key), j);
    }
  }

  lemma ReadingMove(s: System, m: Move, key: Key)
    requires Possible(s, m)
    ensures PruneRead(s, m, key).Some? ==> m.Fail? || m.Enter?
  {
  }

  /** The list has lost exactly the stamps that some clock read, after they were recorded, put out of the window. */
  lemma {:induction false} ListHoldsSurvivors(systems: seq<System>, moves: seq<Move>, i: nat, key: Key, j: nat)
    requires IsRun(systems, moves) && i < |systems| && j < |PlacesOf(systems[i].events, key)|
    ensures var e := PlacesOf(systems[i].events, key)[j];
            InList(systems[i], key, j) <==> Survives(systems, moves, i, key, e, StampOf(systems[i].events, e))
    decreases i
  {
    hide Moved, Possible, PruneRead, Survives, InList, IsFailureOf, PlacesOf, Start;
    if i == 0 {
      NoPlaces(systems[0], key);
    } else {
      var e := PlacesOf(systems[i].events, key)[j];
      InListStep(systems, moves, i - 1, key, j);
      SurvivesStep(systems, moves, i - 1, key, e, StampOf(systems[i].events, e));
      if j < |PlacesOf(systems[i - 1].events, key)| {
        ListHoldsSurvivors(systems, moves, i - 1, key, j);
      } else {
        NewEventSurvives(systems, moves, i - 1, key, StampOf(systems[i].events, e));
      }
    }
  }

  lemma NoPlaces(s: System, key: Key)
    requires Start(s)
    ensures PlacesOf(s.events, key) == []
  {
  }

  // ----- when a login is throttled -----

  /** The list, pruned at t, is full exactly when the tenth last failure is in all those windows. */
  lemma FullList(systems: seq<System>, moves: seq<Move>, i: nat, key: Key, t: int)
    requires IsRun(systems, moves) && i < |systems|
    ensures |Kept(ListOf(systems[i].gate, key), t - WindowOf(key))| >= MaxOf(key) <==> IsFull(systems, moves, i, key, t)
  {
    hide ListOf, StampsOf, Kept, PlacesOf, Survives, IsRun, Sorted;
    var s := systems[i];
    var list, stamps := ListOf(s.gate, key), StampsOf(s.events, key);
    StampAt(s.events, key);
    ListIsEnd(systems, moves, i, key);
    if |stamps| >= MaxOf(key) {
      var j: nat := |stamps| - MaxOf(key);
      KeptPlaces(list, stamps, t - WindowOf(key), j);
      ListHoldsSurvivors(systems, moves, i, key, j);
    } else {
      KeptIsShorter(list, t - WindowOf(key));
    }
  }

  lemma {:induction false} KeptIsShorter(s: seq<int>, cutoff: int)
    ensures |Kept(s, cutoff)| <= |s|
  {
    if s != [] {
      KeptIsShorter(s[1..], cutoff);
    }
  }

  /**
   * In every run, a thread that read the clock at t, perhaps long ago, is throttled if and only if, for its IP or for
   * its email, the tenth last failure is in the window of t and of every clock read that pruned the list since.
   */
  lemma ThrottledIff(systems: seq<System>, moves: seq<Move>, i: nat, th: nat)
    requires IsRun(systems, moves) && i < |systems| && Possible(systems[i], Enter(th))
    ensures var Asking(keys, t) := systems[i].threads[th];
            Begin(systems[i].gate, keys.ip, keys.email, t).admit == Throttled <==>
              IsFull(systems, moves, i, Ip(keys.ip), t) || IsFull(systems, moves, i, Email(keys.email), t)
  {
    hide IsRun, Kept, IsFull, Begin, FailsOf;
    var Asking(keys, t) := systems[i].threads[th];
    BeginAnswers(systems[i].gate, keys.ip, keys.email, t);
    FullList(systems, moves, i, Ip(keys.ip), t);
    FullList(systems, moves, i, Email(keys.email), t);
  }

  /** How many stamps are at or after a time. */
  function CountSince(stamps: seq<int>, from: int): nat {
    if stamps == [] then 0
    else CountSince(stamps[..|stamps| - 1], from) + if stamps[|stamps| - 1] >= from then 1 else 0
  }

  lemma {:induction false} SortedCount(stamps: seq<int>, from: int, n: nat)
    requires Sorted(stamps) && n > 0
    ensures CountSince(stamps, from) >= n <==> |stamps| >= n && stamps[|stamps| - n] >= from
  {
    if stamps != [] {
      var k := |stamps| - 1;
      if stamps[k] < from {
        SortedCount(stamps[..k], from, n);
      } else if n > 1 {
        SortedCount(stamps[..k], from, n - 1);
      }
    }
  }

  /** Ten failures of the key are not older than the window at t. */
  ghost predicate TenInWindow(s: System, key: Key, t: int) {
    CountSince(StampsOf(s.events, key), t - WindowOf(key)) >= MaxOf(key)
  }

  /** No clock read that pruned a list of the key so far is after t. */
  ghost predicate NoLaterPrune(systems: seq<System>, moves: seq<Move>, i: nat, key: Key, t: int)
    requires IsRun(systems, moves) && i < |systems|
  {
    forall k: nat :: k < i ==> (var read := PruneRead(systems[k], moves[k], key); read.Some? ==> read.value <= t)
  }

  lemma FullMeansTen(systems: seq<System>, moves: seq<Move>, i: nat, key: Key, t: int)
    requires IsRun(systems, moves) && i < |systems|
    ensures IsFull(systems, moves, i, key, t) ==> TenInWindow(systems[i], key, t)
    ensures NoLaterPrune(systems, moves, i, key, t) && TenInWindow(systems[i], key, t) ==>
              IsFull(systems, moves, i, key, t)
  {
    hide StampsOf, PlacesOf, IsRun, CountSince, PruneRead;
    var stamps := StampsOf(systems[i].events, key);
    StampAt(systems[i].events, key);
    ListIsEnd(systems, moves, i, key);
    SortedCount(stamps, t - WindowOf(key), MaxOf(key));
  }

  /**
   * In every run, whoever is throttled had ten recorded failures of the IP, or of the email since its last success, not
   * older than ten minutes at its clock read; the converse holds unless a later clock read already pruned a list.
   */
  lemma ThrottledByTenFailures(systems: seq<System>, moves: seq<Move>, i: nat, th: nat)
    requires IsRun(systems, moves) && i < |systems| && Possible(systems[i], Enter(th))
    ensures var Asking(keys, t) := systems[i].threads[th];
            var ip, email := Ip(keys.ip), Email(keys.email);
            var throttled := Begin(systems[i].gate, keys.ip, keys.email, t).admit == Throttled;
            && (throttled ==> TenInWindow(systems[i], ip, t) || TenInWindow(systems[i], email, t))
            && (NoLaterPrune(systems, moves, i, ip, t) && NoLaterPrune(systems, moves, i, email, t) ==>
                  (throttled <==> TenInWindow(systems[i], ip, t) || TenInWindow(systems[i], email, t)))
  {
    var Asking(keys, t) := systems[i].threads[th];
    hide *;
    ThrottledIff(systems, moves, i, th);
    FullMeansTen(systems, moves, i, Ip(keys.ip), t);
    FullMeansTen(systems, moves, i, Email(keys.email), t);
  }
}
