/** Guards made, moved, assigned and destroyed in any order. */
module LoginGuards {
  import opened LoginLimiters

  /** The keys an owning guard will release. */
  datatype Keys = Keys(ip: string, email: string)

  /** Owning guards, by object. */
  type Held = map<nat, Keys>

  ghost function Ips(held: Held): map<nat, string> {
    map h <- held :: held[h].ip
  }

  ghost function Emails(held: Held): map<nat, string> {
    map h <- held :: held[h].email
  }

  ghost predicate Injective(m: map<nat, string>) {
    forall h <- m, k <- m :: h != k ==> m[h] != m[k]
  }

  /** The set is the values of the map, which are all different. */
  ghost predicate Enumerates(m: map<nat, string>, s: set<string>) {
    && Injective(m)
    && (forall h <- m :: m[h] in s)
    && (forall v <- s :: exists h <- m :: m[h] == v)
  }

  /** The gate counts exactly the owning guards, which differ in IP and in email. */
  ghost predicate Counts(g: Gate, held: Held) {
    && Enumerates(Ips(held), g.inflightIp)
    && Enumerates(Emails(held), g.inflightEmail)
    && g.argon2Live == |held| <= MAX_ARGON2
  }

  lemma {:induction false} EnumeratedSize(m: map<nat, string>, s: set<string>)
    requires Enumerates(m, s)
    ensures |s| == |m|
    decreases |m|
  {
    if h :| h in m {
      assert m.Keys == (m - {h}).Keys + {h};
      EnumerateOneLess(m, s, h);
      EnumeratedSize(m - {h}, s - {m[h]});
    } else {
      assert s == {};
    }
  }

  lemma EnumerateOneMore(m: map<nat, string>, s: set<string>, h: nat, v: string)
    requires Enumerates(m, s) && h !in m && v !in s
    ensures Enumerates(m[h := v], s + {v})
  {
    var more := m[h := v];
    forall w <- s + {v} ensures exists k <- more :: more[k] == w {
      if w == v {
        assert more[h] == w;
      } else {
        var k :| k in m && m[k] == w;
        assert more[k] == w;
      }
    }
  }

  lemma EnumerateOneLess(m: map<nat, string>, s: set<string>, h: nat)
    requires Enumerates(m, s) && h in m
    ensures m[h] in s && Enumerates(m - {h}, s - {m[h]})
  {
    forall w <- s - {m[h]} ensures exists k <- m - {h} :: (m - {h})[k] == w {
      var k :| k in m && m[k] == w;
      assert k in m - {h} && (m - {h})[k] == w;
    }
  }

  lemma SameIds(held: Held)
    ensures Ips(held).Keys == held.Keys == Emails(held).Keys
    ensures |Ips(held)| == |held| == |Emails(held)|
  {
    assert |Ips(held)| == |Ips(held).Keys| && |Emails(held)| == |Emails(held).Keys| && |held| == |held.Keys|;
  }

  lemma KeysOneMore(held: Held, h: nat, keys: Keys)
    requires h !in held
    ensures Ips(held[h := keys]) == Ips(held)[h := keys.ip]
    ensures Emails(held[h := keys]) == Emails(held)[h := keys.email]
    ensures |held[h := keys]| == |held| + 1
  {
    KeysOneMoreSize(held, h, keys);
  }

  lemma KeysOneMoreSize(held: Held, h: nat, keys: Keys)
    requires h !in held
    ensures |held[h := keys]| == |held| + 1
  {
    assert held[h := keys].Keys == held.Keys + {h};
    assert |held[h := keys].Keys| == |held.Keys| + 1;
  }

  lemma KeysOneLess(held: Held, h: nat)
    requires h in held
    ensures Ips(held)[h] == held[h].ip && Emails(held)[h] == held[h].email
    ensures Ips(held - {h}) == Ips(held) - {h}
    ensures Emails(held - {h}) == Emails(held) - {h}
    ensures |held - {h}| == |held| - 1
  {
    assert held.Keys == (held - {h}).Keys + {h};
    assert |held.Keys| == |(held - {h}).Keys| + 1;
  }

  lemma CountOneMore(g: Gate, g': Gate, held: Held, h: nat, keys: Keys)
    requires Counts(g, held) && h !in held && keys.ip !in g.inflightIp && keys.email !in g.inflightEmail
    requires g'.inflightIp == g.inflightIp + {keys.ip} && g'.inflightEmail == g.inflightEmail + {keys.email}
    requires g'.argon2Live == g.argon2Live + 1 <= MAX_ARGON2
    ensures Counts(g', held[h := keys])
  {
    hide Enumerates, Ips, Emails;
    KeysOneMore(held, h, keys);
    assert h !in Ips(held) && h !in Emails(held) by { SameIds(held); }
    EnumerateOneMore(Ips(held), g.inflightIp, h, keys.ip);
    EnumerateOneMore(Emails(held), g.inflightEmail, h, keys.email);
  }

  lemma CountOneLess(g: Gate, g': Gate, held: Held, h: nat)
    requires Counts(g, held) && h in held
    requires g'.inflightIp == g.inflightIp - {held[h].ip} && g'.inflightEmail == g.inflightEmail - {held[h].email}
    requires g'.argon2Live == g.argon2Live - 1
    ensures g.argon2Live > 0 && held[h].ip in g.inflightIp && held[h].email in g.inflightEmail
    ensures Counts(g', held - {h})
  {
    hide Injective, Ips, Emails, Enumerates;
    SameIds(held);
    KeysOneLess(held, h);
    EnumerateOneLess(Ips(held), g.inflightIp, h);
    EnumerateOneLess(Emails(held), g.inflightEmail, h);
  }

  lemma BeginCounts(g: Gate, held: Held, h: nat, ip: string, email: string, t: int)
    requires Counts(g, held) && h !in held
    ensures var b := Begin(g, ip, email, t);
            Counts(b.gate, if b.admit.Admitted? then held[h := Keys(ip, email)] else held)
  {
    hide Pruned, RemainingSec, FailsOf, Recent, Enumerates;
    var b := Begin(g, ip, email, t);
    BeginAnswers(g, ip, email, t);
    if b.admit.Admitted? {
      CountOneMore(g, b.gate, held, h, Keys(ip, email));
    }
  }

  lemma ReleaseCounts(g: Gate, held: Held, h: nat)
    requires Counts(g, held) && h in held
    ensures g.argon2Live > 0 && held[h].ip in g.inflightIp && held[h].email in g.inflightEmail
    ensures Counts(Released(g, held[h].ip, held[h].email), held - {h})
  {
    hide Enumerates, Ips, Emails;
    KeysOneLess(held, h);
    CountOneLess(g, Released(g, held[h].ip, held[h].email), held, h);
  }

  /** The slot of src is now owned by dst. */
  function Handed(held: Held, src: nat, dst: nat): Held
    requires src in held
  {
    (held - {src})[dst := held[src]]
  }

  lemma HandOverCounts(g: Gate, held: Held, src: nat, dst: nat)
    requires Counts(g, held) && src in held && dst !in held
    ensures Counts(g, Handed(held, src, dst))
  {
    hide Enumerates;
    var keys := held[src];
    ReleaseCounts(g, held, src);
    var between := Released(g, keys.ip, keys.email);
    CountOneMore(between, g, held - {src}, dst, keys);
  }

  // ----- runs -----

  /** The guard objects alive, and which of them own a slot. */
  datatype World = World(gate: Gate, guards: set<nat>, held: Held)

  datatype Action =
    | TryBegin(guard: nat, ip: string, email: string, t: int)
    | MoveConstruct(guard: nat, from: nat)
    | MoveAssign(guard: nat, from: nat)
    | Destroy(guard: nat)
    | RecordFailure(ip: string, email: string, t: int)
    | RecordSuccess(email: string)

  predicate Enabled(w: World, a: Action) {
    match a
    case TryBegin(guard, _, _, _) => guard !in w.guards
    case MoveConstruct(guard, from) => guard !in w.guards && from in w.guards
    case MoveAssign(guard, from) => guard in w.guards && from in w.guards
    case Destroy(guard) => guard in w.guards
    case RecordFailure(_, _, _) => true
    case RecordSuccess(_) => true
  }

  /** What a guard that owns a slot does before it takes another or dies. */
  function AfterReset(w: World, h: nat): World {
    if h in w.held then w.(gate := Released(w.gate, w.held[h].ip, w.held[h].email), held := w.held - {h}) else w
  }

  function Taken(w: World, guard: nat, from: nat): World {
    if from in w.held then w.(held := Handed(w.held, from, guard)) else w
  }

  function Step(w: World, a: Action): World
    requires Enabled(w, a)
  {
    match a
    case TryBegin(guard, ip, email, t) =>
      var b := Begin(w.gate, ip, email, t);
      World(b.gate, w.guards + {guard}, if b.admit.Admitted? then w.held[guard := Keys(ip, email)] else w.held)
    case MoveConstruct(guard, from) => Taken(w, guard, from).(guards := w.guards + {guard})
    case MoveAssign(guard, from) => if guard == from then w else Taken(AfterReset(w, guard), guard, from)
    case Destroy(guard) => AfterReset(w, guard).(guards := w.guards - {guard})
    case RecordFailure(ip, email, t) => w.(gate := Failed(w.gate, ip, email, t))
    case RecordSuccess(email) => w.(gate := Succeeded(w.gate, email))
  }

  ghost predicate Inv(w: World) {
    w.held.Keys <= w.guards && Counts(w.gate, w.held)
  }

  lemma StepKeepsInv(w: World, a: Action)
    requires Inv(w) && Enabled(w, a)
    ensures Inv(Step(w, a))
  {
    hide Begin, Released, Counts, Pruned, FailsOf;
    match a
    case TryBegin(guard, ip, email, t) => BeginCounts(w.gate, w.held, guard, ip, email, t);
    case MoveConstruct(guard, from) =>
      if from in w.held {
        HandOverCounts(w.gate, w.held, from, guard);
      }
    case MoveAssign(guard, from) =>
      if guard != from {
        if guard in w.held {
          ReleaseCounts(w.gate, w.held, guard);
        }
        var after := AfterReset(w, guard);
        if from in after.held {
          HandOverCounts(after.gate, after.held, from, guard);
        }
      }
    case Destroy(guard) =>
      if guard in w.held {
        ReleaseCounts(w.gate, w.held, guard);
      }
    case RecordFailure(ip, email, t) => SameCounts(w.gate, Failed(w.gate, ip, email, t), w.held);
    case RecordSuccess(email) => SameCounts(w.gate, Succeeded(w.gate, email), w.held);
  }

  lemma SameCounts(g: Gate, after: Gate, held: Held)
    requires Counts(g, held) && after == g.(failsByIp := after.failsByIp, failsByEmail := after.failsByEmail)
    ensures Counts(after, held)
  {
  }

  ghost predicate IsRun(worlds: seq<World>, actions: seq<Action>) {
    && |worlds| == |actions| + 1
    && worlds[0] == World(Gate({}, {}, 0, map[], map[]), {}, map[])
    && forall i: nat :: i < |actions| ==> Enabled(worlds[i], actions[i]) && worlds[i + 1] == Step(worlds[i], actions[i])
  }

  lemma {:induction false} RunKeepsInv(worlds: seq<World>, actions: seq<Action>, i: nat)
    requires IsRun(worlds, actions) && i < |worlds|
    ensures Inv(worlds[i])
  {
    hide Step;
    if i > 0 {
      RunKeepsInv(worlds, actions, i - 1);
      StepKeepsInv(worlds[i - 1], actions[i - 1]);
    }
  }

  /** In every run the slot count is the number of owning guards, of busy IPs and of busy emails, and at most two. */
  lemma SlotsAreGuards(worlds: seq<World>, actions: seq<Action>, i: nat)
    requires IsRun(worlds, actions) && i < |worlds|
    ensures var w := worlds[i];
            && w.gate.argon2Live == |w.held| == |w.gate.inflightIp| == |w.gate.inflightEmail| <= 2
            && w.held.Keys <= w.guards && Injective(Ips(w.held)) && Injective(Emails(w.held))
  {
    hide Step, Injective;
    RunKeepsInv(worlds, actions, i);
    var held := worlds[i].held;
    SameIds(held);
    EnumeratedSize(Ips(worlds[i].held), worlds[i].gate.inflightIp);
    EnumeratedSize(Emails(worlds[i].held), worlds[i].gate.inflightEmail);
  }

  /** A release, by destruction or by assignment, always finds its own keys and a slot to give back. */
  lemma ReleaseFindsItsSlot(worlds: seq<World>, actions: seq<Action>, i: nat, h: nat)
    requires IsRun(worlds, actions) && i < |worlds| && h in worlds[i].held
    ensures var w := worlds[i];
            w.gate.argon2Live > 0 && w.held[h].ip in w.gate.inflightIp && w.held[h].email in w.gate.inflightEmail
  {
    hide Step;
    RunKeepsInv(worlds, actions, i);
    ReleaseCounts(worlds[i].gate, worlds[i].held, h);
  }
}
