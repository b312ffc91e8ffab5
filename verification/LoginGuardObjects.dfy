/** Guard objects on the heap, and the runs they make. */
module LoginGuardObjects {
  import opened LoginLimiters
  import opened LoginGuards

  /** One limiter and the guards of its callers, by number. */
  class GuardTable {
    const limiter: LoginLimiter
    var guards: map<nat, Guard>

    ghost predicate Valid()
      reads this, guards.Values
    {
      && (forall h <- guards :: guards[h].owner == null || guards[h].owner == limiter)
      && (forall h <- guards, k <- guards :: h != k ==> guards[h] != guards[k])
    }

    ghost function HeldNow(): Held
      reads this, guards.Values
    {
      map h | h in guards && guards[h].owner == limiter :: Keys(guards[h].ip, guards[h].email)
    }

    /** The world of LoginGuards that the objects stand for. */
    ghost function Abstract(): World
      reads this, limiter, guards.Values
    {
      World(limiter.State(), guards.Keys, HeldNow())
    }

    constructor (normalizeEmail: string -> string)
      ensures Valid() && fresh(limiter) && limiter.normalizeEmail == normalizeEmail
      ensures Abstract() == World(Gate({}, {}, 0, map[], map[]), {}, map[])
    {
      limiter := new LoginLimiter(normalizeEmail);
      guards := map[];
    }

    method TryBegin(h: nat, ip: string, email: string, t: int)
      requires Valid() && h !in guards
      modifies this, limiter
      ensures Valid() && Abstract() == Step(old(Abstract()), Action.TryBegin(h, ip, limiter.normalizeEmail(email), t))
    {
      hide Begin, Step, Enabled;
      ghost var before, was := Abstract(), HeldNow();
      var admit, guard, retryAfterSec := limiter.TryBegin(ip, email, t);
      guards := guards[h := guard];
      assert HeldNow() == if admit.Admitted? then was[h := Keys(ip, limiter.normalizeEmail(email))] else was;
      TryBeginStep(before, h, ip, limiter.normalizeEmail(email), t);
    }

    method MoveConstruct(h: nat, src: nat)
      requires Valid() && h !in guards && src in guards
      modifies this, guards[src]
      ensures Valid() && Abstract() == Step(old(Abstract()), Action.MoveConstruct(h, src))
    {
      hide Step, Enabled, Handed, Taken;
      ghost var before, was := Abstract(), HeldNow();
      var guard := new Guard.Moved(guards[src]);
      guards := guards[h := guard];
      assert HeldNow() == HeldAfterMove(was, h, src) by { HeldAfterMoveIs(was, HeldNow(), h, src); }
      MoveConstructStep(before, h, src);
    }

    method MoveAssign(h: nat, src: nat)
      requires Valid() && h in guards && src in guards
      modifies limiter, guards[h], guards[src]
      ensures Valid() && Abstract() == Step(old(Abstract()), Action.MoveAssign(h, src))
    {
      hide Released, Step, Enabled, Handed, Taken, AfterReset;
      ghost var before, was := Abstract(), HeldNow();
      guards[h].MoveAssign(guards[src]);
      ghost var now := HeldNow();
      if h != src {
        assert forall k: nat :: k in now <==> (k == h && src in was) || (k in was && k != h && k != src);
        assert now == HeldAfterMove(was, h, src) by { HeldAfterMoveIs(was, now, h, src); }
      } else {
        assert now == was;
      }
      MoveAssignStep(before, h, src);
    }

    method Destroy(h: nat)
      requires Valid() && h in guards
      modifies this, limiter, guards[h]
      ensures Valid() && Abstract() == Step(old(Abstract()), Action.Destroy(h))
    {
      hide Released;
      ghost var was := HeldNow();
      guards[h].Reset();
      guards := guards - {h};
      assert HeldNow() == was - {h};
    }

    method RecordFailure(ip: string, email: string, t: int)
      requires Valid()
      modifies limiter
      ensures Valid()
      ensures Abstract() == Step(old(Abstract()), Action.RecordFailure(ip, limiter.normalizeEmail(email), t))
    {
      hide Failed;
      ghost var was := HeldNow();
      limiter.RecordFailure(ip, email, t);
      assert HeldNow() == was;
    }

    method RecordSuccess(email: string)
      requires Valid()
      modifies limiter
      ensures Valid() && Abstract() == Step(old(Abstract()), Action.RecordSuccess(limiter.normalizeEmail(email)))
    {
      hide Succeeded;
      ghost var was := HeldNow();
      limiter.RecordSuccess(email);
      assert HeldNow() == was;
    }
  }

  lemma TryBeginStep(w: World, h: nat, ip: string, email: string, t: int)
    requires h !in w.guards
    ensures var b := Begin(w.gate, ip, email, t);
            Enabled(w, Action.TryBegin(h, ip, email, t))
            && Step(w, Action.TryBegin(h, ip, email, t)) ==
               World(b.gate, w.guards + {h}, if b.admit.Admitted? then w.held[h := Keys(ip, email)] else w.held)
  {
    hide Begin;
  }

  /** What the guards own after h, another object than src, was assigned the slot of src, if any. */
  function HeldAfterMove(held: Held, h: nat, src: nat): Held
    requires h != src
  {
    if src in held then Handed(held - {h}, src, h) else held - {h}
  }

  lemma HeldAfterMoveIs(was: Held, now: Held, h: nat, src: nat)
    requires h != src
    requires forall k: nat :: k in now <==> (k == h && src in was) || (k in was && k != h && k != src)
    requires src in was ==> now[h] == was[src]
    requires forall k <- was :: k != h && k != src ==> now[k] == was[k]
    ensures now == HeldAfterMove(was, h, src)
  {
  }

  lemma MoveConstructStep(w: World, h: nat, src: nat)
    requires h !in w.guards && src in w.guards && w.held.Keys <= w.guards
    ensures Enabled(w, Action.MoveConstruct(h, src))
    ensures Step(w, Action.MoveConstruct(h, src)) == World(w.gate, w.guards + {h}, HeldAfterMove(w.held, h, src))
  {
    assert w.held - {h} == w.held;
  }

  lemma MoveAssignStep(w: World, h: nat, src: nat)
    requires h in w.guards && src in w.guards
    ensures Enabled(w, Action.MoveAssign(h, src))
    ensures Step(w, Action.MoveAssign(h, src)) ==
            if h == src then w
            else World(if h in w.held then Released(w.gate, w.held[h].ip, w.held[h].email) else w.gate, w.guards,
                       HeldAfterMove(w.held, h, src))
  {
    hide Released;
    if h !in w.held {
      assert w.held - {h} == w.held;
    }
  }
}
