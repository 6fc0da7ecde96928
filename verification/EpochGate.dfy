/** The input epoch gate, from the worker's registry to the sidecar's reconciliation. Input is
    stamped with the epoch of the representation that captured it and is delivered only if that
    epoch is still the current one. */
module EpochGate {
  import opened RegistryModel
  import opened RegistryInvariant
  import opened InputQueue

  // ---- the worker's end: when does a stamped event still pass? ----

  /** A transition erases the entry of `x` or establishes a new representation for it. */
  predicate Disturbs(s: Registry, op: Op, x: nat) {
    match op
    case Bind(y, _) => y == x && x != 0
    case Unbind(y, surface) =>
      y == x && x != 0 && x in s.entries && s.entries[x].surface == surface && !s.entries[x].registered
    case Register(y, g, _, _, _, popup, owner, _) =>
      y == x && RegisterAdmitted(s, x, g, popup, owner) &&
      (|| x !in s.entries
       || s.entries[x].representation == Unrepresented
       || (s.entries[x].representation == Surface && !s.entries[x].registered && s.entries[x].generation > 0))
    case Unregister(y, g) =>
      Newer(s, y, g) &&
      (|| (x == y && s.entries[x].representation != Surface)
       || (x in s.entries && s.entries[x].isPopup && s.entries[x].ownerXid == y))
    case _ => false
  }

  /** The epoch `epoch` of `x` is over and cannot come back. */
  ghost predicate Over(s: Registry, x: nat, epoch: nat) {
    epoch <= s.nextEpoch && (x in s.entries ==> s.entries[x].epoch > epoch)
  }

  /** A transition ends an epoch for good exactly when it disturbs its toplevel. */
  lemma DisturbanceEndsEpoch(s: Registry, op: Op, x: nat)
    requires Inv(s) && NonzeroHandles(op) && x in s.entries
    ensures if Disturbs(s, op, x) then Over(Next(s, op), x, s.entries[x].epoch)
            else x in Next(s, op).entries && Next(s, op).entries[x].epoch == s.entries[x].epoch
  {
    assert EntryOk(s, x);
    match op
    case Bind(y, surface) => BindEndsEpoch(s, y, surface, x);
    case Unbind(y, surface) => UnbindEndsEpoch(s, y, surface, x);
    case Register(_, _, _, _, _, _, _, _) => RegisterEndsEpoch(s, op, x);
    case Unregister(y, g) => UnregisterEndsEpoch(s, y, g, x);
    case Update(_, _, _, _, _) => AnnotationsKeepEpochs(s, op, x);
    case Show(_, _, _) => AnnotationsKeepEpochs(s, op, x);
    case Paint(_, _, _) => AnnotationsKeepEpochs(s, op, x);
  }

  lemma BindEndsEpoch(s: Registry, y: nat, surface: nat, x: nat)
    requires x in s.entries && EntryOk(s, x)
    ensures if Disturbs(s, Bind(y, surface), x) then Over(Next(s, Bind(y, surface)), x, s.entries[x].epoch)
            else x in Next(s, Bind(y, surface)).entries && Next(s, Bind(y, surface)).entries[x] == s.entries[x]
  {
  }

  lemma UnbindEndsEpoch(s: Registry, y: nat, surface: nat, x: nat)
    requires x in s.entries && EntryOk(s, x)
    ensures if Disturbs(s, Unbind(y, surface), x) then Over(Next(s, Unbind(y, surface)), x, s.entries[x].epoch)
            else x in Next(s, Unbind(y, surface)).entries &&
                 Next(s, Unbind(y, surface)).entries[x].epoch == s.entries[x].epoch
  {
  }

  lemma RegisterEndsEpoch(s: Registry, op: Op, x: nat)
    requires op.Register? && x in s.entries && EntryOk(s, x)
    ensures if Disturbs(s, op, x) then Over(Next(s, op), x, s.entries[x].epoch)
            else x in Next(s, op).entries && Next(s, op).entries[x].epoch == s.entries[x].epoch
  {
  }

  lemma UnregisterEndsEpoch(s: Registry, y: nat, g: nat, x: nat)
    requires Inv(s) && x in s.entries
    ensures if Disturbs(s, Unregister(y, g), x) then x !in Next(s, Unregister(y, g)).entries
            else x in Next(s, Unregister(y, g)).entries &&
                 Next(s, Unregister(y, g)).entries[x].epoch == s.entries[x].epoch
  {
    if Newer(s, y, g) {
      assert EntryOk(s, y);
      var s1 := UnregisterToplevel(s, y, g).0;
      assert Next(s, Unregister(y, g)).entries == s1.entries - Orphans(s1.entries, y);
    }
  }

  lemma OverStays(s: Registry, op: Op, x: nat, epoch: nat)
    requires Inv(s) && NonzeroHandles(op) && Over(s, x, epoch)
    ensures Over(Next(s, op), x, epoch)
  {
    StepKeepsInv(s, op);
    EpochsOnlyAdvance(s, op, x);
  }

  /** An epoch in force after a transition is the one before, or newer than any minted before. */
  lemma EpochsOnlyAdvance(s: Registry, op: Op, x: nat)
    ensures x in Next(s, op).entries ==>
              || Next(s, op).entries[x].epoch > s.nextEpoch
              || (x in s.entries && Next(s, op).entries[x].epoch == s.entries[x].epoch)
  {
  }

  ghost predicate Undisturbed(s: Registry, ops: seq<Op>, x: nat) {
    forall k | 0 <= k < |ops| :: !Disturbs(Run(s, ops[..k]), ops[k], x)
  }

  lemma UndisturbedOneMore(s: Registry, ops: seq<Op>, op: Op, x: nat)
    ensures Undisturbed(s, ops + [op], x) <==> Undisturbed(s, ops, x) && !Disturbs(Run(s, ops), op, x)
  {
    var more := ops + [op];
    assert forall k | 0 <= k < |ops| :: ops[..k] == more[..k] && ops[k] == more[k];
    assert more[..|ops|] == ops && more[|ops|] == op;
    if !Undisturbed(s, ops, x) {
      var k :| 0 <= k < |ops| && Disturbs(Run(s, ops[..k]), ops[k], x);
      assert Disturbs(Run(s, more[..k]), more[k], x);
    }
    if Disturbs(Run(s, ops), op, x) {
      assert Disturbs(Run(s, more[..|ops|]), more[|ops|], x);
    }
  }

  /** The exact-epoch gate is exact: an event stamped now passes after a run if and only if nothing
      in between erased the toplevel's entry or established a new representation of it. */
  lemma {:induction false} GatePassesExactlyUndisturbed(s: Registry, ops: seq<Op>, x: nat)
    requires Inv(s) && AllNonzero(ops) && x in s.entries
    ensures Undisturbed(s, ops, x) <==> EpochFor(Run(s, ops), x) == EpochFor(s, x)
    ensures !Undisturbed(s, ops, x) ==> Over(Run(s, ops), x, EpochFor(s, x))
    ensures Undisturbed(s, ops, x) ==> x in Run(s, ops).entries
  {
    assert EntryOk(s, x);
    if ops != [] {
      var front, op := ops[..|ops| - 1], ops[|ops| - 1];
      assert op in ops && ops == front + [op];
      GatePassesExactlyUndisturbed(s, front, x);
      RunKeepsInv(s, front);
      UndisturbedOneMore(s, front, op, x);
      var t := Run(s, front);
      if Undisturbed(s, front, x) {
        DisturbanceEndsEpoch(t, op, x);
      } else {
        OverStays(t, op, x, EpochFor(s, x));
      }
    }
  }

  /** An epoch minted before that is not the current one does not become current again. */
  lemma {:induction false} EpochNeverReturns(s: Registry, ops: seq<Op>, x: nat, epoch: nat)
    requires Inv(s) && AllNonzero(ops) && 0 < epoch <= s.nextEpoch && EpochFor(s, x) != epoch
    ensures EpochFor(Run(s, ops), x) != epoch
  {
    if ops != [] {
      var front, op := ops[..|ops| - 1], ops[|ops| - 1];
      assert op in ops;
      EpochNeverReturns(s, front, x, epoch);
      RunKeepsInv(s, front);
      EpochsOnlyAdvance(Run(s, front), op, x);
    }
  }

  /** Destroying the surface of a toplevel ends its epoch exactly when the toplevel is not registered. */
  lemma DestroyedSurfaceKeepsEpochExactly(s: Registry, x: nat)
    requires Inv(s) && x in s.entries && s.entries[x].surface != 0
    ensures EpochFor(Next(s, Unbind(x, s.entries[x].surface)), x) == EpochFor(s, x) <==> RegisteredFor(s, x)
  {
    assert EntryOk(s, x);
    DisturbanceEndsEpoch(s, Unbind(x, s.entries[x].surface), x);
  }

  /** Moves, resizes, restacks, hides and shows never cost input: they change no epoch at all. */
  lemma AnnotationsKeepEpochs(s: Registry, op: Op, x: nat)
    requires op.Update? || op.Show? || op.Paint?
    ensures EpochFor(Next(s, op), x) == EpochFor(s, x) && (x in Next(s, op).entries <==> x in s.entries)
    ensures Next(s, op).nextEpoch == s.nextEpoch
  {
  }

  // ---- the sidecar's end ----

  datatype Decision = Accept | AdoptThenAccept | DropStale

  /** How the sidecar classifies an event against the epoch it tracks. */
  function Reconcile(tracked: nat, eventEpoch: nat): Decision {
    if eventEpoch > tracked then AdoptThenAccept
    else if eventEpoch < tracked then DropStale
    else Accept
  }

  /** The worker's registry, the epochs the sidecar tracks, and the polled events it has yet to
      consume. */
  datatype Link = Link(registry: Registry, tracked: map<nat, nat>, batch: seq<Event>)

  datatype Action =
    | Transition(op: Op)
    | Respond(xid: nat)              // a worker response refreshes the tracked epoch
    | Forget(xid: nat)               // the sidecar stops tracking the toplevel
    | Poll(drained: seq<Event>)      // the worker gates what it drained; the sidecar receives the rest
    | Consume                        // the sidecar reconciles the next event

  const UNLINKED := Link(EMPTY_REGISTRY, map[], [])

  function Gated(s: Registry, drained: seq<Event>): seq<Event> {
    if drained == [] then []
    else if EpochFor(s, drained[0].xid) == drained[0].epoch
    then [drained[0]] + Gated(s, drained[1..])
    else Gated(s, drained[1..])
  }

  /** A run that keeps it: register, bind, unbind. Input captured by the destroyed surface still passes. */
  lemma DestroyedSurfaceInputPasses(x: nat, surface: nat, geometry: Geometry, ev: Event)
    requires x != 0 && surface != 0 && ev.xid == x
    ensures var register := Register(x, 1, "", "", geometry, false, 0, 0);
            var bound := Run(EMPTY_REGISTRY, [register, Bind(x, surface)]);
            var unbound := Run(EMPTY_REGISTRY, [register, Bind(x, surface), Unbind(x, surface)]);
            && SurfaceFor(bound, x) == surface && SurfaceFor(unbound, x) == 0
            && EpochFor(unbound, x) == EpochFor(bound, x) > 0
            && (ev.epoch == EpochFor(bound, x) ==> Gated(unbound, [ev]) == [ev])
  {
    var register, bind := Register(x, 1, "", "", geometry, false, 0, 0), Bind(x, surface);
    var unbind := Unbind(x, surface);
    assert [register, bind] == [] + [register] + [bind];
    assert [register, bind, unbind] == [register, bind] + [unbind];
    RunOneMore(EMPTY_REGISTRY, [], register);
    RunOneMore(EMPTY_REGISTRY, [] + [register], bind);
    RunOneMore(EMPTY_REGISTRY, [register, bind], unbind);
    var first := Next(EMPTY_REGISTRY, register);
    RegisterKeepsInv(EMPTY_REGISTRY, register);
    StepKeepsInv(first, bind);
    var bound := Next(first, bind);
    assert bound.entries[x].surface == surface && bound.entries[x].registered && EntryOk(bound, x);
    DestroyedSurfaceKeepsEpochExactly(bound, x);
    assert [ev][1..] == [];
  }

  function Act(l: Link, a: Action): Link {
    match a
    case Transition(op) => l.(registry := Next(l.registry, op))
    case Respond(x) => l.(tracked := l.tracked[x := EpochFor(l.registry, x)])
    case Forget(x) => l.(tracked := l.tracked - {x})
    case Poll(drained) => if l.batch == [] then l.(batch := Gated(l.registry, drained)) else l
    case Consume =>
      if l.batch == [] then l
      else
        var ev := l.batch[0];
        var rest := l.(batch := l.batch[1..]);
        if ev.xid in l.tracked && Reconcile(l.tracked[ev.xid], ev.epoch) == AdoptThenAccept
        then rest.(tracked := l.tracked[ev.xid := ev.epoch])
        else rest
  }

  function Execute(l: Link, actions: seq<Action>): Link {
    if actions == [] then l
    else Act(Execute(l, actions[..|actions| - 1]), actions[|actions| - 1])
  }

  /** The next event to be consumed would be dropped as stale. */
  predicate DropsNext(l: Link) {
    l.batch != [] && l.batch[0].xid in l.tracked &&
    Reconcile(l.tracked[l.batch[0].xid], l.batch[0].epoch) == DropStale
  }

  /** Transitions use minted handles; drained events carry minted epochs. */
  predicate Realistic(a: Action) {
    && (a.Transition? ==> NonzeroHandles(a.op))
    && (a.Poll? ==> forall ev | ev in a.drained :: ev.epoch > 0)
  }

  predicate NotAhead(s: Registry, x: nat, epoch: nat) {
    epoch <= s.nextEpoch && (x in s.entries ==> epoch <= s.entries[x].epoch)
  }

  ghost predicate LinkOk(l: Link) {
    && Inv(l.registry)
    && (forall x | x in l.tracked :: NotAhead(l.registry, x, l.tracked[x]))
    && (forall ev | ev in l.batch :: ev.epoch > 0 && NotAhead(l.registry, ev.xid, ev.epoch))
  }

  lemma TransitionKeepsNotAhead(s: Registry, op: Op, x: nat, epoch: nat)
    requires Inv(s) && NonzeroHandles(op) && NotAhead(s, x, epoch)
    ensures NotAhead(Next(s, op), x, epoch)
  {
    StepKeepsInv(s, op);
    EpochsOnlyAdvance(s, op, x);
  }

  lemma {:induction false} GatedOk(s: Registry, drained: seq<Event>)
    ensures forall ev | ev in Gated(s, drained) :: ev in drained && EpochFor(s, ev.xid) == ev.epoch
  {
    if drained != [] {
      GatedOk(s, drained[1..]);
    }
  }

  lemma ActKeepsLink(l: Link, a: Action)
    requires LinkOk(l) && Realistic(a)
    ensures LinkOk(Act(l, a))
  {
    match a
    case Transition(op) =>
      StepKeepsInv(l.registry, op);
      forall x | x in l.tracked
        ensures NotAhead(Next(l.registry, op), x, l.tracked[x])
      {
        TransitionKeepsNotAhead(l.registry, op, x, l.tracked[x]);
      }
      forall ev | ev in l.batch
        ensures NotAhead(Next(l.registry, op), ev.xid, ev.epoch)
      {
        TransitionKeepsNotAhead(l.registry, op, ev.xid, ev.epoch);
      }
    case Respond(x) =>
      assert x in l.registry.entries ==> EntryOk(l.registry, x);
    case Poll(drained) =>
      GatedOk(l.registry, drained);
      forall ev | ev in Gated(l.registry, drained)
        ensures ev.epoch > 0 && NotAhead(l.registry, ev.xid, ev.epoch)
      {
        assert EntryOk(l.registry, ev.xid);
      }
    case _ =>
  }

  lemma {:induction false} ExecuteKeepsLink(actions: seq<Action>)
    requires forall a | a in actions :: Realistic(a)
    ensures LinkOk(Execute(UNLINKED, actions))
  {
    if actions != [] {
      var front, a := actions[..|actions| - 1], actions[|actions| - 1];
      assert a in actions;
      ExecuteKeepsLink(front);
      ActKeepsLink(Execute(UNLINKED, front), a);
    }
  }

  /** Reconciliation is sound: an event the sidecar drops as stale is stale, its representation
      being no longer the current one. */
  lemma OnlyStaleInputIsDropped(actions: seq<Action>)
    requires forall a | a in actions :: Realistic(a)
    requires DropsNext(Execute(UNLINKED, actions))
    ensures var l := Execute(UNLINKED, actions);
            EpochFor(l.registry, l.batch[0].xid) != l.batch[0].epoch
  {
    ExecuteKeepsLink(actions);
    assert Execute(UNLINKED, actions).batch[0] in Execute(UNLINKED, actions).batch;
  }

  // ---- exactly when a polled event is dropped ----

  /** The transitions among the actions. */
  function Ops(actions: seq<Action>): seq<Op> {
    if actions == [] then []
    else
      var front, a := Ops(actions[..|actions| - 1]), actions[|actions| - 1];
      if a.Transition? then front + [a.op] else front
  }

  lemma RegistryStep(l: Link, a: Action)
    ensures Act(l, a).registry == if a.Transition? then Next(l.registry, a.op) else l.registry
  {
  }

  lemma {:induction false} RegistryRuns(l: Link, actions: seq<Action>)
    ensures Execute(l, actions).registry == Run(l.registry, Ops(actions))
  {
    if actions != [] {
      var front, a := actions[..|actions| - 1], actions[|actions| - 1];
      RegistryRuns(l, front);
      RegistryStep(Execute(l, front), a);
      if a.Transition? {
        RunOneMore(l.registry, Ops(front), a.op);
      }
    }
  }

  lemma {:induction false} OpsAreNonzero(actions: seq<Action>)
    requires forall a | a in actions :: Realistic(a)
    ensures AllNonzero(Ops(actions))
  {
    if actions != [] {
      assert actions[|actions| - 1] in actions;
      OpsAreNonzero(actions[..|actions| - 1]);
    }
  }

  /** The worker's answer about `x` is refreshed, or the sidecar forgets it. */
  predicate Settles(a: Action, x: nat) {
    a == Respond(x) || a == Forget(x)
  }

  /** The last thing to settle what the sidecar tracks for `x` is the answer at `k`, which the worker
      gave when it had an entry for `x`, but not the representation of the poll any more. */
  ghost predicate OvertakenAt(l: Link, since: seq<Action>, x: nat, k: nat) {
    && k < |since| && since[k] == Respond(x) && (forall j | k < j < |since| :: !Settles(since[j], x))
    && x in Run(l.registry, Ops(since[..k])).entries && !Undisturbed(l.registry, Ops(since[..k]), x)
  }

  ghost predicate Overtaken(l: Link, since: seq<Action>, x: nat) {
    exists k :: OvertakenAt(l, since, x, k)
  }

  lemma OvertakenAtOneMore(l: Link, since: seq<Action>, a: Action, x: nat, k: nat)
    ensures k < |since| ==> (OvertakenAt(l, since + [a], x, k) <==> OvertakenAt(l, since, x, k) && !Settles(a, x))
    ensures k == |since| ==>
              (OvertakenAt(l, since + [a], x, k) <==>
               a == Respond(x) && x in Run(l.registry, Ops(since)).entries && !Undisturbed(l.registry, Ops(since), x))
  {
    var more, n := since + [a], |since|;
    assert more[n] == a && more[..n] == since;
    assert forall j | 0 <= j < n :: more[j] == since[j];
    if k < n {
      assert more[..k] == since[..k];
    }
  }

  lemma OvertakenOneMore(l: Link, since: seq<Action>, a: Action, x: nat)
    ensures Overtaken(l, since + [a], x) <==>
            if Settles(a, x)
            then a.Respond? && x in Run(l.registry, Ops(since)).entries && !Undisturbed(l.registry, Ops(since), x)
            else Overtaken(l, since, x)
  {
    OvertakenAtOneMore(l, since, a, x, |since|);
    if Overtaken(l, since + [a], x) {
      var k :| OvertakenAt(l, since + [a], x, k);
      OvertakenAtOneMore(l, since, a, x, k);
    }
    if Overtaken(l, since, x) {
      var k :| OvertakenAt(l, since, x, k);
      OvertakenAtOneMore(l, since, a, x, k);
    }
  }

  /** An answer carries a newer epoch exactly when the representation has been replaced since. */
  lemma AnswerIsNewer(l: Link, since: seq<Action>, x: nat)
    requires LinkOk(l) && (forall a | a in since :: Realistic(a)) && x in l.registry.entries
    ensures EpochFor(Execute(l, since).registry, x) > EpochFor(l.registry, x) <==>
            x in Run(l.registry, Ops(since)).entries && !Undisturbed(l.registry, Ops(since), x)
  {
    RegistryRuns(l, since);
    OpsAreNonzero(since);
    GatePassesExactlyUndisturbed(l.registry, Ops(since), x);
    assert EntryOk(l.registry, x);
  }

  /** The events of one poll, each with the epoch of its toplevel at the poll. */
  ghost predicate Polled(l: Link) {
    forall ev | ev in l.batch :: ev.epoch > 0 && ev.epoch == EpochFor(l.registry, ev.xid)
  }

  lemma PollIsPolled(l: Link, drained: seq<Event>)
    requires LinkOk(l) && l.batch == [] && Realistic(Poll(drained))
    ensures Polled(Act(l, Poll(drained)))
  {
    GatedOk(l.registry, drained);
  }

  lemma {:induction false} BatchShrinks(l: Link, since: seq<Action>)
    requires forall a | a in since :: !a.Poll?
    ensures forall ev | ev in Execute(l, since).batch :: ev in l.batch
  {
    if since != [] {
      assert since[|since| - 1] in since;
      BatchShrinks(l, since[..|since| - 1]);
    }
  }

  /** Only an answer about a polled toplevel moves what is tracked for it past the poll. */
  lemma StepTracksAhead(m: Link, a: Action, x: nat, epoch: nat)
    requires !a.Poll? && forall ev | ev in m.batch && ev.xid == x :: ev.epoch == epoch
    ensures var after := Act(m, a);
            x in after.tracked && after.tracked[x] > epoch <==>
            if Settles(a, x) then a.Respond? && EpochFor(m.registry, x) > epoch
            else x in m.tracked && m.tracked[x] > epoch
  {
    assert m.batch != [] ==> m.batch[0] in m.batch;
  }

  /** What the sidecar tracks for a polled toplevel is ahead of the poll exactly when it was overtaken. */
  lemma {:induction false} TrackedIsAheadExactlyWhenOvertaken(l: Link, since: seq<Action>, x: nat)
    requires LinkOk(l) && Polled(l) && x in l.registry.entries
    requires forall a | a in since :: Realistic(a) && !a.Poll?
    ensures var m := Execute(l, since);
            x in m.tracked && m.tracked[x] > EpochFor(l.registry, x) <==> Overtaken(l, since, x)
  {
    if since == [] {
      assert x in l.tracked ==> NotAhead(l.registry, x, l.tracked[x]);
    } else {
      var front, a := since[..|since| - 1], since[|since| - 1];
      assert since == front + [a] && a in since;
      TrackedIsAheadExactlyWhenOvertaken(l, front, x);
      OvertakenOneMore(l, front, a, x);
      AnswerIsNewer(l, front, x);
      BatchShrinks(l, front);
      StepTracksAhead(Execute(l, front), a, x, EpochFor(l.registry, x));
    }
  }

  lemma DropsExactlyWhenOvertaken(l: Link, since: seq<Action>)
    requires LinkOk(l) && Polled(l) && (forall a | a in since :: Realistic(a) && !a.Poll?)
    requires Execute(l, since).batch != []
    ensures DropsNext(Execute(l, since)) <==> Overtaken(l, since, Execute(l, since).batch[0].xid)
  {
    BatchShrinks(l, since);
    var ev := Execute(l, since).batch[0];
    assert ev in Execute(l, since).batch;
    TrackedIsAheadExactlyWhenOvertaken(l, since, ev.xid);
  }

  /** Exactly when a gate-passed event is dropped as stale: after the poll, with anything but another
      poll in between, if and only if the worker's last answer about its toplevel was given after the
      representation that captured the event had been replaced. */
  lemma DroppedExactlyWhenOvertaken(earlier: seq<Action>, drained: seq<Event>, since: seq<Action>)
    requires forall a | a in earlier :: Realistic(a)
    requires Realistic(Poll(drained)) && Execute(UNLINKED, earlier).batch == []
    requires forall a | a in since :: Realistic(a) && !a.Poll?
    ensures var l := Act(Execute(UNLINKED, earlier), Poll(drained));
            var m := Execute(l, since);
            m.batch != [] ==> (DropsNext(m) <==> Overtaken(l, since, m.batch[0].xid))
  {
    var before := Execute(UNLINKED, earlier);
    ExecuteKeepsLink(earlier);
    ActKeepsLink(before, Poll(drained));
    PollIsPolled(before, drained);
    if Execute(Act(before, Poll(drained)), since).batch != [] {
      DropsExactlyWhenOvertaken(Act(before, Poll(drained)), since);
    }
  }

  /** While the sidecar works through a poll without hearing from the worker again, no event of that
      poll is dropped as stale, whatever the worker does meanwhile. */
  lemma UnansweredPollDropsNothing(earlier: seq<Action>, drained: seq<Event>, since: seq<Action>)
    requires forall a | a in earlier :: Realistic(a)
    requires Realistic(Poll(drained)) && Execute(UNLINKED, earlier).batch == []
    requires forall a | a in since :: Realistic(a) && !a.Poll? && !a.Respond?
    ensures !DropsNext(Execute(Act(Execute(UNLINKED, earlier), Poll(drained)), since))
  {
    DroppedExactlyWhenOvertaken(earlier, drained, since);
    var l := Act(Execute(UNLINKED, earlier), Poll(drained));
    forall k, x: nat | 0 <= k < |since|
      ensures since[k] != Respond(x)
    {
      assert since[k] in since;
    }
  }

  lemma ExecuteOneMore(l: Link, actions: seq<Action>, a: Action)
    ensures Execute(l, actions + [a]) == Act(Execute(l, actions), a)
  {
    assert (actions + [a])[..|actions|] == actions;
  }

  lemma ExecuteTwo(l: Link, a: Action, b: Action)
    ensures Execute(l, [a, b]) == Act(Act(l, a), b)
  {
    ExecuteOneMore(l, [], a);
    ExecuteOneMore(l, [a], b);
    assert [] + [a] == [a] && [a] + [b] == [a, b];
  }

  lemma ExecuteFour(l: Link, a: Action, b: Action, c: Action, d: Action)
    ensures Execute(l, [a, b, c, d]) == Act(Act(Act(Act(l, a), b), c), d)
  {
    ExecuteTwo(l, a, b);
    ExecuteOneMore(l, [a, b], c);
    ExecuteOneMore(l, [a, b, c], d);
    assert [a, b] + [c] == [a, b, c] && [a, b, c] + [d] == [a, b, c, d];
  }

  lemma BothPass(s: Registry, first: Event, second: Event)
    requires EpochFor(s, first.xid) == first.epoch && EpochFor(s, second.xid) == second.epoch
    ensures Gated(s, [first, second]) == [first, second]
  {
    assert [second][1..] == [] && [first, second][1..] == [second];
    assert Gated(s, [second]) == [second];
  }

  lemma BindThenRaise(s: Registry, x: nat, surface: nat, geometry: Geometry)
    requires x in s.entries && x != 0 && s.entries[x].generation < 2
    ensures EpochFor(Next(Next(s, Bind(x, surface)), Update(x, 2, "", geometry, Raise)), x) == s.nextEpoch + 1
  {
    var bound := Next(s, Bind(x, surface));
    AnnotationsKeepEpochs(bound, Update(x, 2, "", geometry, Raise), x);
  }

  /** A reachable run that drops an event: of two polled events the first, a focus change, is consumed;
      a surface is bound; the raise that the focus asks for is applied and answered with the new
      surface's epoch; and the second event is behind it. */
  lemma ResponseMidPollDrops(x: nat, surface: nat, geometry: Geometry, focus: Event, next: Event)
    requires x != 0 && surface != 0 && focus.xid == x && focus.epoch == 1 && next.xid == x && next.epoch == 1
    ensures var earlier := [Transition(Register(x, 1, "", "", geometry, false, 0, 0)), Respond(x)];
            var since := [Consume, Transition(Bind(x, surface)),
                          Transition(Update(x, 2, "", geometry, Raise)), Respond(x)];
            var polled := Act(Execute(UNLINKED, earlier), Poll([focus, next]));
            && polled.batch == [focus, next] && !DropsNext(polled)
            && Execute(polled, since).batch == [next] && DropsNext(Execute(polled, since))
  {
    var register := Transition(Register(x, 1, "", "", geometry, false, 0, 0));
    var bind, raise := Transition(Bind(x, surface)), Transition(Update(x, 2, "", geometry, Raise));
    ExecuteTwo(UNLINKED, register, Respond(x));
    var l := Execute(UNLINKED, [register, Respond(x)]);
    assert l.tracked == map[x := 1] && l.registry.nextEpoch == 1;
    BothPass(l.registry, focus, next);
    var polled := Act(l, Poll([focus, next]));
    ExecuteFour(polled, Consume, bind, raise, Respond(x));
    BindThenRaise(l.registry, x, surface, geometry);
  }
}
