/** What becomes of a captured motion: the one kind of event that the ring may give up for a newer one. */
module MotionDelivery {
  import opened InputQueue
  import opened InputDelivery
  import opened Sequences
  import Ring = InputRuns

  function Newcomer(w: World, a: Action): Event
    requires a.Capture?
  {
    Captured(w, a.xid, a.epoch, a.kind, a.payload)
  }

  predicate Arrives(a: Action) {
    a.Capture? && a.xid != 0 && ValidKind(a.kind)
  }

  /** An arrival costs the waiting motion its place. */
  predicate Displaces(w: World, a: Action, ev: Event) {
    && Arrives(a) && ev in w.session.ring.events
    && (Ring.Supersedes(Newcomer(w, a), ev) || Ring.Evicts(w.session.ring.events, Newcomer(w, a), ev))
  }

  predicate Drains(w: World, a: Action, ev: Event) {
    a == DrainRing && MayDrain(w) && ev in Drained(w)
  }

  // ---- one step ----

  lemma ArrivalStep(w: World, a: Action, ev: Event)
    requires WorldOk(w) && Arrives(a) && IsMotion(ev) && ev.seqNo <= w.session.ring.nextSeq
    ensures ev in Act(w, a).session.ring.events <==> ev in w.session.ring.events && !Displaces(w, a, ev)
  {
    var r := w.session.ring;
    Ring.InputPushes(w.session, Ring.Input(a.xid, a.epoch, a.kind, a.payload));
    Ring.PushArrives(r, Newcomer(w, a));
    if ev in r.events {
      Ring.MotionOutlastsExactly(r, Newcomer(w, a), ev);
    } else {
      Ring.NothingElseArrives(r, Newcomer(w, a));
    }
  }

  lemma RingStep(w: World, a: Action, ev: Event)
    requires WorldOk(w) && IsMotion(ev) && ev.seqNo <= w.session.ring.nextSeq
    ensures ev in Act(w, a).session.ring.events
            <==> ev in w.session.ring.events && !Displaces(w, a, ev) && !Drains(w, a, ev)
    ensures Drains(w, a, ev) ==> ev in w.session.ring.events
  {
    if Arrives(a) {
      ArrivalStep(w, a, ev);
    } else if a == DrainRing && MayDrain(w) {
      Ring.PollSplits(w.session, ev);
    }
  }

  lemma NumbersGrow(w: World, a: Action)
    ensures w.session.ring.nextSeq <= Act(w, a).session.ring.nextSeq
  {
  }

  // ---- whole runs ----

  predicate DisplacedAt(w: World, actions: seq<Action>, k: nat, ev: Event) {
    k < |actions| && Displaces(At(w, actions, k), actions[k], ev)
  }

  ghost predicate DisplacedSome(w: World, actions: seq<Action>, ev: Event) {
    exists k: nat :: DisplacedAt(w, actions, k, ev)
  }

  lemma DisplacedOneMore(w: World, front: seq<Action>, a: Action, k: nat, ev: Event)
    ensures k < |front| ==> (DisplacedAt(w, front + [a], k, ev) <==> DisplacedAt(w, front, k, ev))
    ensures DisplacedAt(w, front + [a], |front|, ev) <==> Displaces(Execute(w, front), a, ev)
  {
    var more := front + [a];
    assert more[..|front|] == front && more[|front|] == a;
    if k < |front| {
      assert more[..k] == front[..k] && more[k] == front[k];
    }
  }

  lemma DisplacedExtends(w: World, front: seq<Action>, a: Action, ev: Event)
    ensures DisplacedSome(w, front + [a], ev)
            <==> DisplacedSome(w, front, ev) || Displaces(Execute(w, front), a, ev)
  {
    DisplacedOneMore(w, front, a, 0, ev);
    if k: nat :| DisplacedAt(w, front, k, ev) {
      DisplacedOneMore(w, front, a, k, ev);
    }
    if k: nat :| DisplacedAt(w, front + [a], k, ev) {
      DisplacedOneMore(w, front, a, k, ev);
    }
  }

  /** A motion in the ring waits there until it is drained or displaced, and never both. */
  lemma {:induction false} MotionEnds(w: World, actions: seq<Action>, ev: Event)
    requires WorldOk(w) && (forall a | a in actions :: Realistic(a)) && IsMotion(ev)
    requires ev.seqNo <= w.session.ring.nextSeq
    ensures ev in Execute(w, actions).session.ring.events
            <==> ev in w.session.ring.events && !DrainedSome(w, actions, ev) && !DisplacedSome(w, actions, ev)
    ensures !(DrainedSome(w, actions, ev) && DisplacedSome(w, actions, ev))
    ensures ev !in w.session.ring.events ==> !DrainedSome(w, actions, ev) && !DisplacedSome(w, actions, ev)
    ensures ev.seqNo <= Execute(w, actions).session.ring.nextSeq
    decreases |actions|
  {
    if actions != [] {
      var front, a := actions[..|actions| - 1], actions[|actions| - 1];
      MotionEnds(w, front, ev);
      ExecuteKeepsWorld(w, front);
      NumbersGrow(Execute(w, front), a);
      RingStep(Execute(w, front), a, ev);
      DrainsExtends(w, front, a, ev);
      DisplacedExtends(w, front, a, ev);
      LastApart(actions);
    }
  }

  /** A captured motion is drained by some poll if and only if it was let into the ring, no arrival has
      superseded or evicted it there, and it does not wait any more. */
  lemma MotionDrainedExactlyWhen(before: seq<Action>, capture: Action, after: seq<Action>)
    requires forall a | a in before + [capture] + after :: Realistic(a)
    requires Arrives(capture) && capture.kind == MOTION
    ensures var w := Execute(START, before);
            var ev := Newcomer(w, capture);
            DrainedSome(Act(w, capture), after, ev)
            <==> && !Ring.RefusesMotion(w.session.ring) && !DisplacedSome(Act(w, capture), after, ev)
                 && ev !in Execute(Act(w, capture), after).session.ring.events
  {
    var w := Execute(START, before);
    var ev := Newcomer(w, capture);
    CapturedWorldOk(before, capture, after);
    MotionArrives(w, capture);
    MotionEnds(Act(w, capture), after, ev);
  }

  lemma MotionArrives(w: World, capture: Action)
    requires WorldOk(w) && Arrives(capture) && capture.kind == MOTION
    ensures var ev, s := Newcomer(w, capture), Act(w, capture).session;
            ev.seqNo == s.ring.nextSeq && (ev in s.ring.events <==> !Ring.RefusesMotion(w.session.ring))
  {
    Ring.InputPushes(w.session, Ring.Input(capture.xid, capture.epoch, capture.kind, capture.payload));
    Ring.PushArrives(w.session.ring, Newcomer(w, capture));
    Ring.MotionLetInExactly(w.session.ring, Newcomer(w, capture));
  }
}
