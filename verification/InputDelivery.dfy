/** Input end to end: from the window that captures an event, through the ring, the worker's gate and
    the sidecar's reconciliation, to the guest. */
module InputDelivery {
  import opened Basics
  import opened RegistryModel
  import opened RegistryInvariant
  import opened InputQueue
  import opened Sequences
  import Ring = InputRuns
  import Gate = EpochGate

  /** The ring and its history, what a poll has drained from it and not gated yet, the link between worker
      and sidecar, and what reached the guest. */
  datatype World = World(session: Ring.Session, held: Option<seq<Event>>, link: Gate.Link, injected: seq<Event>)

  datatype Action =
    | Capture(xid: nat, epoch: nat, kind: nat, payload: Payload)
    | Transition(op: Op)
    | Answer(xid: nat)
    | Forget(xid: nat)
    | DrainRing        // the first half of a poll, under the ring's lock
    | GateDrained      // the second half, under the backend's
    | Consume

  const START := World(Ring.FRESH, None, Gate.UNLINKED, [])

  /** The sidecar takes the next polled event: it tracks the toplevel and the event is not stale. */
  predicate Takes(l: Gate.Link) {
    l.batch != [] && l.batch[0].xid in l.tracked && !Gate.DropsNext(l)
  }

  /** What a poll that starts now drains from the ring. */
  function Drained(w: World): seq<Event> {
    Drain(w.session.ring, w.session.cursor).out
  }

  /** The sidecar polls only when it has consumed the poll before. */
  predicate MayDrain(w: World) {
    w.held == None && w.link.batch == []
  }

  predicate MayGate(w: World) {
    w.held != None && w.link.batch == []
  }

  function Act(w: World, a: Action): World {
    match a
    case Capture(xid, epoch, kind, payload) =>
      w.(session := Ring.Act(w.session, Ring.Input(xid, epoch, kind, payload)))
    case Transition(op) => w.(link := Gate.Act(w.link, Gate.Transition(op)))
    case Answer(x) => w.(link := Gate.Act(w.link, Gate.Respond(x)))
    case Forget(x) => w.(link := Gate.Act(w.link, Gate.Forget(x)))
    case DrainRing =>
      if MayDrain(w) then w.(session := Ring.Act(w.session, Ring.Poll), held := Some(Drained(w))) else w
    case GateDrained =>
      if MayGate(w) then w.(link := Gate.Act(w.link, Gate.Poll(w.held.value)), held := None) else w
    case Consume =>
      w.(link := Gate.Act(w.link, Gate.Consume),
         injected := if Takes(w.link) then w.injected + [w.link.batch[0]] else w.injected)
  }

  function Execute(w: World, actions: seq<Action>): World {
    if actions == [] then w else Act(Execute(w, actions[..|actions| - 1]), actions[|actions| - 1])
  }

  /** Windows capture with a minted epoch; surface handles are minted. */
  predicate Realistic(a: Action) {
    && (a.Capture? ==> a.epoch > 0)
    && (a.Transition? ==> NonzeroHandles(a.op))
  }

  /** What the link sees of an action other than the gating of a poll: nothing of a capture or a drain. */
  function LinkPart(a: Action): seq<Gate.Action> {
    match a
    case Transition(op) => [Gate.Transition(op)]
    case Answer(x) => [Gate.Respond(x)]
    case Forget(x) => [Gate.Forget(x)]
    case Consume => [Gate.Consume]
    case _ => []
  }

  // ---- what every run keeps ----

  ghost predicate Stamped(events: seq<Event>) {
    forall ev | ev in events :: ev.epoch > 0
  }

  /** Events come from the ring in order: what was polled is behind the cursor. */
  ghost predicate Behind(events: seq<Event>, cursor: nat) {
    forall ev | ev in events :: ev.seqNo <= cursor
  }

  ghost predicate HeldOk(w: World) {
    w.held != None ==> w.link.batch == [] && Stamped(w.held.value) && Behind(w.held.value, w.session.cursor)
  }

  ghost predicate WorldOk(w: World) {
    && Ring.SessionOk(w.session) && Stamped(w.session.ring.events) && Gate.LinkOk(w.link) && HeldOk(w)
    && Behind(w.link.batch, w.session.cursor) && Behind(w.injected, w.session.cursor)
  }

  /** A poll moves the cursor past all it drains. */
  lemma PollMovesCursor(s: Ring.Session)
    requires Ring.SessionOk(s)
    ensures var p := Drain(s.ring, s.cursor); s.cursor <= p.cursor && Behind(p.out, p.cursor)
    ensures forall ev | ev in Drain(s.ring, s.cursor).out :: ev.seqNo > s.cursor && ev in s.ring.events
  {
    Ring.PollTakesFront(s);
    var out := Drain(s.ring, s.cursor).out;
    forall ev | ev in out
      ensures s.cursor < ev.seqNo <= Drain(s.ring, s.cursor).cursor && ev in s.ring.events
    {
      var i :| 0 <= i < |out| && out[i] == ev;
      assert s.ring.events[i] == ev;
      assert i < |out| - 1 ==> s.ring.events[i].seqNo < s.ring.events[|out| - 1].seqNo;
    }
  }

  lemma CaptureKeepsStamped(s: Ring.Session, a: Ring.Action)
    requires Ring.SessionOk(s) && Stamped(s.ring.events) && a.Input? && a.epoch > 0
    ensures Stamped(Ring.Act(s, a).ring.events)
  {
    if a.xid != 0 && ValidKind(a.kind) {
      Ring.NothingElseArrives(s.ring, Event(a.xid, a.epoch, s.ring.nextSeq + 1, a.kind, a.payload));
    }
  }

  lemma CaptureKeepsWorld(w: World, a: Action)
    requires WorldOk(w) && a.Capture? && a.epoch > 0
    ensures WorldOk(Act(w, a))
  {
    var input := Ring.Input(a.xid, a.epoch, a.kind, a.payload);
    Ring.ActKeepsSession(w.session, input);
    CaptureKeepsStamped(w.session, input);
  }

  lemma PollKeepsStamped(s: Ring.Session)
    requires Ring.SessionOk(s) && Stamped(s.ring.events)
    ensures Stamped(Drain(s.ring, s.cursor).out) && Stamped(Drain(s.ring, s.cursor).ring.events)
  {
    Ring.PollTakesFront(s);
  }

  lemma DrainKeepsSession(w: World)
    requires WorldOk(w) && MayDrain(w)
    ensures var s := Act(w, DrainRing).session;
            && Ring.SessionOk(s) && Stamped(s.ring.events) && w.session.cursor <= s.cursor
            && Stamped(Drained(w)) && forall ev | ev in Drained(w) :: w.session.cursor < ev.seqNo <= s.cursor
  {
    var s := w.session;
    Ring.ActKeepsSession(s, Ring.Poll);
    PollMovesCursor(s);
    PollKeepsStamped(s);
    assert Act(w, DrainRing).session == Ring.Act(s, Ring.Poll);
  }

  lemma DrainKeepsWorld(w: World)
    requires WorldOk(w) && MayDrain(w)
    ensures WorldOk(Act(w, DrainRing)) && w.session.cursor <= Act(w, DrainRing).session.cursor
    ensures forall ev | ev in Drained(w) :: w.session.cursor < ev.seqNo <= Act(w, DrainRing).session.cursor
  {
    DrainKeepsSession(w);
  }

  lemma GateKeepsLink(w: World)
    requires Gate.LinkOk(w.link) && MayGate(w) && Stamped(w.held.value)
    ensures Gate.LinkOk(Act(w, GateDrained).link) && Gate.Polled(Act(w, GateDrained).link)
    ensures forall ev | ev in Act(w, GateDrained).link.batch :: ev in w.held.value
  {
    Gate.GatedOk(w.link.registry, w.held.value);
    Gate.ActKeepsLink(w.link, Gate.Poll(w.held.value));
    Gate.PollIsPolled(w.link, w.held.value);
  }

  lemma GateKeepsWorld(w: World)
    requires WorldOk(w) && MayGate(w)
    ensures WorldOk(Act(w, GateDrained)) && Gate.Polled(Act(w, GateDrained).link)
  {
    GateKeepsLink(w);
  }

  lemma ConsumeKeepsWorld(w: World)
    requires WorldOk(w)
    ensures WorldOk(Act(w, Consume))
  {
    Gate.ActKeepsLink(w.link, Gate.Consume);
    assert w.link.batch != [] ==> w.link.batch[0] in w.link.batch;
  }

  lemma LinkKeepsWorld(w: World, a: Action)
    requires WorldOk(w) && Realistic(a) && (a.Transition? || a.Answer? || a.Forget?)
    ensures WorldOk(Act(w, a))
  {
    Gate.ActKeepsLink(w.link, LinkPart(a)[0]);
  }

  lemma ActKeepsWorld(w: World, a: Action)
    requires WorldOk(w) && Realistic(a)
    ensures WorldOk(Act(w, a)) && w.session.cursor <= Act(w, a).session.cursor
  {
    if a.Capture? {
      CaptureKeepsWorld(w, a);
    } else if a == DrainRing {
      if MayDrain(w) {
        DrainKeepsWorld(w);
      }
    } else if a == GateDrained {
      if MayGate(w) {
        GateKeepsWorld(w);
      }
    } else if a == Consume {
      ConsumeKeepsWorld(w);
    } else {
      LinkKeepsWorld(w, a);
    }
  }

  lemma {:induction false} ExecuteKeepsWorld(w: World, actions: seq<Action>)
    requires WorldOk(w) && forall a | a in actions :: Realistic(a)
    ensures WorldOk(Execute(w, actions))
  {
    if actions != [] {
      var front, a := actions[..|actions| - 1], actions[|actions| - 1];
      assert a in actions;
      ExecuteKeepsWorld(w, front);
      ActKeepsWorld(Execute(w, front), a);
    }
  }

  /** The world after the first `k` actions. */
  function At(w: World, actions: seq<Action>, k: nat): World
    requires k <= |actions|
  {
    Execute(w, actions[..k])
  }

  lemma AtNext(w: World, actions: seq<Action>, k: nat)
    requires k < |actions|
    ensures At(w, actions, k + 1) == Act(At(w, actions, k), actions[k])
  {
    assert actions[..k + 1][..k] == actions[..k];
  }

  lemma AtKeepsWorld(w: World, actions: seq<Action>, k: nat)
    requires WorldOk(w) && k <= |actions| && forall a | a in actions :: Realistic(a)
    ensures WorldOk(At(w, actions, k))
  {
    ExecuteKeepsWorld(w, actions[..k]);
  }

  // ---- the stations of one event ----

  /** Action `p` is the half of a poll that drains the event from the ring. */
  predicate DrainsAt(w: World, actions: seq<Action>, p: nat, ev: Event) {
    p < |actions| && actions[p] == DrainRing && MayDrain(At(w, actions, p)) && ev in Drained(At(w, actions, p))
  }

  /** Action `q` is the other half, that puts the event to the gate. */
  predicate GatesAt(w: World, actions: seq<Action>, q: nat, ev: Event) {
    && q < |actions| && actions[q] == GateDrained
    && MayGate(At(w, actions, q)) && ev in At(w, actions, q).held.value
  }

  /** Action `c` is the sidecar's turn at the event. */
  predicate ConsumesAt(w: World, actions: seq<Action>, c: nat, ev: Event) {
    && c < |actions| && actions[c] == Consume
    && At(w, actions, c).link.batch != [] && At(w, actions, c).link.batch[0] == ev
  }

  /** What the link sees of the actions between two polls. */
  function LinkActions(actions: seq<Action>): seq<Gate.Action> {
    if actions == [] then [] else LinkActions(actions[..|actions| - 1]) + LinkPart(actions[|actions| - 1])
  }

  /** The transitions among the actions. */
  function Ops(actions: seq<Action>): seq<Op> {
    if actions == [] then []
    else
      var front, a := Ops(actions[..|actions| - 1]), actions[|actions| - 1];
      if a.Transition? then front + [a.op] else front
  }

  lemma {:induction false} LinkActionsAreRealistic(actions: seq<Action>)
    requires forall a | a in actions :: Realistic(a)
    ensures forall a | a in LinkActions(actions) :: Gate.Realistic(a) && !a.Poll?
  {
    if actions != [] {
      assert actions[|actions| - 1] in actions;
      LinkActionsAreRealistic(actions[..|actions| - 1]);
    }
  }

  lemma RegistryStep(w: World, a: Action)
    ensures Act(w, a).link.registry == if a.Transition? then Next(w.link.registry, a.op) else w.link.registry
  {
  }

  lemma {:induction false} RegistryRuns(w: World, actions: seq<Action>)
    ensures Execute(w, actions).link.registry == Run(w.link.registry, Ops(actions))
  {
    if actions != [] {
      var front, a := actions[..|actions| - 1], actions[|actions| - 1];
      RegistryRuns(w, front);
      RegistryStep(Execute(w, front), a);
      if a.Transition? {
        RunOneMore(w.link.registry, Ops(front), a.op);
      }
    }
  }

  lemma {:induction false} OpsAreNonzero(actions: seq<Action>)
    requires forall a | a in actions :: Realistic(a)
    ensures AllNonzero(Ops(actions))
  {
    if actions != [] {
      assert actions[|actions| - 1] in actions;
      OpsAreNonzero(actions[..|actions| - 1]);
    }
  }

  lemma LinkOneMore(l: Gate.Link, between: seq<Action>, a: Action)
    ensures Gate.Execute(l, LinkActions(between + [a]))
            == if LinkPart(a) == [] then Gate.Execute(l, LinkActions(between))
               else Gate.Act(Gate.Execute(l, LinkActions(between)), LinkPart(a)[0])
  {
    assert (between + [a])[..|between|] == between;
    if LinkPart(a) == [] {
      assert LinkActions(between) + [] == LinkActions(between);
    } else {
      assert LinkPart(a) == [LinkPart(a)[0]];
      Gate.ExecuteOneMore(l, LinkActions(between), LinkPart(a)[0]);
    }
  }

  predicate PassesAt(w: World, actions: seq<Action>, q: nat, ev: Event) {
    GatesAt(w, actions, q, ev) && EpochFor(At(w, actions, q).link.registry, ev.xid) == ev.epoch
  }

  /** Since the gating at `q` the link has seen the actions and no other poll. */
  predicate SinceGate(w: World, actions: seq<Action>, q: nat, k: nat) {
    q < k <= |actions| &&
    At(w, actions, k).link == Gate.Execute(At(w, actions, q + 1).link, LinkActions(actions[q + 1..k]))
  }

  lemma GatedNow(w: World, actions: seq<Action>, k: nat, ev: Event)
    requires k < |actions| && actions[k] == GateDrained && MayGate(At(w, actions, k))
    requires ev in At(w, actions, k + 1).link.batch
    ensures PassesAt(w, actions, k, ev) && SinceGate(w, actions, k, k + 1)
  {
    AtNext(w, actions, k);
    Gate.GatedOk(At(w, actions, k).link.registry, At(w, actions, k).held.value);
    assert actions[k + 1..k + 1] == [];
  }

  lemma LinkStep(w: World, a: Action)
    requires a == GateDrained ==> !MayGate(w)
    ensures Act(w, a).link == if LinkPart(a) == [] then w.link else Gate.Act(w.link, LinkPart(a)[0])
  {
  }

  lemma LinkExtends(w: World, l: Gate.Link, between: seq<Action>, a: Action)
    requires w.link == Gate.Execute(l, LinkActions(between)) && (a == GateDrained ==> !MayGate(w))
    ensures Act(w, a).link == Gate.Execute(l, LinkActions(between + [a]))
  {
    LinkStep(w, a);
    LinkOneMore(l, between, a);
  }

  lemma GatedBefore(w: World, actions: seq<Action>, q: nat, k: nat)
    requires k < |actions| && SinceGate(w, actions, q, k)
    requires actions[k] == GateDrained ==> !MayGate(At(w, actions, k))
    ensures SinceGate(w, actions, q, k + 1)
  {
    var start, now := At(w, actions, q + 1).link, At(w, actions, k);
    AtNext(w, actions, k);
    LinkExtends(now, start, actions[q + 1..k], actions[k]);
    SliceOneMore(actions, q + 1, k);
  }

  /** A step that does not gate adds nothing to the batch. */
  lemma BatchStep(w: World, a: Action, ev: Event)
    requires a == GateDrained ==> !MayGate(w)
    requires ev in Act(w, a).link.batch
    ensures ev in w.link.batch
  {
  }

  lemma {:induction false} BatchWasGated(w: World, actions: seq<Action>, k: nat, ev: Event) returns (q: nat)
    requires k <= |actions| && ev in At(w, actions, k).link.batch && ev !in w.link.batch
    ensures PassesAt(w, actions, q, ev) && SinceGate(w, actions, q, k)
    decreases k
  {
    assert actions[..0] == [];
    var j := k - 1;
    if actions[j] == GateDrained && MayGate(At(w, actions, j)) {
      q := j;
      GatedNow(w, actions, j, ev);
    } else {
      AtNext(w, actions, j);
      BatchStep(At(w, actions, j), actions[j], ev);
      q := BatchWasGated(w, actions, j, ev);
      GatedBefore(w, actions, q, j);
    }
  }

  /** A step that does not drain holds nothing new. */
  lemma HeldStep(w: World, a: Action)
    requires a == DrainRing ==> !MayDrain(w)
    ensures Act(w, a).held == w.held || Act(w, a).held == None
  {
  }

  predicate Holds(w: World, ev: Event) {
    w.held != None && ev in w.held.value
  }

  /** What is held at `k` and was not at `i` was drained in between. */
  lemma {:induction false} HeldWasDrained(w: World, actions: seq<Action>, i: nat, k: nat, ev: Event) returns (p: nat)
    requires i <= k <= |actions| && Holds(At(w, actions, k), ev) && !Holds(At(w, actions, i), ev)
    ensures i <= p < k && DrainsAt(w, actions, p, ev)
    decreases k
  {
    var j := k - 1;
    AtNext(w, actions, j);
    if actions[j] == DrainRing && MayDrain(At(w, actions, j)) {
      p := j;
    } else {
      HeldStep(At(w, actions, j), actions[j]);
      p := HeldWasDrained(w, actions, i, j, ev);
    }
  }

  // ---- an event is drained once ----

  lemma CursorStep(w: World, actions: seq<Action>, k: nat)
    requires WorldOk(w) && k < |actions| && forall a | a in actions :: Realistic(a)
    ensures At(w, actions, k).session.cursor <= At(w, actions, k + 1).session.cursor
  {
    AtNext(w, actions, k);
    AtKeepsWorld(w, actions, k);
    ActKeepsWorld(At(w, actions, k), actions[k]);
  }

  lemma {:induction false} CursorGrows(w: World, actions: seq<Action>, j: nat, k: nat)
    requires WorldOk(w) && j <= k <= |actions| && forall a | a in actions :: Realistic(a)
    ensures At(w, actions, j).session.cursor <= At(w, actions, k).session.cursor
    decreases k
  {
    if j < k {
      CursorGrows(w, actions, j, k - 1);
      CursorStep(w, actions, k - 1);
    }
  }

  lemma DrainedIsBehind(w: World, actions: seq<Action>, p: nat, ev: Event)
    requires WorldOk(w) && (forall a | a in actions :: Realistic(a)) && DrainsAt(w, actions, p, ev)
    ensures At(w, actions, p).session.cursor < ev.seqNo <= At(w, actions, p + 1).session.cursor
  {
    AtNext(w, actions, p);
    AtKeepsWorld(w, actions, p);
    DrainKeepsWorld(At(w, actions, p));
  }

  lemma NotDrainedAgain(w: World, actions: seq<Action>, p: nat, q: nat, ev: Event)
    requires WorldOk(w) && (forall a | a in actions :: Realistic(a)) && p < q && DrainsAt(w, actions, p, ev)
    ensures !DrainsAt(w, actions, q, ev)
  {
    if DrainsAt(w, actions, q, ev) {
      DrainedIsBehind(w, actions, p, ev);
      CursorGrows(w, actions, p + 1, q);
      DrainedIsBehind(w, actions, q, ev);
    }
  }

  lemma DrainedOnce(w: World, actions: seq<Action>, p: nat, q: nat, ev: Event)
    requires WorldOk(w) && (forall a | a in actions :: Realistic(a))
    requires DrainsAt(w, actions, p, ev) && DrainsAt(w, actions, q, ev)
    ensures p == q
  {
    if p < q {
      NotDrainedAgain(w, actions, p, q, ev);
    } else if q < p {
      NotDrainedAgain(w, actions, q, p, ev);
    }
  }

  lemma GatedIsLetGo(w: World, actions: seq<Action>, q: nat, ev: Event)
    requires GatesAt(w, actions, q, ev)
    ensures !Holds(At(w, actions, q + 1), ev)
  {
    AtNext(w, actions, q);
  }

  lemma GatedWasDrained(w: World, actions: seq<Action>, q: nat, ev: Event) returns (p: nat)
    requires !Holds(w, ev) && GatesAt(w, actions, q, ev)
    ensures p < q && DrainsAt(w, actions, p, ev)
  {
    assert actions[..0] == [];
    p := HeldWasDrained(w, actions, 0, q, ev);
  }

  lemma GatedTwiceDrainedTwice(w: World, actions: seq<Action>, q: nat, r: nat, ev: Event) returns (p: nat, p': nat)
    requires !Holds(w, ev) && q < r && GatesAt(w, actions, q, ev) && GatesAt(w, actions, r, ev)
    ensures p < q < p' && DrainsAt(w, actions, p, ev) && DrainsAt(w, actions, p', ev)
  {
    p := GatedWasDrained(w, actions, q, ev);
    GatedIsLetGo(w, actions, q, ev);
    p' := HeldWasDrained(w, actions, q + 1, r, ev);
  }

  /** An event is put to the gate once. */
  lemma GatedOnce(w: World, actions: seq<Action>, q: nat, r: nat, ev: Event)
    requires WorldOk(w) && (forall a | a in actions :: Realistic(a)) && !Holds(w, ev)
    requires GatesAt(w, actions, q, ev) && GatesAt(w, actions, r, ev)
    ensures q == r
  {
    if q != r {
      var p, p' := GatedTwiceDrainedTwice(w, actions, if q < r then q else r, if q < r then r else q, ev);
      DrainedOnce(w, actions, p, p', ev);
    }
  }

  // ---- an event is injected when the sidecar takes it at its turn ----

  ghost predicate TakenAt(w: World, actions: seq<Action>, c: nat, ev: Event) {
    ConsumesAt(w, actions, c, ev) && Takes(At(w, actions, c).link)
  }

  lemma TakenOneMore(w: World, actions: seq<Action>, a: Action, c: nat, ev: Event)
    requires c < |actions|
    ensures TakenAt(w, actions + [a], c, ev) <==> TakenAt(w, actions, c, ev)
  {
    assert (actions + [a])[..c] == actions[..c] && (actions + [a])[c] == actions[c];
  }

  lemma TakenLast(w: World, actions: seq<Action>, a: Action, ev: Event)
    ensures TakenAt(w, actions + [a], |actions|, ev)
            <==> a == Consume && Takes(Execute(w, actions).link) && Execute(w, actions).link.batch[0] == ev
  {
    assert (actions + [a])[..|actions|] == actions;
  }

  lemma InjectStep(w: World, a: Action, ev: Event)
    ensures ev in Act(w, a).injected
            <==> ev in w.injected || (a == Consume && Takes(w.link) && w.link.batch[0] == ev)
  {
  }

  lemma {:induction false} InjectedExactlyWhenTaken(w: World, actions: seq<Action>, ev: Event)
    requires ev !in w.injected
    ensures ev in Execute(w, actions).injected <==> exists c: nat :: TakenAt(w, actions, c, ev)
    decreases |actions|
  {
    if actions != [] {
      var front, a := actions[..|actions| - 1], actions[|actions| - 1];
      InjectedExactlyWhenTaken(w, front, ev);
      InjectStep(Execute(w, front), a, ev);
      TakenExtends(w, front, a, ev);
      LastApart(actions);
    }
  }

  lemma TakenExtends(w: World, front: seq<Action>, a: Action, ev: Event)
    ensures (exists c: nat :: TakenAt(w, front + [a], c, ev))
            <==> (exists c: nat :: TakenAt(w, front, c, ev))
                 || (a == Consume && Takes(Execute(w, front).link) && Execute(w, front).link.batch[0] == ev)
  {
    TakenLast(w, front, a, ev);
    if c: nat :| TakenAt(w, front, c, ev) {
      TakenOneMore(w, front, a, c, ev);
    }
    if c: nat :| TakenAt(w, front + [a], c, ev) {
      if c < |front| {
        TakenOneMore(w, front, a, c, ev);
      }
    }
  }

  // ---- end to end ----

  /** The event that a capture puts in the ring. */
  function Captured(w: World, xid: nat, epoch: nat, kind: nat, payload: Payload): Event {
    Event(xid, epoch, w.session.ring.nextSeq + 1, kind, payload)
  }

  /** Captured under its toplevel's current epoch, drained at `p`, gated at `q` while that representation
      was still in place, and given its turn at `c` with the toplevel tracked and not overtaken in
      between. */
  ghost predicate GetsThrough(w: World, actions: seq<Action>, ev: Event, p: nat, q: nat, c: nat) {
    && p < q < c && DrainsAt(w, actions, p, ev) && GatesAt(w, actions, q, ev) && ConsumesAt(w, actions, c, ev)
    && EpochFor(w.link.registry, ev.xid) == ev.epoch
    && Gate.Undisturbed(w.link.registry, Ops(actions[..q]), ev.xid)
    && ev.xid in At(w, actions, c).link.tracked
    && !Gate.Overtaken(At(w, actions, q + 1).link, LinkActions(actions[q + 1..c]), ev.xid)
  }

  /** The event passes the gate exactly when its epoch was current and nothing has disturbed its
      toplevel. */
  lemma GateExactly(w: World, actions: seq<Action>, ev: Event, q: nat)
    requires WorldOk(w) && (forall a | a in actions :: Realistic(a)) && q <= |actions|
    requires 0 < ev.epoch <= w.link.registry.nextEpoch
    ensures EpochFor(At(w, actions, q).link.registry, ev.xid) == ev.epoch
            <==> && EpochFor(w.link.registry, ev.xid) == ev.epoch
                 && Gate.Undisturbed(w.link.registry, Ops(actions[..q]), ev.xid)
  {
    RegistryRuns(w, actions[..q]);
    OpsAreNonzero(actions[..q]);
    if EpochFor(w.link.registry, ev.xid) == ev.epoch {
      Gate.GatePassesExactlyUndisturbed(w.link.registry, Ops(actions[..q]), ev.xid);
    } else {
      Gate.EpochNeverReturns(w.link.registry, Ops(actions[..q]), ev.xid, ev.epoch);
    }
  }

  /** At its turn a gated event is taken exactly when tracked and not overtaken. */
  lemma TurnAfterGate(w: World, actions: seq<Action>, ev: Event, q: nat, c: nat)
    requires WorldOk(w) && (forall a | a in actions :: Realistic(a))
    requires ConsumesAt(w, actions, c, ev) && GatesAt(w, actions, q, ev) && SinceGate(w, actions, q, c)
    ensures TakenAt(w, actions, c, ev)
            <==> ev.xid in At(w, actions, c).link.tracked
                 && !Gate.Overtaken(At(w, actions, q + 1).link, LinkActions(actions[q + 1..c]), ev.xid)
  {
    var l, between := At(w, actions, q + 1).link, LinkActions(actions[q + 1..c]);
    assert Gate.LinkOk(l) && Gate.Polled(l) by {
      AtNext(w, actions, q);
      AtKeepsWorld(w, actions, q);
      GateKeepsWorld(At(w, actions, q));
    }
    LinkActionsAreRealistic(actions[q + 1..c]);
    Gate.DropsExactlyWhenOvertaken(l, between);
  }

  /** A captured event reaches the guest if and only if its epoch was current when it was captured, a poll
      drains it and gates it while the representation that captured it is still in place, and at its turn
      the sidecar tracks its toplevel and has not been told of a newer representation since that gating. */
  lemma InputReachesGuestExactlyWhen(before: seq<Action>, capture: Action, after: seq<Action>)
    requires forall a | a in before + [capture] + after :: Realistic(a)
    requires capture.Capture? && capture.epoch <= Execute(START, before).link.registry.nextEpoch
    ensures var w := Execute(START, before);
            var ev := Captured(w, capture.xid, capture.epoch, capture.kind, capture.payload);
            ev in Execute(Act(w, capture), after).injected
            <==> exists p: nat, q: nat, c: nat :: GetsThrough(Act(w, capture), after, ev, p, q, c)
  {
    var w := Execute(START, before);
    var ev := Captured(w, capture.xid, capture.epoch, capture.kind, capture.payload);
    CapturedWorldOk(before, capture, after);
    CapturedIsNowhere(w, capture);
    assert Realistic(capture) by {
      assert capture in before + [capture] + after;
    }
    ReachesFrom(Act(w, capture), after, ev);
  }

  /** An event just captured has gone no further than the ring. */
  lemma CapturedIsNowhere(w: World, capture: Action)
    requires WorldOk(w) && capture.Capture?
    ensures var ev := Captured(w, capture.xid, capture.epoch, capture.kind, capture.payload);
            var w' := Act(w, capture);
            ev !in w'.injected && ev !in w'.link.batch && !Holds(w', ev) && w'.link == w.link
  {
  }

  lemma CapturedWorldOk(before: seq<Action>, capture: Action, after: seq<Action>)
    requires (forall a | a in before + [capture] + after :: Realistic(a)) && capture.Capture?
    ensures WorldOk(Execute(START, before)) && WorldOk(Act(Execute(START, before), capture))
    ensures forall a | a in after :: Realistic(a)
  {
    assert forall a | a in before :: a in before + [capture] + after;
    assert forall a | a in after :: a in before + [capture] + after;
    assert capture in before + [capture] + after;
    ExecuteKeepsWorld(START, before);
    ActKeepsWorld(Execute(START, before), capture);
  }

  /** An event that the sidecar takes got through. */
  lemma TakenGotThrough(w: World, actions: seq<Action>, ev: Event, c: nat) returns (p: nat, q: nat)
    requires WorldOk(w) && (forall a | a in actions :: Realistic(a)) && ev !in w.link.batch && !Holds(w, ev)
    requires 0 < ev.epoch <= w.link.registry.nextEpoch
    requires TakenAt(w, actions, c, ev)
    ensures GetsThrough(w, actions, ev, p, q, c)
  {
    q := BatchWasGated(w, actions, c, ev);
    p := GatedWasDrained(w, actions, q, ev);
    GateExactly(w, actions, ev, q);
    TurnAfterGate(w, actions, ev, q, c);
  }

  /** An event that gets through is taken: its batch is that of the one gating it was put to. */
  lemma ThroughIsTaken(w: World, actions: seq<Action>, ev: Event, p: nat, q: nat, c: nat)
    requires WorldOk(w) && (forall a | a in actions :: Realistic(a)) && ev !in w.link.batch && !Holds(w, ev)
    requires GetsThrough(w, actions, ev, p, q, c)
    ensures TakenAt(w, actions, c, ev)
  {
    var r := BatchWasGated(w, actions, c, ev);
    GatedOnce(w, actions, q, r, ev);
    TurnAfterGate(w, actions, ev, q, c);
  }

  lemma ReachesFrom(w: World, actions: seq<Action>, ev: Event)
    requires WorldOk(w) && (forall a | a in actions :: Realistic(a))
    requires ev !in w.injected && ev !in w.link.batch && !Holds(w, ev)
    requires 0 < ev.epoch <= w.link.registry.nextEpoch
    ensures ev in Execute(w, actions).injected
            <==> exists p: nat, q: nat, c: nat :: GetsThrough(w, actions, ev, p, q, c)
  {
    InjectedExactlyWhenTaken(w, actions, ev);
    if c: nat :| TakenAt(w, actions, c, ev) {
      var p, q := TakenGotThrough(w, actions, ev, c);
    }
    if p: nat, q: nat, c: nat :| GetsThrough(w, actions, ev, p, q, c) {
      ThroughIsTaken(w, actions, ev, p, q, c);
    }
  }

  // ---- an event is drained unless it is evicted or still waiting ----

  lemma {:induction false} ProtectedMembers(events: seq<Event>, ev: Event)
    ensures ev in Ring.Protected(events) <==> ev in events && !IsMotion(ev)
  {
    if events != [] {
      ProtectedMembers(events[1..], ev);
    }
  }

  lemma {:induction false} KeptMembers(events: seq<Event>, lost: set<nat>, ev: Event)
    ensures ev in Ring.Kept(events, lost) <==> ev in events && ev.seqNo !in lost
  {
    if events != [] {
      KeptMembers(events[1..], lost, ev);
    }
  }

  lemma DeliverStep(w: World, a: Action, ev: Event)
    requires !IsMotion(ev)
    ensures ev in Act(w, a).session.delivered
            <==> ev in w.session.delivered || (a == DrainRing && MayDrain(w) && ev in Drained(w))
    ensures ev in w.session.admitted ==> ev in Act(w, a).session.admitted
  {
    ProtectedMembers(Drained(w), ev);
  }

  /** Some poll drains the event. */
  ghost predicate DrainedSome(w: World, actions: seq<Action>, ev: Event) {
    exists p: nat :: DrainsAt(w, actions, p, ev)
  }

  lemma DrainsExtends(w: World, front: seq<Action>, a: Action, ev: Event)
    ensures DrainedSome(w, front + [a], ev)
            <==> DrainedSome(w, front, ev)
                 || (a == DrainRing && MayDrain(Execute(w, front)) && ev in Drained(Execute(w, front)))
  {
    var more := front + [a];
    assert more[..|front|] == front && more[|front|] == a;
    assert DrainsAt(w, more, |front|, ev)
           <==> a == DrainRing && MayDrain(Execute(w, front)) && ev in Drained(Execute(w, front));
    if p: nat :| DrainsAt(w, front, p, ev) {
      assert more[..p] == front[..p] && more[p] == front[p];
      assert DrainsAt(w, more, p, ev);
    }
    if p: nat :| DrainsAt(w, more, p, ev) {
      if p < |front| {
        assert more[..p] == front[..p] && more[p] == front[p];
        assert DrainsAt(w, front, p, ev);
      }
    }
  }

  lemma {:induction false} DeliveredExactlyWhenDrained(w: World, actions: seq<Action>, ev: Event)
    requires !IsMotion(ev) && ev in w.session.admitted && ev !in w.session.delivered
    ensures ev in Execute(w, actions).session.delivered <==> DrainedSome(w, actions, ev)
    ensures ev in Execute(w, actions).session.admitted
    decreases |actions|
  {
    if actions != [] {
      var front, a := actions[..|actions| - 1], actions[|actions| - 1];
      DeliveredExactlyWhenDrained(w, front, ev);
      var before := Execute(w, front);
      assert Execute(w, actions) == Act(before, a);
      DeliverStep(before, a, ev);
      DrainsExtends(w, front, a, ev);
      LastApart(actions);
    }
  }

  /** Of a protected event admitted, either it was given up, or it waits in the ring, or it was
      delivered; never two of these. */
  lemma AdmittedIsSomewhere(s: Ring.Session, ev: Event)
    requires Ring.SessionOk(s) && ev in s.admitted && !IsMotion(ev)
    ensures ev in s.delivered <==> ev.seqNo !in s.lost && ev !in s.ring.events
  {
    KeptMembers(s.admitted, s.lost, ev);
    ProtectedMembers(s.ring.events, ev);
    Ring.KeptIsAscending(s.admitted, s.lost);
    var kept, held := Ring.Kept(s.admitted, s.lost), Ring.Protected(s.ring.events);
    assert kept == s.delivered + held;
    if ev in s.delivered {
      Ring.AscendingApart(s.delivered, held, ev);
    }
  }

  /** A captured protected event is drained by some poll if and only if it was not given up at the
      ceiling and does not wait in the ring any more. */
  lemma DrainedExactlyWhenKept(before: seq<Action>, capture: Action, after: seq<Action>)
    requires forall a | a in before + [capture] + after :: Realistic(a)
    requires capture.Capture? && capture.xid != 0 && ValidKind(capture.kind) && capture.kind != MOTION
    ensures var w := Execute(START, before);
            var ev := Captured(w, capture.xid, capture.epoch, capture.kind, capture.payload);
            var s := Execute(Act(w, capture), after).session;
            DrainedSome(Act(w, capture), after, ev) <==> ev.seqNo !in s.lost && ev !in s.ring.events
  {
    var w := Execute(START, before);
    var ev := Captured(w, capture.xid, capture.epoch, capture.kind, capture.payload);
    CapturedWorldOk(before, capture, after);
    var w' := Act(w, capture);
    ExecuteKeepsWorld(w', after);
    CapturedIsNew(w, capture);
    DeliveredExactlyWhenDrained(w', after, ev);
    AdmittedIsSomewhere(Execute(w', after).session, ev);
  }

  /** No event of a session so far has the next number. */
  lemma NotDeliveredYet(s: Ring.Session, ev: Event)
    requires Ring.SessionOk(s) && ev.seqNo > s.ring.nextSeq
    ensures ev !in s.delivered
  {
    KeptMembers(s.admitted, s.lost, ev);
    assert ev in s.delivered ==> ev in s.delivered + Ring.Protected(s.ring.events);
  }

  lemma CapturedIsNew(w: World, capture: Action)
    requires WorldOk(w) && capture.Capture? && capture.xid != 0 && ValidKind(capture.kind) && capture.kind != MOTION
    ensures var ev := Captured(w, capture.xid, capture.epoch, capture.kind, capture.payload);
            ev in Act(w, capture).session.admitted && ev !in Act(w, capture).session.delivered
  {
    NotDeliveredYet(w.session, Captured(w, capture.xid, capture.epoch, capture.kind, capture.payload));
    var input := Ring.Input(capture.xid, capture.epoch, capture.kind, capture.payload);
    assert Act(w, capture).session == Ring.Act(w.session, input);
    assert Ring.Act(w.session, input).delivered == w.session.delivered;
  }
}
