/** Live geometry converges. The registry numbers every placement it emits; the host keeps only the
    newest it has seen and applies it when it can. Each representation of a toplevel may be a window
    of its own, with a gate of its own, which sees only what was numbered since it came to be. However
    that is reordered, repeated or coalesced on the way, the host window of a registered toplevel
    ends where the sidecar last authored it. */
module GeometryConvergence {
  import opened RegistrationReplay
  import opened RegistryModel
  import opened RegistryInvariant
  import opened Sequences

  /** Every effect a run has emitted, in order. */
  function Log(ops: seq<Op>): seq<Effect> {
    if ops == [] then []
    else
      var front := ops[..|ops| - 1];
      Log(front) + Step(Run(EMPTY_REGISTRY, front), ops[|ops| - 1]).1
  }

  /** An effect that moves the host window of `x`. Visibility changes draw from the same counter
      but place nothing. */
  predicate Places(eff: Effect, x: nat) {
    eff.xid == x && eff.hostApplySeq != 0 && eff.kind != ApplyVisibility
  }

  // ---- the host ----

  /** One host window of a toplevel: the newest placement received, the restack that waits to be applied
      with the next one, the number of the last placement applied, the window itself, and the last restack
      applied to it. */
  datatype Host = Host(
    desiredSeq: nat,
    desired: Geometry,
    applySize: bool,
    desiredZ: ZOrder,
    appliedSeq: nat,
    window: Geometry,
    stacked: ZOrder)

  datatype HostEvent = Arrive(eff: Effect) | Drain

  /** A restack waits whatever its number; the rest of a placement is kept only if it is newer. */
  function HostStep(h: Host, x: nat, ev: HostEvent): Host {
    match ev
    case Arrive(eff) =>
      if !Places(eff, x) then h
      else
        var latched := h.(desiredZ := if eff.zOrder == KeepZ then h.desiredZ else eff.zOrder);
        if eff.hostApplySeq > h.desiredSeq
        then latched.(desiredSeq := eff.hostApplySeq, desired := eff.geometry, applySize := eff.applySize)
        else latched
    case Drain =>
      if h.desiredSeq > h.appliedSeq
      then h.(appliedSeq := h.desiredSeq,
              window := if h.applySize then h.desired else h.window.(x := h.desired.x, y := h.desired.y),
              stacked := if h.desiredZ == KeepZ then h.stacked else h.desiredZ,
              desiredZ := KeepZ)
      else h
  }

  function HostRun(h: Host, x: nat, events: seq<HostEvent>): Host {
    if events == [] then h
    else HostStep(HostRun(h, x, events[..|events| - 1]), x, events[|events| - 1])
  }

  /** The number issued last when the current representation of `x`, known by its epoch, came to be. */
  function Mark(ops: seq<Op>, x: nat): nat {
    if ops == [] then 0
    else
      var front, op := ops[..|ops| - 1], ops[|ops| - 1];
      var s := Run(EMPTY_REGISTRY, front);
      if EpochFor(Next(s, op), x) != EpochFor(s, x) then s.nextHostApplySeq else Mark(front, x)
  }

  /** A window that has seen no placement numbered after `mark`: a new one, or one that the toplevel
      had before. */
  predicate Behind(h: Host, mark: nat) {
    h.appliedSeq <= h.desiredSeq <= mark
  }

  // ---- the newest placement is the authored one ----

  predicate CarriesEntry(eff: Effect, e: Entry) {
    eff.geometry == e.geometry && eff.applySize == e.extentAuthoritative
  }

  /** `n` outranks every other placement of `x` in the log. */
  predicate Newest(log: seq<Effect>, x: nat, n: Effect) {
    n in log && Places(n, x) &&
    forall o | o in log && Places(o, x) :: o.hostApplySeq < n.hostApplySeq || o == n
  }

  predicate NumbersIssued(log: seq<Effect>, s: Registry) {
    forall eff | eff in log :: eff.hostApplySeq <= s.nextHostApplySeq
  }

  ghost predicate Authored(log: seq<Effect>, s: Registry, x: nat, mark: nat) {
    RegisteredFor(s, x) ==>
      exists n :: Newest(log, x, n) && n.hostApplySeq > mark && CarriesEntry(n, s.entries[x])
  }

  /** No placement of `x`, whose geometry and representation stay as they are. */
  predicate Silent(s: Registry, op: Op, x: nat) {
    (forall eff | eff in Step(s, op).1 :: !Places(eff, x)) &&
    (RegisteredFor(Next(s, op), x) ==>
       && RegisteredFor(s, x) && Next(s, op).entries[x].epoch == s.entries[x].epoch
       && Next(s, op).entries[x].geometry == s.entries[x].geometry
       && Next(s, op).entries[x].extentAuthoritative == s.entries[x].extentAuthoritative)
  }

  predicate Announces(s: Registry, op: Op, x: nat) {
    var (s', effs) := Step(s, op);
    && |effs| == 1 && Places(effs[0], x)
    && effs[0].hostApplySeq == s.nextHostApplySeq + 1
    && x in s'.entries && CarriesEntry(effs[0], s'.entries[x])
  }

  /** A transition either leaves the authored geometry of `x` and its representation alone, or
      announces the geometry with a fresh number. */
  lemma SilentOrAnnounces(s: Registry, op: Op, x: nat)
    ensures Silent(s, op, x) || Announces(s, op, x)
  {
    match op
    case Unregister(y, g) => UnregisterIsSilent(s, y, g, x);
    case Register(_, _, _, _, _, _, _, _) => RegisterSilentOrAnnounces(s, op, x);
    case Bind(_, _) => BindSilentOrAnnounces(s, op, x);
    case Update(_, _, _, _, _) => UpdateSilentOrAnnounces(s, op, x);
    case _ => OthersAreSilent(s, op, x);
  }

  lemma RegisterSilentOrAnnounces(s: Registry, op: Op, x: nat)
    requires op.Register?
    ensures Silent(s, op, x) || Announces(s, op, x)
  {
    if RegisterAdmitted(s, op.xid, op.generation, op.isPopup, op.owner) && op.xid == x {
      RegisterAnnounces(s, op);
    }
  }

  lemma RegisterAnnounces(s: Registry, op: Op)
    requires op.Register? && RegisterAdmitted(s, op.xid, op.generation, op.isPopup, op.owner)
    ensures Announces(s, op, op.xid)
  {
  }

  lemma BindSilentOrAnnounces(s: Registry, op: Op, x: nat)
    requires op.Bind?
    ensures Silent(s, op, x) || Announces(s, op, x)
  {
  }

  lemma UpdateSilentOrAnnounces(s: Registry, op: Op, x: nat)
    requires op.Update?
    ensures Silent(s, op, x) || Announces(s, op, x)
  {
  }

  lemma OthersAreSilent(s: Registry, op: Op, x: nat)
    requires op.Unbind? || op.Show? || op.Paint?
    ensures Silent(s, op, x)
  {
  }

  /** A transition numbers only from where the counter was, and at most once. */
  lemma NumbersAreFresh(s: Registry, op: Op)
    ensures s.nextHostApplySeq <= Next(s, op).nextHostApplySeq
    ensures NumbersIssued(Step(s, op).1, Next(s, op))
  {
    if op.Unregister? {
      UnregisterIsSilent(s, op.xid, op.generation, op.xid);
    } else if !op.Paint? {
      OneNumberIsFresh(s, op);
      assert Step(s, op).1 == [Step(s, op).1[0]];
    }
  }

  lemma OneNumberIsFresh(s: Registry, op: Op)
    requires !op.Unregister? && !op.Paint?
    ensures s.nextHostApplySeq <= Next(s, op).nextHostApplySeq
    ensures Step(s, op).1[0].hostApplySeq <= Next(s, op).nextHostApplySeq
  {
  }

  lemma CascadeIsUnnumbered(s: Registry, owner: nat, eff: Effect)
    requires eff in TakeOrphanedPopups(s, owner).1
    ensures eff.hostApplySeq == 0
  {
    var effs := TakeOrphanedPopups(s, owner).1;
    var i :| 0 <= i < |effs| && effs[i] == eff;
  }

  lemma UnregisterIsUnnumbered(s: Registry, y: nat, g: nat, eff: Effect)
    requires eff in Step(s, Unregister(y, g)).1
    ensures eff.hostApplySeq == 0
  {
    var (s', own) := UnregisterToplevel(s, y, g);
    if eff != own {
      CascadeIsUnnumbered(s', y, eff);
    }
  }

  lemma UnregisterKeepsOthers(s: Registry, y: nat, g: nat, x: nat)
    requires RegisteredFor(Next(s, Unregister(y, g)), x)
    ensures RegisteredFor(s, x) && Next(s, Unregister(y, g)).entries[x] == s.entries[x]
  {
    var s' := UnregisterToplevel(s, y, g).0;
    assert RegisteredFor(s', x) && s'.entries[x] == s.entries[x];
  }

  lemma UnregisterIsSilent(s: Registry, y: nat, g: nat, x: nat)
    ensures Silent(s, Unregister(y, g), x)
    ensures forall eff | eff in Step(s, Unregister(y, g)).1 :: eff.hostApplySeq == 0
  {
    forall eff | eff in Step(s, Unregister(y, g)).1
      ensures eff.hostApplySeq == 0
    {
      UnregisterIsUnnumbered(s, y, g, eff);
    }
    if RegisteredFor(Next(s, Unregister(y, g)), x) {
      UnregisterKeepsOthers(s, y, g, x);
    }
  }

  lemma {:induction false} NumbersAreIssued(ops: seq<Op>, x: nat)
    ensures NumbersIssued(Log(ops), Run(EMPTY_REGISTRY, ops))
    ensures Mark(ops, x) <= Run(EMPTY_REGISTRY, ops).nextHostApplySeq
  {
    if ops != [] {
      var front, op := ops[..|ops| - 1], ops[|ops| - 1];
      NumbersAreIssued(front, x);
      NumbersAreFresh(Run(EMPTY_REGISTRY, front), op);
    }
  }

  /** The newest placement of a registered toplevel carries the authored geometry, and was numbered
      since its current representation came to be. */
  lemma {:induction false} NewestIsAuthored(ops: seq<Op>, x: nat)
    ensures Authored(Log(ops), Run(EMPTY_REGISTRY, ops), x, Mark(ops, x))
  {
    if ops != [] {
      var front, op := ops[..|ops| - 1], ops[|ops| - 1];
      var s := Run(EMPTY_REGISTRY, front);
      NewestIsAuthored(front, x);
      NumbersAreIssued(front, x);
      SilentOrAnnounces(s, op, x);
      AuthoredOnce(Log(front), s, op, x, Mark(front, x));
      assert Log(ops) == Log(front) + Step(s, op).1;
    }
  }

  lemma AuthoredOnce(log: seq<Effect>, s: Registry, op: Op, x: nat, mark: nat)
    requires Authored(log, s, x, mark) && NumbersIssued(log, s) && mark <= s.nextHostApplySeq
    requires Silent(s, op, x) || Announces(s, op, x)
    ensures var mark' := if EpochFor(Next(s, op), x) != EpochFor(s, x) then s.nextHostApplySeq else mark;
            Authored(log + Step(s, op).1, Next(s, op), x, mark')
  {
    var effs, s' := Step(s, op).1, Next(s, op);
    if RegisteredFor(s', x) {
      if Silent(s, op, x) {
        var n :| Newest(log, x, n) && n.hostApplySeq > mark && CarriesEntry(n, s.entries[x]);
        assert Newest(log + effs, x, n) && CarriesEntry(n, s'.entries[x]);
      } else {
        assert effs[0] in log + effs;
        assert Newest(log + effs, x, effs[0]) && CarriesEntry(effs[0], s'.entries[x]);
      }
    }
  }

  // ---- delivery in any order ----

  /** What arrives comes from the log, and all placements of `x` numbered after `mark` arrive; order,
      repeats, drains and whatever arrives besides are free. */
  ghost predicate Delivers(events: seq<HostEvent>, log: seq<Effect>, x: nat, mark: nat) {
    && (forall ev | ev in events && ev.Arrive? :: ev.eff in log)
    && (forall eff | eff in log && Places(eff, x) && eff.hostApplySeq > mark :: Arrive(eff) in events)
  }

  /** The host holds the newest placement among those that have arrived. */
  ghost predicate HoldsNewest(h: Host, x: nat, events: seq<HostEvent>, mark: nat) {
    && (forall ev | ev in events && ev.Arrive? && Places(ev.eff, x) :: ev.eff.hostApplySeq <= h.desiredSeq)
    && (h.desiredSeq > mark ==> exists eff :: Arrive(eff) in events && Holds(h, x, eff))
  }

  predicate Holds(h: Host, x: nat, eff: Effect) {
    Places(eff, x) && eff.hostApplySeq == h.desiredSeq && eff.geometry == h.desired && eff.applySize == h.applySize
  }

  /** What the window shows after the last drain. */
  predicate ShowsApplied(h: Host, mark: nat) {
    h.appliedSeq <= h.desiredSeq &&
    (mark < h.appliedSeq == h.desiredSeq ==>
       h.window.x == h.desired.x && h.window.y == h.desired.y &&
       (h.applySize ==> h.window == h.desired))
  }

  lemma {:induction false} HostKeepsNewest(h: Host, x: nat, events: seq<HostEvent>, mark: nat)
    requires Behind(h, mark)
    ensures HoldsNewest(HostRun(h, x, events), x, events, mark)
    ensures ShowsApplied(HostRun(h, x, events), mark)
  {
    if events != [] {
      var front, ev := events[..|events| - 1], events[|events| - 1];
      HostKeepsNewest(h, x, front, mark);
      HostKeepsNewestOnce(HostRun(h, x, front), x, front, ev, mark);
      LastApart(events);
    }
  }

  lemma HostKeepsNewestOnce(h: Host, x: nat, events: seq<HostEvent>, ev: HostEvent, mark: nat)
    requires HoldsNewest(h, x, events, mark) && ShowsApplied(h, mark)
    ensures HoldsNewest(HostStep(h, x, ev), x, events + [ev], mark) && ShowsApplied(HostStep(h, x, ev), mark)
  {
    var h' := HostStep(h, x, ev);
    if h'.desiredSeq != h.desiredSeq {
      assert Arrive(ev.eff) in events + [ev] && Holds(h', x, ev.eff);
    } else if h.desiredSeq > mark {
      var eff :| Arrive(eff) in events && Holds(h, x, eff);
      assert Arrive(eff) in events + [ev] && Holds(h', x, eff);
    }
  }

  /** Convergence: after any run, a host window that stands for the current representation of a
      registered toplevel, given in any order what was placed since that representation came to be
      and then a drain, is at the authored position, and has the authored size if the sidecar has
      taken authority over it. */
  lemma HostConverges(ops: seq<Op>, x: nat, h: Host, events: seq<HostEvent>)
    requires Replay(ops, x).registered
    requires Behind(h, Mark(ops, x)) && Delivers(events, Log(ops), x, Mark(ops, x))
    ensures var said := Replay(ops, x);
            var window := HostRun(h, x, events + [Drain]).window;
            && window.x == said.geometry.x && window.y == said.geometry.y
            && (said.extentAuthoritative ==> window == said.geometry)
  {
    var s, mark := Run(EMPTY_REGISTRY, ops), Mark(ops, x);
    RegistryRecordsReplay(ops, x);
    NewestIsAuthored(ops, x);
    var n :| Newest(Log(ops), x, n) && n.hostApplySeq > mark && CarriesEntry(n, s.entries[x]);
    HostKeepsNewest(h, x, events, mark);
    var held := HostRun(h, x, events);
    assert Arrive(n) in events;
    var eff :| Arrive(eff) in events && Holds(held, x, eff);
    assert eff == n;
    HostKeepsNewestOnce(held, x, events, Drain, mark);
    assert (events + [Drain])[..|events + [Drain]| - 1] == events;
  }

  // ---- restacks ----

  predicate Restacks(eff: Effect, x: nat) {
    Places(eff, x) && eff.zOrder != KeepZ
  }

  predicate NewestRestack(log: seq<Effect>, x: nat, n: Effect) {
    n in log && Restacks(n, x) &&
    forall o | o in log && Restacks(o, x) :: o.hostApplySeq < n.hostApplySeq || o == n
  }

  lemma StepRestacks(s: Registry, op: Op, x: nat)
    ensures if op.Update? && op.xid == x && op.zOrder != KeepZ && Newer(s, x, op.generation)
            then var effs := Step(s, op).1;
                 && |effs| == 1 && Restacks(effs[0], x) && effs[0].zOrder == op.zOrder
                 && effs[0].hostApplySeq == s.nextHostApplySeq + 1
            else forall eff | eff in Step(s, op).1 :: !Restacks(eff, x)
  {
    if op.Unregister? {
      UnregisterIsSilent(s, op.xid, op.generation, x);
    }
  }

  /** Only an update that is heard and asks for it restacks, as it asks. */
  lemma OnlyUpdatesRestack(ops: seq<Op>, op: Op, x: nat)
    ensures var s := Run(EMPTY_REGISTRY, ops);
            if op.Update? && op.xid == x && op.zOrder != KeepZ && HeardAfter(ops, op)
            then var effs := Step(s, op).1;
                 && |effs| == 1 && Restacks(effs[0], x) && effs[0].zOrder == op.zOrder
                 && effs[0].hostApplySeq == s.nextHostApplySeq + 1
            else forall eff | eff in Step(s, op).1 :: !Restacks(eff, x)
  {
    var s := Run(EMPTY_REGISTRY, ops);
    StepRestacks(s, op, x);
    RegistryRecordsReplay(ops, op.xid);
    RegistryRecordsReplay(ops, OwnerOf(op));
    HeardExactly(s, op, Replay(ops, op.xid), Replay(ops, OwnerOf(op)));
  }

  lemma {:induction false} NewestRestackIsAuthored(ops: seq<Op>, x: nat)
    ensures Replay(ops, x).lastZOrder != KeepZ ==>
              exists n :: NewestRestack(Log(ops), x, n) && n.zOrder == Replay(ops, x).lastZOrder
  {
    if ops != [] {
      var front, op := ops[..|ops| - 1], ops[|ops| - 1];
      NewestRestackIsAuthored(front, x);
      NumbersAreIssued(front, x);
      OnlyUpdatesRestack(front, op, x);
      RestackOnce(Log(front), Step(Run(EMPTY_REGISTRY, front), op).1, x, Run(EMPTY_REGISTRY, front).nextHostApplySeq);
    }
  }

  lemma RestackOnce(log: seq<Effect>, effs: seq<Effect>, x: nat, last: nat)
    requires forall eff | eff in log :: eff.hostApplySeq <= last
    ensures |effs| == 1 && Restacks(effs[0], x) && effs[0].hostApplySeq == last + 1 ==>
              NewestRestack(log + effs, x, effs[0])
    ensures (forall eff | eff in effs :: !Restacks(eff, x)) ==>
              forall n | NewestRestack(log, x, n) :: NewestRestack(log + effs, x, n)
  {
    assert |effs| == 1 ==> effs[0] in log + effs;
  }

  predicate RestackArrives(ev: HostEvent, x: nat) {
    ev.Arrive? && Restacks(ev.eff, x)
  }

  /** Since the last restack arrived it waits, or it has been applied with a newer placement. */
  predicate Settling(h: Host, z: ZOrder, before: Host) {
    || (h.desiredZ == z && h.stacked == before.stacked && h.appliedSeq == before.appliedSeq)
    || (h.desiredZ == KeepZ && h.stacked == z && h.appliedSeq > before.appliedSeq)
  }

  lemma SettlingOnce(h: Host, x: nat, ev: HostEvent, z: ZOrder, before: Host)
    requires z != KeepZ && Settling(h, z, before) && !RestackArrives(ev, x)
    ensures Settling(HostStep(h, x, ev), z, before)
  {
  }

  lemma {:induction false} RestackSettles(h: Host, x: nat, events: seq<HostEvent>, i: nat)
    requires i < |events| && RestackArrives(events[i], x)
    requires forall j | i < j < |events| :: !RestackArrives(events[j], x)
    ensures Settling(HostRun(h, x, events), events[i].eff.zOrder, HostRun(h, x, events[..i]))
    decreases |events|
  {
    var front := events[..|events| - 1];
    if i == |front| {
      assert events[..i] == front;
    } else {
      assert front[..i] == events[..i];
      RestackSettles(h, x, front, i);
      SettlingOnce(HostRun(h, x, front), x, events[|events| - 1], events[i].eff.zOrder, HostRun(h, x, events[..i]));
    }
  }

  lemma DrainSettles(h: Host, x: nat, z: ZOrder, before: Host)
    requires z != KeepZ && Settling(h, z, before) && h.appliedSeq <= h.desiredSeq
    ensures var end := HostStep(h, x, Drain);
            if h.desiredSeq > before.appliedSeq then end.stacked == z && end.desiredZ == KeepZ
            else end.stacked == before.stacked && end.desiredZ == z
  {
  }

  lemma {:induction false} HostStaysOrdered(h: Host, x: nat, events: seq<HostEvent>)
    requires h.appliedSeq <= h.desiredSeq
    ensures HostRun(h, x, events).appliedSeq <= HostRun(h, x, events).desiredSeq
  {
    if events != [] {
      HostStaysOrdered(h, x, events[..|events| - 1]);
    }
  }

  lemma HostOneMore(h: Host, x: nat, events: seq<HostEvent>, ev: HostEvent)
    ensures HostRun(h, x, events + [ev]) == HostStep(HostRun(h, x, events), x, ev)
  {
    assert (events + [ev])[..|events|] == events;
  }

  /** Stacking: after any run, if the newest restack is the last one to arrive, then after a drain the window
      is stacked as the last update asked, exactly when a placement newer than those applied before it is
      there to carry it; otherwise it goes on waiting. */
  lemma StackingConvergesExactly(ops: seq<Op>, x: nat, h: Host, events: seq<HostEvent>, i: nat)
    requires Replay(ops, x).lastZOrder != KeepZ && h.appliedSeq <= h.desiredSeq
    requires i < |events| && events[i].Arrive? && NewestRestack(Log(ops), x, events[i].eff)
    requires forall j | i < j < |events| :: !RestackArrives(events[j], x)
    ensures var end, asked := HostRun(h, x, events + [Drain]), Replay(ops, x).lastZOrder;
            if HostRun(h, x, events).desiredSeq > HostRun(h, x, events[..i]).appliedSeq
            then end.stacked == asked && end.desiredZ == KeepZ
            else end.stacked == HostRun(h, x, events[..i]).stacked && end.desiredZ == asked
  {
    var asked := Replay(ops, x).lastZOrder;
    assert events[i].eff.zOrder == asked by {
      NewestRestackIsAuthored(ops, x);
    }
    RestackSettles(h, x, events, i);
    HostStaysOrdered(h, x, events);
    HostOneMore(h, x, events, Drain);
    DrainSettles(HostRun(h, x, events), x, asked, HostRun(h, x, events[..i]));
  }

  lemma LateRestackWaits(h: Host, x: nat, placed: Effect, restack: Effect)
    requires Places(placed, x) && placed.zOrder == KeepZ && Restacks(restack, x)
    requires h.appliedSeq <= h.desiredSeq < placed.hostApplySeq && restack.hostApplySeq < placed.hostApplySeq
    requires h.desiredZ == KeepZ
    ensures var first := HostStep(HostStep(h, x, Arrive(placed)), x, Drain);
            var end := HostStep(HostStep(first, x, Arrive(restack)), x, Drain);
            end.stacked == h.stacked && end.desiredZ == restack.zOrder
  {
  }

  /** The other case happens: a toplevel is registered, raised and promoted, and the promotion's placement
      reaches the new window before the raise. The raise is not carried out. */
  lemma RaiseBehindPromotionWaits(x: nat, surface: nat, geometry: Geometry, h: Host)
    requires x != 0 && h.appliedSeq == h.desiredSeq == 0 && h.desiredZ == KeepZ
    ensures var s := Next(EMPTY_REGISTRY, Register(x, 1, "", "", geometry, false, 0, 0));
            var raise := Update(x, 2, "", ZERO_GEOMETRY, Raise);
            var raised, placed := Step(s, raise).1[0], Step(Next(s, raise), Bind(x, surface)).1[0];
            var first := HostStep(HostStep(h, x, Arrive(placed)), x, Drain);
            var end := HostStep(HostStep(first, x, Arrive(raised)), x, Drain);
            Restacks(raised, x) && Places(placed, x) && end.stacked == h.stacked && end.desiredZ == Raise
  {
    var s := Next(EMPTY_REGISTRY, Register(x, 1, "", "", geometry, false, 0, 0));
    var raise := Update(x, 2, "", ZERO_GEOMETRY, Raise);
    StepRestacks(s, raise, x);
    LateRestackWaits(h, x, Step(Next(s, raise), Bind(x, surface)).1[0], Step(s, raise).1[0]);
  }

  /** A promotion starts afresh: the new surface window need be given nothing from before it. */
  lemma PromotionStartsAfresh(ops: seq<Op>, x: nat, surface: nat)
    requires AllNonzero(ops) && x != 0
    ensures Mark(ops + [Bind(x, surface)], x) == Run(EMPTY_REGISTRY, ops).nextHostApplySeq
  {
    var s, op := Run(EMPTY_REGISTRY, ops), Bind(x, surface);
    assert (ops + [op])[..|ops|] == ops;
    RunKeepsInv(EMPTY_REGISTRY, ops);
    assert x in s.entries ==> EntryOk(s, x);
    assert EpochFor(Next(s, op), x) == s.nextEpoch + 1;
  }

  /** While a toplevel stays registered, an authored resize is never taken back: every later
      placement sizes the window. */
  lemma {:induction false} ResizeSticks(s: Registry, ops: seq<Op>, x: nat)
    requires forall k | 0 <= k <= |ops| :: RegisteredFor(Run(s, ops[..k]), x)
    requires x in s.entries && s.entries[x].extentAuthoritative
    ensures RegisteredFor(Run(s, ops), x) && Run(s, ops).entries[x].extentAuthoritative
  {
    assert ops[..|ops|] == ops;
    if ops != [] {
      var front, op := ops[..|ops| - 1], ops[|ops| - 1];
      assert forall k | 0 <= k <= |front| :: front[..k] == ops[..k];
      ResizeSticks(s, front, x);
      ResizeSticksOnce(Run(s, front), op, x);
    }
  }

  lemma ResizeSticksOnce(s: Registry, op: Op, x: nat)
    requires RegisteredFor(s, x) && s.entries[x].extentAuthoritative
    requires RegisteredFor(Next(s, op), x)
    ensures Next(s, op).entries[x].extentAuthoritative
  {
  }
}
