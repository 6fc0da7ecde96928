/** Live visibility. A hide or show is numbered like a placement and gated by a cell of its own in the
    host window. Registering a toplevel again makes it visible in the registry without such an effect,
    and a new host window starts out visible whatever the registry says: this is exactly when the two
    agree. */
module VisibilityConvergence {
  import opened RegistryModel
  import opened Sequences
  import Placements = GeometryConvergence

  predicate Shows(eff: Effect, x: nat) {
    eff.xid == x && eff.kind == ApplyVisibility
  }

  // ---- what a transition does to the window of a toplevel ----

  predicate HasWindow(s: Registry, x: nat) {
    x in s.entries && (s.entries[x].surface != 0 || s.entries[x].representation == Placeholder)
  }

  predicate Registers(s: Registry, op: Op, x: nat) {
    op.Register? && op.xid == x && RegisterAdmitted(s, x, op.generation, op.isPopup, op.owner)
  }

  /** The toplevel gets a new host window. */
  predicate Opens(s: Registry, op: Op, x: nat) {
    (op.Bind? && op.xid == x && x != 0) || (Registers(s, op, x) && !HasWindow(s, x))
  }

  /** It is registered again and keeps its window. */
  predicate Maps(s: Registry, op: Op, x: nat) {
    Registers(s, op, x) && HasWindow(s, x)
  }

  /** It is hidden or shown, with an effect. */
  predicate Changes(s: Registry, op: Op, x: nat) {
    op.Show? && op.xid == x && Newer(s, x, op.generation) && s.entries[x].visibility != op.state
  }

  lemma EntryFollows(s: Registry, op: Op, x: nat)
    requires x in Next(s, op).entries
    ensures var v := Next(s, op).entries[x].visibility;
            if Changes(s, op, x) then v == op.state
            else if Registers(s, op, x) then v == Visible
            else v == VisibilityFor(s, x) && (Opens(s, op, x) || x in s.entries)
  {
    if op.Register? {
      RegisterFollows(s, op, x);
    } else if op.Unregister? {
      UnregisterFollows(s, op, x);
    }
  }

  lemma RegisterFollows(s: Registry, op: Op, x: nat)
    requires op.Register? && x in Next(s, op).entries
    ensures if Registers(s, op, x) then Next(s, op).entries[x].visibility == Visible
            else x in s.entries && Next(s, op).entries[x] == s.entries[x]
  {
  }

  lemma UnregisterFollows(s: Registry, op: Op, x: nat)
    requires op.Unregister? && x in Next(s, op).entries
    ensures x in s.entries && Next(s, op).entries[x].visibility == s.entries[x].visibility
  {
    assert x in UnregisterToplevel(s, op.xid, op.generation).0.entries;
  }

  lemma EffectsFollow(s: Registry, op: Op, x: nat)
    ensures if Changes(s, op, x)
            then var effs := Step(s, op).1;
                 && |effs| == 1 && Shows(effs[0], x) && effs[0].visibility == op.state
                 && effs[0].hostApplySeq == s.nextHostApplySeq + 1
            else forall eff | eff in Step(s, op).1 :: !Shows(eff, x)
  {
    if op.Unregister? {
      UnregisterShowsNothing(s, op.xid, op.generation, x);
    }
  }

  lemma UnregisterShowsNothing(s: Registry, y: nat, g: nat, x: nat)
    ensures forall eff | eff in Step(s, Unregister(y, g)).1 :: !Shows(eff, x)
  {
    var (s', own) := UnregisterToplevel(s, y, g);
    forall eff | eff in Step(s, Unregister(y, g)).1
      ensures !Shows(eff, x)
    {
      if eff != own {
        CascadeShowsNothing(s', y, eff, x);
      }
    }
  }

  lemma CascadeShowsNothing(s: Registry, owner: nat, eff: Effect, x: nat)
    requires eff in TakeOrphanedPopups(s, owner).1
    ensures !Shows(eff, x)
  {
    var effs := TakeOrphanedPopups(s, owner).1;
    var i :| 0 <= i < |effs| && effs[i] == eff;
  }

  // ---- what the effects tell the window ----

  /** The number issued last when the current window of `x` was opened. */
  function Opening(ops: seq<Op>, x: nat): nat {
    if ops == [] then 0
    else
      var front, op := ops[..|ops| - 1], ops[|ops| - 1];
      var s := Run(EMPTY_REGISTRY, front);
      if Opens(s, op, x) then s.nextHostApplySeq else Opening(front, x)
  }

  /** The visibility last announced to the current window; a new one is visible. */
  function Announced(ops: seq<Op>, x: nat): Visibility {
    if ops == [] then Visible
    else
      var front, op := ops[..|ops| - 1], ops[|ops| - 1];
      var s := Run(EMPTY_REGISTRY, front);
      if Opens(s, op, x) then Visible else if Changes(s, op, x) then op.state else Announced(front, x)
  }

  predicate NewestShow(log: seq<Effect>, x: nat, mark: nat, n: Effect) {
    && n in log && Shows(n, x) && n.hostApplySeq > mark
    && forall o | o in log && Shows(o, x) :: o.hostApplySeq < n.hostApplySeq || o == n
  }

  /** The newest visibility effect numbered after `mark` says `v`; without one, `v` is the default. */
  ghost predicate Says(log: seq<Effect>, x: nat, mark: nat, v: Visibility) {
    || (v == Visible && forall eff | eff in log && Shows(eff, x) :: eff.hostApplySeq <= mark)
    || exists n :: NewestShow(log, x, mark, n) && n.visibility == v
  }

  lemma SaysOnce(log: seq<Effect>, s: Registry, op: Op, x: nat, mark: nat, v: Visibility)
    requires Says(log, x, mark, v) && mark <= s.nextHostApplySeq
    requires forall eff | eff in log :: eff.hostApplySeq <= s.nextHostApplySeq
    ensures Says(log + Step(s, op).1, x, if Opens(s, op, x) then s.nextHostApplySeq else mark,
                 if Opens(s, op, x) then Visible else if Changes(s, op, x) then op.state else v)
  {
    var effs := Step(s, op).1;
    EffectsFollow(s, op, x);
    if Changes(s, op, x) {
      assert effs[0] in log + effs;
      assert NewestShow(log + effs, x, mark, effs[0]);
    } else if !Opens(s, op, x) {
      if n :| NewestShow(log, x, mark, n) && n.visibility == v {
        assert NewestShow(log + effs, x, mark, n);
      }
    }
  }

  lemma {:induction false} OpeningIsIssued(ops: seq<Op>, x: nat)
    ensures Opening(ops, x) <= Run(EMPTY_REGISTRY, ops).nextHostApplySeq
  {
    if ops != [] {
      var front, op := ops[..|ops| - 1], ops[|ops| - 1];
      OpeningIsIssued(front, x);
      Placements.NumbersAreFresh(Run(EMPTY_REGISTRY, front), op);
    }
  }

  /** After every run what was announced is what the newest effect since the window's opening says. */
  lemma {:induction false} AnnouncedIsNewest(ops: seq<Op>, x: nat)
    ensures Says(Placements.Log(ops), x, Opening(ops, x), Announced(ops, x))
  {
    if ops != [] {
      var front, op := ops[..|ops| - 1], ops[|ops| - 1];
      AnnouncedIsNewest(front, x);
      OpeningIsIssued(front, x);
      Placements.NumbersAreIssued(front, x);
      SaysOnce(Placements.Log(front), Run(EMPTY_REGISTRY, front), op, x, Opening(front, x), Announced(front, x));
    }
  }

  // ---- the window's cell ----

  datatype Cell = Cell(seqNo: nat, state: Visibility)

  const NEW_CELL := Cell(0, Visible)

  function Arrive(c: Cell, eff: Effect): Cell {
    if eff.hostApplySeq <= c.seqNo then c else Cell(eff.hostApplySeq, eff.visibility)
  }

  function ArriveAll(c: Cell, effs: seq<Effect>): Cell {
    if effs == [] then c else Arrive(ArriveAll(c, effs[..|effs| - 1]), effs[|effs| - 1])
  }

  /** The window gets the visibility effects numbered since its opening, in any order and repeated. */
  ghost predicate Delivers(effs: seq<Effect>, log: seq<Effect>, x: nat, mark: nat) {
    forall eff :: eff in effs <==> eff in log && Shows(eff, x) && eff.hostApplySeq > mark
  }

  lemma {:induction false} CellKeepsNewest(effs: seq<Effect>)
    requires forall eff | eff in effs :: eff.hostApplySeq > 0
    ensures forall eff | eff in effs :: eff.hostApplySeq <= ArriveAll(NEW_CELL, effs).seqNo
    ensures var c := ArriveAll(NEW_CELL, effs);
            if effs == [] then c == NEW_CELL
            else exists eff :: eff in effs && eff.hostApplySeq == c.seqNo && eff.visibility == c.state
  {
    if effs != [] {
      var front, last := effs[..|effs| - 1], effs[|effs| - 1];
      CellKeepsNewest(front);
      LastApart(effs);
      assert last in effs;
      var c := ArriveAll(NEW_CELL, front);
      if last.hostApplySeq <= c.seqNo {
        var eff :| eff in front && eff.hostApplySeq == c.seqNo && eff.visibility == c.state;
        assert eff in effs;
      }
    }
  }

  /** However the effects arrive, the window is left with what was announced. */
  lemma CellConverges(ops: seq<Op>, x: nat, effs: seq<Effect>)
    requires Delivers(effs, Placements.Log(ops), x, Opening(ops, x))
    ensures ArriveAll(NEW_CELL, effs).state == Announced(ops, x)
  {
    var log, mark := Placements.Log(ops), Opening(ops, x);
    AnnouncedIsNewest(ops, x);
    CellKeepsNewest(effs);
    if n :| NewestShow(log, x, mark, n) && n.visibility == Announced(ops, x) {
      assert n in effs;
      var eff :| eff in effs && eff.hostApplySeq == ArriveAll(NEW_CELL, effs).seqNo &&
                 eff.visibility == ArriveAll(NEW_CELL, effs).state;
      assert eff == n;
    }
  }

  // ---- exactly when it is what the registry says ----

  function Before(ops: seq<Op>, i: nat): Registry
    requires i <= |ops|
  {
    Run(EMPTY_REGISTRY, ops[..i])
  }

  predicate OpensAt(ops: seq<Op>, i: nat, x: nat) {
    i < |ops| && Opens(Before(ops, i), ops[i], x)
  }

  predicate MapsAt(ops: seq<Op>, i: nat, x: nat) {
    i < |ops| && Maps(Before(ops, i), ops[i], x)
  }

  predicate ChangesAt(ops: seq<Op>, i: nat, x: nat) {
    i < |ops| && Changes(Before(ops, i), ops[i], x)
  }

  /** Its window was told at `j` not to be visible, and nothing else since. */
  ghost predicate HiddenAt(ops: seq<Op>, x: nat, j: nat) {
    && ChangesAt(ops, j, x) && ops[j].state != Visible
    && forall i: nat | j < i :: !OpensAt(ops, i, x) && !ChangesAt(ops, i, x)
  }

  ghost predicate Concealed(ops: seq<Op>, x: nat) {
    exists j: nat :: HiddenAt(ops, x, j)
  }

  /** It was registered again after that: visible in the registry, not told so. */
  ghost predicate MappedWhileHidden(ops: seq<Op>, x: nat) {
    exists j: nat, k: nat :: j < k && HiddenAt(ops, x, j) && MapsAt(ops, k, x)
  }

  /** A surface was bound at `k` to a toplevel that is not visible, and nothing has been said since. */
  ghost predicate BoundHiddenAt(ops: seq<Op>, x: nat, k: nat) {
    && OpensAt(ops, k, x) && ops[k].Bind? && VisibilityFor(Before(ops, k), x) != Visible
    && forall i: nat | k < i :: !OpensAt(ops, i, x) && !ChangesAt(ops, i, x) && !MapsAt(ops, i, x)
  }

  ghost predicate BoundWhileHidden(ops: seq<Op>, x: nat) {
    exists k: nat :: BoundHiddenAt(ops, x, k)
  }

  lemma AtOneMore(ops: seq<Op>, op: Op, i: nat, x: nat)
    ensures i != |ops| ==>
              && (OpensAt(ops + [op], i, x) <==> OpensAt(ops, i, x))
              && (MapsAt(ops + [op], i, x) <==> MapsAt(ops, i, x))
              && (ChangesAt(ops + [op], i, x) <==> ChangesAt(ops, i, x))
    ensures i < |ops| ==> (ops + [op])[i] == ops[i] && Before(ops + [op], i) == Before(ops, i)
    ensures (ops + [op])[|ops|] == op && Before(ops + [op], |ops|) == Run(EMPTY_REGISTRY, ops)
  {
    assert (ops + [op])[..|ops|] == ops;
    if i < |ops| {
      assert (ops + [op])[..i] == ops[..i];
    }
  }

  lemma HiddenAtOneMore(ops: seq<Op>, op: Op, x: nat, j: nat)
    ensures var s := Run(EMPTY_REGISTRY, ops);
            && (j < |ops| ==> (HiddenAt(ops + [op], x, j)
                               <==> HiddenAt(ops, x, j) && !Opens(s, op, x) && !Changes(s, op, x)))
            && (j == |ops| ==> (HiddenAt(ops + [op], x, j) <==> Changes(s, op, x) && op.state != Visible))
  {
    var more := ops + [op];
    AtOneMore(ops, op, j, x);
    forall i: nat
      ensures i != |ops| ==> (OpensAt(more, i, x) <==> OpensAt(ops, i, x))
      ensures i != |ops| ==> (ChangesAt(more, i, x) <==> ChangesAt(ops, i, x))
    {
      AtOneMore(ops, op, i, x);
    }
    assert OpensAt(more, |ops|, x) <==> Opens(Run(EMPTY_REGISTRY, ops), op, x);
    assert ChangesAt(more, |ops|, x) <==> Changes(Run(EMPTY_REGISTRY, ops), op, x);
    assert !OpensAt(ops, |ops|, x) && !ChangesAt(ops, |ops|, x);
  }

  lemma ConcealedOneMore(ops: seq<Op>, op: Op, x: nat)
    ensures var s := Run(EMPTY_REGISTRY, ops);
            Concealed(ops + [op], x)
            <==> if Opens(s, op, x) then false
                 else if Changes(s, op, x) then op.state != Visible
                 else Concealed(ops, x)
  {
    HiddenAtOneMore(ops, op, x, |ops|);
    if j: nat :| HiddenAt(ops, x, j) {
      HiddenAtOneMore(ops, op, x, j);
    }
    if j: nat :| HiddenAt(ops + [op], x, j) {
      HiddenAtOneMore(ops, op, x, j);
    }
  }

  lemma MappedOneMore(ops: seq<Op>, op: Op, x: nat)
    ensures var s := Run(EMPTY_REGISTRY, ops);
            MappedWhileHidden(ops + [op], x)
            <==> if Opens(s, op, x) || Changes(s, op, x) then false
                 else if Maps(s, op, x) then Concealed(ops, x)
                 else MappedWhileHidden(ops, x)
  {
    var s, more := Run(EMPTY_REGISTRY, ops), ops + [op];
    AtOneMore(ops, op, |ops|, x);
    if j: nat, k: nat :| j < k && HiddenAt(more, x, j) && MapsAt(more, k, x) {
      HiddenAtOneMore(ops, op, x, j);
      AtOneMore(ops, op, k, x);
    }
    if !Opens(s, op, x) && !Changes(s, op, x) {
      if j: nat :| HiddenAt(ops, x, j) {
        HiddenAtOneMore(ops, op, x, j);
        assert Maps(s, op, x) ==> MapsAt(more, |ops|, x);
      }
      if j: nat, k: nat :| j < k && HiddenAt(ops, x, j) && MapsAt(ops, k, x) {
        HiddenAtOneMore(ops, op, x, j);
        AtOneMore(ops, op, k, x);
      }
    }
  }

  lemma BoundAtOneMore(ops: seq<Op>, op: Op, x: nat, k: nat)
    ensures var s := Run(EMPTY_REGISTRY, ops);
            && (k < |ops| ==> (BoundHiddenAt(ops + [op], x, k)
                               <==> && BoundHiddenAt(ops, x, k) && !Opens(s, op, x) && !Changes(s, op, x)
                                    && !Maps(s, op, x)))
            && (k == |ops| ==> (BoundHiddenAt(ops + [op], x, k)
                                <==> Opens(s, op, x) && op.Bind? && VisibilityFor(s, x) != Visible))
  {
    var more := ops + [op];
    AtOneMore(ops, op, k, x);
    forall i: nat
      ensures i != |ops| ==> (OpensAt(more, i, x) <==> OpensAt(ops, i, x))
      ensures i != |ops| ==> (ChangesAt(more, i, x) <==> ChangesAt(ops, i, x))
      ensures i != |ops| ==> (MapsAt(more, i, x) <==> MapsAt(ops, i, x))
    {
      AtOneMore(ops, op, i, x);
    }
    assert OpensAt(more, |ops|, x) <==> Opens(Run(EMPTY_REGISTRY, ops), op, x);
    assert ChangesAt(more, |ops|, x) <==> Changes(Run(EMPTY_REGISTRY, ops), op, x);
    assert MapsAt(more, |ops|, x) <==> Maps(Run(EMPTY_REGISTRY, ops), op, x);
  }

  lemma BoundOneMore(ops: seq<Op>, op: Op, x: nat)
    ensures var s := Run(EMPTY_REGISTRY, ops);
            BoundWhileHidden(ops + [op], x)
            <==> if Opens(s, op, x) then op.Bind? && VisibilityFor(s, x) != Visible
                 else !Changes(s, op, x) && !Maps(s, op, x) && BoundWhileHidden(ops, x)
  {
    BoundAtOneMore(ops, op, x, |ops|);
    if k: nat :| BoundHiddenAt(ops, x, k) {
      BoundAtOneMore(ops, op, x, k);
    }
    if k: nat :| BoundHiddenAt(ops + [op], x, k) {
      BoundAtOneMore(ops, op, x, k);
    }
  }

  /** What was announced and what the registry has for a toplevel, as the history tells it. */
  ghost predicate Accounted(ops: seq<Op>, x: nat) {
    var s, told := Run(EMPTY_REGISTRY, ops), Announced(ops, x);
    && (Concealed(ops, x) <==> told != Visible)
    && (x in s.entries ==>
          var v := s.entries[x].visibility;
          && (MappedWhileHidden(ops, x) <==> told != Visible && v == Visible)
          && (BoundWhileHidden(ops, x) <==> told == Visible && v != Visible)
          && (told == v || told == Visible || v == Visible))
  }

  lemma AccountedOnce(ops: seq<Op>, op: Op, x: nat)
    requires Accounted(ops, x)
    ensures Accounted(ops + [op], x)
  {
    var s := Run(EMPTY_REGISTRY, ops);
    assert (ops + [op])[..|ops|] == ops;
    ConcealedOneMore(ops, op, x);
    MappedOneMore(ops, op, x);
    BoundOneMore(ops, op, x);
    if x in Next(s, op).entries {
      EntryFollows(s, op, x);
    }
  }

  lemma {:induction false} RunsAreAccounted(ops: seq<Op>, x: nat)
    ensures Accounted(ops, x)
  {
    if ops != [] {
      RunsAreAccounted(ops[..|ops| - 1], x);
      AccountedOnce(ops[..|ops| - 1], ops[|ops| - 1], x);
      LastApart(ops);
    }
  }

  /** After every run, and any delivery of its effects, the window of a toplevel is told what the registry
      has for it, if and only if the toplevel was neither registered again after its window was hidden
      nor given a surface while it was not visible, with no word to the window since. */
  lemma VisibilityAgreesExactly(ops: seq<Op>, x: nat, effs: seq<Effect>)
    requires x in Run(EMPTY_REGISTRY, ops).entries
    requires Delivers(effs, Placements.Log(ops), x, Opening(ops, x))
    ensures ArriveAll(NEW_CELL, effs).state == Run(EMPTY_REGISTRY, ops).entries[x].visibility
            <==> !MappedWhileHidden(ops, x) && !BoundWhileHidden(ops, x)
  {
    CellConverges(ops, x, effs);
    RunsAreAccounted(ops, x);
  }

  lemma RunThree(a: Op, b: Op, c: Op)
    ensures Run(EMPTY_REGISTRY, [a, b, c]) == Next(Next(Next(EMPTY_REGISTRY, a), b), c)
  {
    assert [a, b, c] == [] + [a] + [b] + [c];
    RunOneMore(EMPTY_REGISTRY, [], a);
    RunOneMore(EMPTY_REGISTRY, [] + [a], b);
    RunOneMore(EMPTY_REGISTRY, [] + [a] + [b], c);
  }

  /** Both happen: a hidden toplevel is registered again, or bound to a surface. */
  lemma HiddenIsForgotten(x: nat, g: nat, geometry: Geometry, surface: nat)
    requires x != 0
    ensures var register, conceal := Register(x, g, "", "", geometry, false, 0, 0), Show(x, g + 1, Hidden);
            var again := Register(x, g + 2, "", "", geometry, false, 0, 0);
            && MappedWhileHidden([register, conceal, again], x)
            && BoundWhileHidden([register, conceal, Bind(x, surface)], x)
            && x in Run(EMPTY_REGISTRY, [register, conceal, again]).entries
            && x in Run(EMPTY_REGISTRY, [register, conceal, Bind(x, surface)]).entries
  {
    var register, conceal := Register(x, g, "", "", geometry, false, 0, 0), Show(x, g + 1, Hidden);
    var again, bind := Register(x, g + 2, "", "", geometry, false, 0, 0), Bind(x, surface);
    var s1 := Next(EMPTY_REGISTRY, register);
    var s2 := Next(s1, conceal);
    RunThree(register, conceal, again);
    RunThree(register, conceal, bind);
    assert Run(EMPTY_REGISTRY, [] + [register]) == s1 by {
      RunOneMore(EMPTY_REGISTRY, [], register);
    }
    assert Run(EMPTY_REGISTRY, [] + [register] + [conceal]) == s2 by {
      RunOneMore(EMPTY_REGISTRY, [] + [register], conceal);
    }
    assert Changes(s1, conceal, x) && Maps(s2, again, x) && VisibilityFor(s2, x) == Hidden;
    ConcealedOneMore([] + [register], conceal, x);
    MappedOneMore([] + [register] + [conceal], again, x);
    BoundOneMore([] + [register] + [conceal], bind, x);
    assert [register, conceal, again] == [] + [register] + [conceal] + [again];
    assert [register, conceal, bind] == [] + [register] + [conceal] + [bind];
  }
}
