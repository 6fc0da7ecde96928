/** Popup ownership over all runs: every popup hangs off a registered, non-popup toplevel, and the
    teardown of an owner takes its popups along. */
module PopupOwnership {
  import opened RegistryModel
  import opened RegistryInvariant

  /** Every popup entry's owner is a registered, non-popup toplevel. */
  ghost predicate Owned(s: Registry) {
    forall x | x in s.entries && s.entries[x].isPopup :: OwnerLive(s, s.entries[x].ownerXid)
  }

  /** Some popup other than `x` itself hangs off `x`. */
  ghost predicate OwnsAPopup(s: Registry, x: nat) {
    exists y :: y != x && y in s.entries && s.entries[y].isPopup && s.entries[y].ownerXid == x
  }

  /** The one transition that can strand a popup: a live owner, or a would-be owner of itself, is
      re-registered as a popup. */
  ghost predicate Strands(s: Registry, op: Op) {
    op.Register? && RegisterAdmitted(s, op.xid, op.generation, op.isPopup, op.owner) && op.isPopup &&
    (OwnsAPopup(s, op.xid) || op.owner == op.xid)
  }

  /** Ownership survives a transition exactly when the transition is not such a re-registration. */
  lemma OwnershipKeptExactlyUnlessStranded(s: Registry, op: Op)
    requires Inv(s) && Owned(s) && NonzeroHandles(op)
    ensures Owned(Next(s, op)) <==> !Strands(s, op)
  {
    match op
    case Register(_, _, _, _, _, _, _, _) =>
      if Strands(s, op) {
        StrandingLosesAnOwner(s, op);
      } else {
        RegisterKeepsOwned(s, op);
      }
    case Unregister(x, g) => UnregisterKeepsOwned(s, x, g);
    case _ => PlainStepKeepsOwned(s, op);
  }

  lemma PlainStepKeepsOwned(s: Registry, op: Op)
    requires Inv(s) && Owned(s) && !op.Register? && !op.Unregister?
    ensures Owned(Next(s, op))
  {
    var s' := Next(s, op);
    forall y | y in s'.entries && s'.entries[y].isPopup
      ensures OwnerLive(s', s'.entries[y].ownerXid)
    {
      PlainStepMakesNoPopup(s, op, y);
      PlainStepKeepsOwners(s, op, s.entries[y].ownerXid);
    }
  }

  lemma PlainStepMakesNoPopup(s: Registry, op: Op, y: nat)
    requires !op.Register? && !op.Unregister?
    requires y in Next(s, op).entries && Next(s, op).entries[y].isPopup
    ensures y in s.entries && s.entries[y].isPopup && s.entries[y].ownerXid == Next(s, op).entries[y].ownerXid
  {
  }

  lemma PlainStepKeepsOwners(s: Registry, op: Op, owner: nat)
    requires !op.Register? && !op.Unregister? && OwnerLive(s, owner)
    ensures OwnerLive(Next(s, op), owner)
  {
  }

  lemma StrandingLosesAnOwner(s: Registry, op: Op)
    requires Strands(s, op)
    ensures !Owned(Next(s, op))
  {
    var s' := Next(s, op);
    assert !OwnerLive(s', op.xid);
    if op.owner == op.xid {
      assert s'.entries[op.xid].isPopup && s'.entries[op.xid].ownerXid == op.xid;
    } else {
      var y :| y != op.xid && y in s.entries && s.entries[y].isPopup && s.entries[y].ownerXid == op.xid;
      assert s'.entries[y] == s.entries[y];
    }
  }

  lemma RegisterKeepsOwner(s: Registry, op: Op, owner: nat)
    requires op.Register? && OwnerLive(s, owner) && (owner == op.xid ==> !op.isPopup)
    ensures OwnerLive(Next(s, op), owner)
  {
  }

  /** A popup after a registration was one before, or is the one registered under a live owner. */
  lemma RegisterMakesOnePopup(s: Registry, op: Op, y: nat)
    requires op.Register? && y in Next(s, op).entries && Next(s, op).entries[y].isPopup
    ensures var owner := Next(s, op).entries[y].ownerXid;
            || (y in s.entries && s.entries[y].isPopup && s.entries[y].ownerXid == owner && Next(s, op) == s)
            || (y == op.xid && op.isPopup && owner == op.owner && OwnerLive(s, owner))
            || (y != op.xid && y in s.entries && s.entries[y] == Next(s, op).entries[y])
  {
  }

  lemma RegisterKeepsOwned(s: Registry, op: Op)
    requires Owned(s) && op.Register? && !Strands(s, op)
    ensures Owned(Next(s, op))
  {
    var s' := Next(s, op);
    if s' != s {
      forall y | y in s'.entries && s'.entries[y].isPopup
        ensures OwnerLive(s', s'.entries[y].ownerXid)
      {
        RegisterMakesOnePopup(s, op, y);
        RegisterKeepsOwner(s, op, s'.entries[y].ownerXid);
      }
    }
  }

  lemma UnregisterMakesNoPopup(s: Registry, x: nat, g: nat, y: nat)
    requires y in Next(s, Unregister(x, g)).entries && Next(s, Unregister(x, g)).entries[y].isPopup
    ensures y in s.entries && s.entries[y].isPopup
    ensures var owner := Next(s, Unregister(x, g)).entries[y].ownerXid;
            s.entries[y].ownerXid == owner && (Newer(s, x, g) ==> owner != x)
  {
    var s' := UnregisterToplevel(s, x, g).0;
    assert y in s'.entries && s'.entries[y].isPopup;
    if Newer(s, x, g) {
      TeardownLeavesNoOrphan(s, x, g);
      assert y !in Orphans(Next(s, Unregister(x, g)).entries, x);
    }
  }

  lemma UnregisterKeepsOwner(s: Registry, x: nat, g: nat, owner: nat)
    requires OwnerLive(s, owner) && (Newer(s, x, g) ==> owner != x)
    ensures OwnerLive(Next(s, Unregister(x, g)), owner)
  {
  }

  lemma UnregisterKeepsOwned(s: Registry, x: nat, g: nat)
    requires Inv(s) && Owned(s)
    ensures Owned(Next(s, Unregister(x, g)))
  {
    var s' := Next(s, Unregister(x, g));
    forall y | y in s'.entries && s'.entries[y].isPopup
      ensures OwnerLive(s', s'.entries[y].ownerXid)
    {
      UnregisterMakesNoPopup(s, x, g, y);
      UnregisterKeepsOwner(s, x, g, s.entries[y].ownerXid);
    }
  }

  /** No operation of the run strands a popup. */
  ghost predicate NeverStrands(s: Registry, ops: seq<Op>) {
    forall k | 0 <= k < |ops| :: !Strands(Run(s, ops[..k]), ops[k])
  }

  /** Over all runs that never re-register a live owner as a popup, every popup is owned. */
  lemma {:induction false} PopupsAreOwned(ops: seq<Op>)
    requires AllNonzero(ops) && NeverStrands(EMPTY_REGISTRY, ops)
    ensures Owned(Run(EMPTY_REGISTRY, ops))
  {
    if ops != [] {
      var front, op := ops[..|ops| - 1], ops[|ops| - 1];
      assert op in ops;
      assert forall k | 0 <= k < |front| :: front[..k] == ops[..k] && front[k] == ops[k];
      PopupsAreOwned(front);
      RunKeepsInv(EMPTY_REGISTRY, front);
      OwnershipKeptExactlyUnlessStranded(Run(EMPTY_REGISTRY, front), op);
    }
  }

  /** A run that strands a popup: `b` pops up over `a`, and then `a` becomes a popup of `c`. */
  lemma StrandingIsReachable(a: nat, b: nat, c: nat, g: nat, geometry: Geometry)
    requires a != b && b != c && a != c && a != 0 && b != 0 && c != 0
    ensures !Owned(Run(EMPTY_REGISTRY, [Register(a, g, "", "", geometry, false, 0, 0),
                                        Register(b, g, "", "", geometry, true, a, 0),
                                        Register(c, g, "", "", geometry, false, 0, 0),
                                        Register(a, g + 1, "", "", geometry, true, c, 0)]))
  {
    var owner, popup := Register(a, g, "", "", geometry, false, 0, 0), Register(b, g, "", "", geometry, true, a, 0);
    var other, again := Register(c, g, "", "", geometry, false, 0, 0), Register(a, g + 1, "", "", geometry, true, c, 0);
    assert [owner, popup, other, again] == [] + [owner] + [popup] + [other] + [again];
    RunOneMore(EMPTY_REGISTRY, [], owner);
    RunOneMore(EMPTY_REGISTRY, [] + [owner], popup);
    RunOneMore(EMPTY_REGISTRY, [] + [owner] + [popup], other);
    RunOneMore(EMPTY_REGISTRY, [] + [owner] + [popup] + [other], again);
    var s1 := Next(EMPTY_REGISTRY, owner);
    var s2 := Next(s1, popup);
    var s3 := Next(s2, other);
    assert OwnerLive(s1, a);
    assert s2.entries[b].isPopup && s2.entries[b].ownerXid == a && s2.entries[a] == s1.entries[a];
    assert s3.entries[b] == s2.entries[b] && s3.entries[a] == s1.entries[a] && OwnerLive(s3, c);
    assert Strands(s3, again);
    StrandingLosesAnOwner(s3, again);
  }

  /** The effect reports one popup entry: a destroy of its placeholder if it has one. */
  predicate Reports(s: Registry, eff: Effect, x: nat) {
    x in s.entries && eff.xid == x && eff.applied && eff.isPopup && eff.ownerXid == s.entries[x].ownerXid &&
    if s.entries[x].representation == Placeholder
    then eff.kind == DestroyPlaceholder && eff.placeholderId == s.entries[x].placeholderId
    else eff.kind == NoHostWork
  }

  /** The cascade removes exactly the popups of the owner, and reports each of them exactly once, in
      ascending order; the placeholder windows among them are exactly the destroy effects. */
  lemma CascadeReportsEachOrphanOnce(s: Registry, owner: nat)
    requires Inv(s) && owner != 0
    ensures TakeOrphanedPopups(s, owner).0.entries.Keys == s.entries.Keys - Orphans(s.entries, owner)
    ensures var effs := TakeOrphanedPopups(s, owner).1;
            && (forall i, j | 0 <= i < j < |effs| :: effs[i].xid < effs[j].xid)
            && (forall i | 0 <= i < |effs| ::
                  effs[i].xid in Orphans(s.entries, owner) && Reports(s, effs[i], effs[i].xid))
            && (forall x | x in Orphans(s.entries, owner) :: exists i :: 0 <= i < |effs| && Reports(s, effs[i], x))
  {
    var orphans := Orphans(s.entries, owner);
    var xids := Ascending(orphans);
    var effs := TakeOrphanedPopups(s, owner).1;
    forall i | 0 <= i < |effs|
      ensures effs[i].xid == xids[i] && xids[i] in orphans && Reports(s, effs[i], xids[i])
    {
      assert xids[i] in xids;
      assert EntryOk(s, xids[i]);
    }
    forall x | x in orphans
      ensures exists i :: 0 <= i < |effs| && Reports(s, effs[i], x)
    {
      var i :| 0 <= i < |xids| && xids[i] == x;
      assert Reports(s, effs[i], x);
    }
  }

  /** The cascade of an applied teardown leaves no popup of that owner behind. */
  lemma TeardownLeavesNoOrphan(s: Registry, x: nat, g: nat)
    requires Newer(s, x, g)
    ensures Orphans(Next(s, Unregister(x, g)).entries, x) == {}
  {
  }
}
