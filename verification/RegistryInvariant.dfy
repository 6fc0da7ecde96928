/** What every transition keeps: the shape of an entry, and the uniqueness of the epochs and
    placeholder ids that are live at the same time. */
module RegistryInvariant {
  import opened RegistryModel

  ghost predicate EntryOk(s: Registry, x: nat)
    requires x in s.entries
  {
    var e := s.entries[x];
    && x != 0 && e.xid == x
    && (e.representation == Surface <==> e.surface != 0)
    && (e.representation == Placeholder <==> e.placeholderId != 0)
    && (e.surface == 0 ==> e.registered)
    && e.placeholderId <= s.nextPlaceholderId
    && 0 < e.epoch <= s.nextEpoch
  }

  ghost predicate Inv(s: Registry) {
    && (forall x | x in s.entries :: EntryOk(s, x))
    && (forall x, y | x in s.entries && y in s.entries && x != y ::
          s.entries[x].epoch != s.entries[y].epoch)
    && (forall x, y | x in s.entries && y in s.entries && x != y && s.entries[x].placeholderId != 0 ::
          s.entries[x].placeholderId != s.entries[y].placeholderId)
  }

  /** Counters only grow. */
  predicate Grows(s: Registry, s': Registry) {
    s.nextPlaceholderId <= s'.nextPlaceholderId && s.nextEpoch <= s'.nextEpoch &&
    s.nextHostApplySeq <= s'.nextHostApplySeq
  }

  /** Only the entry of `x` differs between the two states. */
  ghost predicate SameElsewhere(s: Registry, s': Registry, x: nat) {
    forall y | y != x :: (y in s.entries <==> y in s'.entries) &&
                         (y in s.entries ==> s.entries[y] == s'.entries[y])
  }

  /** The epoch of `x` is the one it had or freshly minted; likewise its placeholder id. */
  ghost predicate MintedOrKept(s: Registry, s': Registry, x: nat)
    requires x in s'.entries
  {
    var e' := s'.entries[x];
    && (e'.epoch > s.nextEpoch || (x in s.entries && e'.epoch == s.entries[x].epoch))
    && (e'.placeholderId > s.nextPlaceholderId || e'.placeholderId == 0 ||
        (x in s.entries && e'.placeholderId == s.entries[x].placeholderId))
  }

  lemma PutKeepsInv(s: Registry, s': Registry, x: nat)
    requires Inv(s) && Grows(s, s') && SameElsewhere(s, s', x)
    requires x in s'.entries && EntryOk(s', x) && MintedOrKept(s, s', x)
    ensures Inv(s')
  {
    forall y | y in s'.entries
      ensures EntryOk(s', y)
    {
      if y != x {
        assert EntryOk(s, y);
      }
    }
    forall y | y in s'.entries && y != x
      ensures s'.entries[y].epoch != s'.entries[x].epoch
      ensures s'.entries[x].placeholderId != 0 ==> s'.entries[y].placeholderId != s'.entries[x].placeholderId
    {
      assert EntryOk(s, y);
    }
  }

  lemma DropKeepsInv(s: Registry, gone: set<nat>)
    requires Inv(s)
    ensures Inv(s.(entries := s.entries - gone))
  {
    var s' := s.(entries := s.entries - gone);
    forall y | y in s'.entries
      ensures EntryOk(s', y)
    {
      assert EntryOk(s, y);
    }
  }

  lemma BindKeepsInv(s: Registry, x: nat, surface: nat)
    requires Inv(s) && surface != 0
    ensures Inv(BindSurface(s, x, surface).0)
  {
    if x != 0 {
      if x in s.entries {
        assert EntryOk(s, x);
      }
      PutKeepsInv(s, BindSurface(s, x, surface).0, x);
    }
  }

  lemma UnbindKeepsInv(s: Registry, x: nat, surface: nat)
    requires Inv(s) && surface != 0
    ensures Inv(UnbindSurface(s, x, surface).0)
  {
    if x != 0 && x in s.entries && s.entries[x].surface == surface {
      assert EntryOk(s, x);
      if s.entries[x].registered {
        PutKeepsInv(s, UnbindSurface(s, x, surface).0, x);
      } else {
        DropKeepsInv(s, {x});
      }
    }
  }

  lemma RegisterKeepsInv(s: Registry, op: Op)
    requires Inv(s) && op.Register?
    ensures Inv(Next(s, op))
  {
    if RegisterAdmitted(s, op.xid, op.generation, op.isPopup, op.owner) {
      if op.xid in s.entries {
        assert EntryOk(s, op.xid);
      }
      PutKeepsInv(s, Next(s, op), op.xid);
    }
  }

  lemma UpdateKeepsInv(s: Registry, x: nat, g: nat, role: string, geometry: Geometry, z: ZOrder)
    requires Inv(s)
    ensures Inv(UpdateToplevel(s, x, g, role, geometry, z).0)
  {
    if Newer(s, x, g) {
      assert EntryOk(s, x);
      PutKeepsInv(s, UpdateToplevel(s, x, g, role, geometry, z).0, x);
    }
  }

  lemma ShowKeepsInv(s: Registry, x: nat, g: nat, state: Visibility)
    requires Inv(s)
    ensures Inv(SetVisibility(s, x, g, state).0)
  {
    if Newer(s, x, g) {
      assert EntryOk(s, x);
      var s' := SetVisibility(s, x, g, state).0;
      assert s'.entries == s.entries[x := s.entries[x].(generation := g, visibility := state)];
      PutKeepsInv(s, s', x);
    }
  }

  lemma PaintKeepsInv(s: Registry, x: nat, g: nat, seqNo: nat)
    requires Inv(s)
    ensures Inv(CommitPaint(s, x, g, seqNo).0)
  {
    if PaintGate(s, x, g, seqNo) {
      assert EntryOk(s, x);
      PutKeepsInv(s, CommitPaint(s, x, g, seqNo).0, x);
    }
  }

  lemma UnregisterKeepsInv(s: Registry, x: nat, generation: nat)
    requires Inv(s)
    ensures Inv(UnregisterToplevel(s, x, generation).0)
  {
    if Newer(s, x, generation) {
      assert EntryOk(s, x);
      if s.entries[x].surface == 0 {
        DropKeepsInv(s, {x});
      } else {
        PutKeepsInv(s, UnregisterToplevel(s, x, generation).0, x);
      }
    }
  }

  lemma CountersOnlyGrow(s: Registry, op: Op)
    ensures Grows(s, Next(s, op))
  {
  }

  lemma TeardownKeepsInv(s: Registry, x: nat, g: nat)
    requires Inv(s)
    ensures Inv(Next(s, Unregister(x, g)))
  {
    UnregisterKeepsInv(s, x, g);
    var s' := UnregisterToplevel(s, x, g).0;
    DropKeepsInv(s', Orphans(s'.entries, x));
  }

  lemma StepKeepsInv(s: Registry, op: Op)
    requires Inv(s) && NonzeroHandles(op)
    ensures Inv(Next(s, op))
    ensures Grows(s, Next(s, op))
  {
    CountersOnlyGrow(s, op);
    match op
    case Bind(x, surface) => BindKeepsInv(s, x, surface);
    case Unbind(x, surface) => UnbindKeepsInv(s, x, surface);
    case Register(_, _, _, _, _, _, _, _) => RegisterKeepsInv(s, op);
    case Unregister(x, g) => TeardownKeepsInv(s, x, g);
    case Update(x, g, role, geometry, z) => UpdateKeepsInv(s, x, g, role, geometry, z);
    case Show(x, g, state) => ShowKeepsInv(s, x, g, state);
    case Paint(x, g, n) => PaintKeepsInv(s, x, g, n);
  }

  /** Every state reachable from a good one by whole transitions is good. */
  lemma {:induction false} RunKeepsInv(s: Registry, ops: seq<Op>)
    requires Inv(s) && AllNonzero(ops)
    ensures Inv(Run(s, ops))
    ensures Grows(s, Run(s, ops))
  {
    if ops != [] {
      var front := ops[..|ops| - 1];
      RunKeepsInv(s, front);
      StepKeepsInv(Run(s, front), ops[|ops| - 1]);
    }
  }

  /** The null handle, bound to a toplevel or unbound from one that a placeholder represents. */
  predicate MisusesNull(s: Registry, op: Op) {
    || (op.Bind? && op.xid != 0 && op.surface == 0)
    || (op.Unbind? && op.surface == 0 && op.xid in s.entries && s.entries[op.xid].representation == Placeholder)
  }

  lemma NullBindBreaksInv(s: Registry, x: nat)
    requires x != 0
    ensures !Inv(BindSurface(s, x, 0).0)
  {
    assert !EntryOk(BindSurface(s, x, 0).0, x);
  }

  lemma NullUnbindBreaksInvExactly(s: Registry, x: nat)
    requires Inv(s)
    ensures Inv(UnbindSurface(s, x, 0).0) <==> !MisusesNull(s, Unbind(x, 0))
  {
    if x in s.entries {
      assert EntryOk(s, x);
      var s' := UnbindSurface(s, x, 0).0;
      if s.entries[x].representation == Placeholder {
        assert !EntryOk(s', x);
      } else if s.entries[x].surface == 0 {
        PutKeepsInv(s, s', x);
      }
    }
  }

  /** What the transitions demand of their callers, exactly: handles are minted from 1, so a transition
      keeps the invariant if and only if it does not misuse the null handle. */
  lemma InvKeptExactlyUnlessNullMisused(s: Registry, op: Op)
    requires Inv(s)
    ensures Inv(Next(s, op)) <==> !MisusesNull(s, op)
  {
    if op.Bind? && op.surface == 0 {
      if op.xid != 0 {
        NullBindBreaksInv(s, op.xid);
      }
    } else if op.Unbind? && op.surface == 0 {
      NullUnbindBreaksInvExactly(s, op.xid);
    } else {
      StepKeepsInv(s, op);
    }
  }
}
