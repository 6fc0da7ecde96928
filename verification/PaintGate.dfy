/** Chrome paint: a paint is accepted, painted off-lock, then committed. No ABA: a commit that
    succeeds still finds the placeholder that was accepted. */
module PaintGate {
  import opened RegistryModel
  import Said = RegistrationReplay
  import opened RegistryInvariant

  /** No sidecar operation for `x` carries generation `g`. */
  predicate NeverRepeats(ops: seq<Op>, x: nat, g: nat) {
    forall op | op in ops && IsSidecarOp(op) && op.xid == x :: op.generation != g
  }

  /** The placeholder `id` is the only one a paint of generation `g` can reach. */
  ghost predicate OnlyReaches(s: Registry, x: nat, g: nat, id: nat) {
    x in s.entries && s.entries[x].representation == Placeholder && s.entries[x].generation == g ==>
      s.entries[x].placeholderId == id
  }

  lemma StepOnlyReaches(s: Registry, op: Op, x: nat, g: nat, id: nat)
    requires OnlyReaches(s, x, g, id)
    requires IsSidecarOp(op) && op.xid == x ==> op.generation != g
    ensures OnlyReaches(Next(s, op), x, g, id)
  {
    if op.Register? {
      RegisterOnlyReaches(s, op, x, g, id);
    } else if op.Unregister? {
      UnregisterOnlyReaches(s, op, x, g, id);
    }
  }

  lemma RegisterOnlyReaches(s: Registry, op: Op, x: nat, g: nat, id: nat)
    requires OnlyReaches(s, x, g, id) && op.Register? && (op.xid == x ==> op.generation != g)
    ensures OnlyReaches(Next(s, op), x, g, id)
  {
  }

  lemma UnregisterOnlyReaches(s: Registry, op: Op, x: nat, g: nat, id: nat)
    requires OnlyReaches(s, x, g, id) && op.Unregister?
    ensures OnlyReaches(Next(s, op), x, g, id)
  {
  }

  lemma {:induction false} RunOnlyReaches(s: Registry, ops: seq<Op>, x: nat, g: nat, id: nat)
    requires OnlyReaches(s, x, g, id) && NeverRepeats(ops, x, g)
    ensures OnlyReaches(Run(s, ops), x, g, id)
  {
    if ops != [] {
      var front, op := ops[..|ops| - 1], ops[|ops| - 1];
      assert op in ops;
      RunOnlyReaches(s, front, x, g, id);
      StepOnlyReaches(Run(s, front), op, x, g, id);
    }
  }

  /** No ABA: if a paint was accepted for placeholder `p` and its commit succeeds after any further
      transitions that do not repeat its generation, the entry is still placeholder `p`. */
  lemma CommitFindsAcceptedPlaceholder(s: Registry, ops: seq<Op>, x: nat, g: nat, n: nat)
    requires NeverRepeats(ops, x, g)
    requires AcceptPaint(s, x, g, n).accepted && CommitPaint(Run(s, ops), x, g, n).1
    ensures WantsPlaceholder(Run(s, ops), x, AcceptPaint(s, x, g, n).placeholderId)
  {
    RunOnlyReaches(s, ops, x, g, AcceptPaint(s, x, g, n).placeholderId);
  }

  /** The hypothesis cannot be dropped anywhere: an erased entry forgets its generation, so from
      every state that accepts a paint, one repeat of its generation lets the commit succeed on a
      different placeholder. */
  lemma RepeatedGenerationIsABA(s: Registry, x: nat, g: nat, n: nat, geometry: Geometry)
    requires Inv(s) && AcceptPaint(s, x, g, n).accepted
    ensures var ops := [Unregister(x, g + 1), Register(x, g, "", "", geometry, false, 0, 0)];
            && CommitPaint(Run(s, ops), x, g, n).1
            && !WantsPlaceholder(Run(s, ops), x, AcceptPaint(s, x, g, n).placeholderId)
  {
    var unregister, register := Unregister(x, g + 1), Register(x, g, "", "", geometry, false, 0, 0);
    var ops := [unregister, register];
    assert EntryOk(s, x);
    var s1 := Next(s, unregister);
    assert Run(s, [unregister]) == s1 by {
      assert [unregister][..0] == [];
    }
    assert ops[..|ops| - 1] == [unregister];
    assert x !in UnregisterToplevel(s, x, g + 1).0.entries;
    assert Run(s, ops) == Next(s1, register);
    assert Next(s1, register).entries[x].placeholderId == s.nextPlaceholderId + 1;
  }

  // ---- the paints committed to one placeholder ----

  /** The sequence numbers committed to placeholder `id`, in order. */
  function Committed(ops: seq<Op>, id: nat): seq<nat> {
    if ops == [] then []
    else
      var front, op := ops[..|ops| - 1], ops[|ops| - 1];
      var s := Run(EMPTY_REGISTRY, front);
      if op.Paint? && PaintGate(s, op.xid, op.generation, op.seqNo) && s.entries[op.xid].placeholderId == id
      then Committed(front, id) + [op.seqNo]
      else Committed(front, id)
  }

  ghost predicate Increasing(ns: seq<nat>) {
    forall i, j | 0 <= i < j < |ns| :: ns[i] < ns[j]
  }

  /** The entry records exactly the paints committed to its placeholder. */
  predicate Records(e: Entry, ns: seq<nat>) {
    e.shown == (ns != []) && e.lastPaintSeq == if ns == [] then 0 else ns[|ns| - 1]
  }

  ghost predicate PaintsOk(ops: seq<Op>, id: nat) {
    var s := Run(EMPTY_REGISTRY, ops);
    && Increasing(Committed(ops, id))
    && (id > s.nextPlaceholderId ==> Committed(ops, id) == [])
    && (forall x | WantsPlaceholder(s, x, id) :: Records(s.entries[x], Committed(ops, id)))
  }

  /** A step other than a commit hands the paint record of a placeholder on, or starts a new
      placeholder with an empty one. */
  lemma NonPaintKeepsRecords(s: Registry, op: Op, x: nat, id: nat)
    requires !op.Paint? && WantsPlaceholder(Next(s, op), x, id)
    ensures || (WantsPlaceholder(s, x, id) && Next(s, op).entries[x].shown == s.entries[x].shown &&
                Next(s, op).entries[x].lastPaintSeq == s.entries[x].lastPaintSeq)
            || (id > s.nextPlaceholderId && Records(Next(s, op).entries[x], []))
  {
    if op.Register? {
      RegisterKeepsRecords(s, op, x, id);
    } else if op.Unregister? {
      UnregisterKeepsRecords(s, op, x, id);
    }
  }

  lemma UnregisterKeepsRecords(s: Registry, op: Op, x: nat, id: nat)
    requires op.Unregister? && WantsPlaceholder(Next(s, op), x, id)
    ensures x in s.entries && Next(s, op).entries[x] == s.entries[x]
  {
  }

  lemma RegisterKeepsRecords(s: Registry, op: Op, x: nat, id: nat)
    requires op.Register? && WantsPlaceholder(Next(s, op), x, id)
    ensures || (WantsPlaceholder(s, x, id) && Next(s, op).entries[x].shown == s.entries[x].shown &&
                Next(s, op).entries[x].lastPaintSeq == s.entries[x].lastPaintSeq)
            || (id > s.nextPlaceholderId && Records(Next(s, op).entries[x], []))
  {
  }

  /** Within one placeholder the committed sequence numbers strictly increase, the window counts as
      shown exactly when some paint was committed, and the last number is the one recorded. */
  lemma {:induction false} CommittedPaintsIncrease(ops: seq<Op>, id: nat)
    requires AllNonzero(ops) && id != 0
    ensures PaintsOk(ops, id)
  {
    if ops != [] {
      var front, op := ops[..|ops| - 1], ops[|ops| - 1];
      var s := Run(EMPTY_REGISTRY, front);
      assert op in ops;
      CommittedPaintsIncrease(front, id);
      RunKeepsInv(EMPTY_REGISTRY, front);
      StepKeepsInv(s, op);
      if op.Paint? {
        CommitKeepsPaintsOk(front, op, id);
        assert front + [op] == ops;
      } else {
        forall x | WantsPlaceholder(Next(s, op), x, id)
          ensures Records(Next(s, op).entries[x], Committed(ops, id))
        {
          NonPaintKeepsRecords(s, op, x, id);
        }
      }
    }
  }

  lemma CommitKeepsPaintsOk(front: seq<Op>, op: Op, id: nat)
    requires op.Paint? && Inv(Run(EMPTY_REGISTRY, front)) && PaintsOk(front, id) && id != 0
    ensures PaintsOk(front + [op], id)
  {
    var s := Run(EMPTY_REGISTRY, front);
    var s' := Next(s, op);
    assert (front + [op])[..|front + [op]| - 1] == front;
    if PaintGate(s, op.xid, op.generation, op.seqNo) {
      assert EntryOk(s, op.xid);
      var pid := s.entries[op.xid].placeholderId;
      if pid == id {
        assert WantsPlaceholder(s, op.xid, id);
      }
      forall x | WantsPlaceholder(s', x, id)
        ensures Records(s'.entries[x], Committed(front + [op], id))
      {
        assert WantsPlaceholder(s, x, id);
        assert EntryOk(s, x);
      }
    }
  }

  /** A number is beyond the recorded one exactly when it is beyond every paint committed. */
  lemma BeyondRecorded(e: Entry, ns: seq<nat>, n: nat)
    requires Increasing(ns) && Records(e, ns)
    ensures e.lastPaintSeq < n <==> n > 0 && forall c | c in ns :: c < n
  {
    if ns != [] {
      assert ns[|ns| - 1] in ns;
    }
    if e.lastPaintSeq < n {
      forall c | c in ns
        ensures c < n
      {
        var i :| 0 <= i < |ns| && ns[i] == c;
      }
    }
  }

  /** After every run a paint is accepted exactly for a placeholder, with the generation said last, and
      newer than every paint committed to it; it is the first one exactly when none was. */
  lemma PaintAcceptedExactly(ops: seq<Op>, x: nat, g: nat, n: nat)
    requires AllNonzero(ops)
    ensures var s := Run(EMPTY_REGISTRY, ops);
            var d := AcceptPaint(s, x, g, n);
            if x in s.entries && s.entries[x].representation == Placeholder
            then var id := s.entries[x].placeholderId;
                 && (d.accepted <==>
                       g == Said.Replay(ops, x).generation && n > 0 && forall c | c in Committed(ops, id) :: c < n)
                 && (d.accepted ==> d.placeholderId == id && (d.firstPaint <==> Committed(ops, id) == []))
            else !d.accepted
  {
    var s := Run(EMPTY_REGISTRY, ops);
    Said.RegistryRecordsReplay(ops, x);
    if x in s.entries && s.entries[x].representation == Placeholder {
      var id := s.entries[x].placeholderId;
      RunKeepsInv(EMPTY_REGISTRY, ops);
      assert EntryOk(s, x);
      CommittedPaintsIncrease(ops, id);
      assert Records(s.entries[x], Committed(ops, id)) by {
        assert WantsPlaceholder(s, x, id);
      }
      BeyondRecorded(s.entries[x], Committed(ops, id), n);
      assert s.entries[x].generation == Said.Replay(ops, x).generation;
      assert PaintGate(s, x, g, n) <==> g == s.entries[x].generation && s.entries[x].lastPaintSeq < n;
    }
  }
}
