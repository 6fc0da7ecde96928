/** Placeholder conservation under the off-lock race. Transitions happen under the lock; the host
    windows they ask for are created and destroyed later, in any order and interleaved with further
    transitions. A created window is kept only if the registry still wants exactly it. */
module PlaceholderConservation {
  import opened RegistryModel
  import opened RegistryInvariant

  /** A placeholder window being created off-lock. */
  datatype Creation = Creation(xid: nat, id: nat, isPopup: bool, owner: nat)

  /** The registry and its executor. `live` are the placeholder windows that exist, by id; `refused`
      were discarded only because the popup's owner was gone; `failed` could not be created. */
  datatype System = System(
    registry: Registry,
    live: set<nat>,
    creating: set<Creation>,
    destroying: set<nat>,
    failed: set<nat>,
    refused: set<nat>)

  datatype Action =
    | Transition(op: Op)
    | FinishCreate(creation: Creation, created: bool)
    | FinishDestroy(id: nat)

  const FRESH := System(EMPTY_REGISTRY, {}, {}, {}, {}, {})

  function CreationsOf(effs: seq<Effect>): set<Creation> {
    set eff | eff in effs && eff.kind == CreatePlaceholder ::
      Creation(eff.xid, eff.placeholderId, eff.isPopup, eff.ownerXid)
  }

  function DestructionsOf(effs: seq<Effect>): set<nat> {
    set eff | eff in effs && (eff.kind == DestroyPlaceholder || eff.kind == PromotePlaceholder) ::
      eff.placeholderId
  }

  function Act(sys: System, a: Action): System {
    match a
    case Transition(op) =>
      var (s', effs) := Step(sys.registry, op);
      sys.(registry := s', creating := sys.creating + CreationsOf(effs),
           destroying := sys.destroying + DestructionsOf(effs))
    case FinishCreate(c, created) =>
      if c !in sys.creating then sys
      else
        var rest := sys.(creating := sys.creating - {c});
        if !created then rest.(failed := sys.failed + {c.id})
        else if !WantsPlaceholder(sys.registry, c.xid, c.id) then rest
        else if c.isPopup && !OwnerLive(sys.registry, c.owner) then rest.(refused := sys.refused + {c.id})
        else rest.(live := sys.live + {c.id})
    case FinishDestroy(id) =>
      if id !in sys.destroying then sys
      else sys.(live := sys.live - {id}, destroying := sys.destroying - {id})
  }

  function Execute(sys: System, actions: seq<Action>): System {
    if actions == [] then sys
    else Act(Execute(sys, actions[..|actions| - 1]), actions[|actions| - 1])
  }

  predicate Handles(actions: seq<Action>) {
    forall a | a in actions :: a.Transition? ==> NonzeroHandles(a.op)
  }

  /** The ids of the entries a placeholder represents. */
  ghost function PlaceholderIds(s: Registry): set<nat> {
    set x | x in s.entries && s.entries[x].representation == Placeholder :: s.entries[x].placeholderId
  }

  ghost predicate Wanted(s: Registry, id: nat) {
    exists x :: WantsPlaceholder(s, x, id)
  }

  /** Nothing is in flight between the registry and the host. */
  predicate Quiescent(sys: System) {
    sys.creating == {} && sys.destroying == {}
  }

  // ---- what one transition does to the wanted ids ----

  ghost predicate CreatesFresh(s: Registry, op: Op) {
    var (s', effs) := Step(s, op);
    && (forall c | c in CreationsOf(effs) :: c.id > s.nextPlaceholderId && WantsPlaceholder(s', c.xid, c.id))
    && (forall c, d | c in CreationsOf(effs) && d in CreationsOf(effs) :: c == d)
    && (forall x, id | WantsPlaceholder(s', x, id) ::
          WantsPlaceholder(s, x, id) || exists c :: c in CreationsOf(effs) && c.id == id)
  }

  ghost predicate DestroysUnwanted(s: Registry, op: Op) {
    var (s', effs) := Step(s, op);
    && (forall id | id in DestructionsOf(effs) :: 0 < id <= s.nextPlaceholderId && !Wanted(s', id))
    && (forall x, id | WantsPlaceholder(s, x, id) && !WantsPlaceholder(s', x, id) :: id in DestructionsOf(effs))
  }

  lemma OneEffect(eff: Effect)
    ensures CreationsOf([eff]) == (if eff.kind == CreatePlaceholder
              then {Creation(eff.xid, eff.placeholderId, eff.isPopup, eff.ownerXid)} else {})
    ensures DestructionsOf([eff]) == (if eff.kind == DestroyPlaceholder || eff.kind == PromotePlaceholder
              then {eff.placeholderId} else {})
  {
    assert eff in [eff];
  }

  /** A transition creates at most one placeholder, with an id never used before. */
  lemma TransitionCreatesFresh(s: Registry, op: Op)
    requires Inv(s)
    ensures CreatesFresh(s, op)
  {
    var (s', effs) := Step(s, op);
    match op
    case Paint(_, _, _) => assert CreationsOf(effs) == {};
    case Unregister(x, g) => UnregisterCreatesNothing(s, x, g);
    case Register(_, _, _, _, _, _, _, _) => RegisterCreatesFresh(s, op);
    case _ => OthersCreateNothing(s, op);
  }

  lemma OthersCreateNothing(s: Registry, op: Op)
    requires Inv(s) && (op.Bind? || op.Unbind? || op.Update? || op.Show?)
    ensures CreatesFresh(s, op)
  {
    OtherEffectsCreateNothing(s, op);
    forall x, id | WantsPlaceholder(Next(s, op), x, id)
      ensures WantsPlaceholder(s, x, id)
    {
      OthersAddNoPlaceholder(s, op, x, id);
    }
  }

  lemma OtherEffectsCreateNothing(s: Registry, op: Op)
    requires op.Bind? || op.Unbind? || op.Update? || op.Show?
    ensures CreationsOf(Step(s, op).1) == {}
  {
    var effs := Step(s, op).1;
    OneEffect(effs[0]);
    assert effs == [effs[0]];
  }

  lemma OthersAddNoPlaceholder(s: Registry, op: Op, x: nat, id: nat)
    requires (op.Bind? || op.Unbind? || op.Update? || op.Show?) && WantsPlaceholder(Next(s, op), x, id)
    ensures WantsPlaceholder(s, x, id)
  {
  }

  lemma RegisterCreatesFresh(s: Registry, op: Op)
    requires Inv(s) && op.Register?
    ensures CreatesFresh(s, op)
  {
    var (s', effs) := Step(s, op);
    OneEffect(effs[0]);
    assert effs == [effs[0]];
    forall x, id | WantsPlaceholder(s', x, id) && !WantsPlaceholder(s, x, id)
      ensures exists c :: c in CreationsOf(effs) && c.id == id
    {
      assert x == op.xid && effs[0].kind == CreatePlaceholder;
      var c := Creation(effs[0].xid, effs[0].placeholderId, effs[0].isPopup, effs[0].ownerXid);
      assert c in CreationsOf(effs) && c.id == id;
    }
  }

  lemma UnregisterEffectsCreateNothing(s: Registry, x: nat, g: nat)
    ensures CreationsOf(Step(s, Unregister(x, g)).1) == {}
  {
    forall eff | eff in Step(s, Unregister(x, g)).1
      ensures eff.kind != CreatePlaceholder
    {
    }
  }

  lemma UnregisterCreatesNothing(s: Registry, x: nat, g: nat)
    requires Inv(s)
    ensures CreatesFresh(s, Unregister(x, g))
  {
    UnregisterEffectsCreateNothing(s, x, g);
  }

  /** A transition stops wanting exactly the ids it asks to destroy. */
  lemma TransitionDestroysUnwanted(s: Registry, op: Op)
    requires Inv(s) && NonzeroHandles(op)
    ensures DestroysUnwanted(s, op)
  {
    match op
    case Paint(_, _, _) => assert DestructionsOf(Step(s, op).1) == {};
    case Unregister(x, g) => UnregisterDestroysUnwanted(s, x, g);
    case Bind(x, surface) => BindDestroysUnwanted(s, x, surface);
    case _ => OtherDestroysNothing(s, op);
  }

  lemma OtherDestroysNothing(s: Registry, op: Op)
    requires Inv(s) && NonzeroHandles(op)
    requires op.Unbind? || op.Register? || op.Update? || op.Show?
    ensures DestroysUnwanted(s, op)
  {
    var eff := Step(s, op).1[0];
    OneEffect(eff);
    assert Step(s, op).1 == [eff];
    OtherEffectsDestroyNothing(s, op);
    forall x, id | WantsPlaceholder(s, x, id)
      ensures WantsPlaceholder(Next(s, op), x, id)
    {
      OtherOpsKeepPlaceholders(s, op, x, id);
    }
  }

  lemma OtherEffectsDestroyNothing(s: Registry, op: Op)
    requires op.Unbind? || op.Register? || op.Update? || op.Show?
    ensures Step(s, op).1[0].kind != DestroyPlaceholder && Step(s, op).1[0].kind != PromotePlaceholder
  {
  }

  lemma OtherOpsKeepPlaceholders(s: Registry, op: Op, x: nat, id: nat)
    requires Inv(s) && NonzeroHandles(op) && WantsPlaceholder(s, x, id)
    requires op.Unbind? || op.Register? || op.Update? || op.Show?
    ensures WantsPlaceholder(Next(s, op), x, id)
  {
    assert EntryOk(s, x);
  }

  lemma BindDestroysUnwanted(s: Registry, x: nat, surface: nat)
    requires Inv(s) && surface != 0
    ensures DestroysUnwanted(s, Bind(x, surface))
  {
    var (s', effs) := Step(s, Bind(x, surface));
    OneEffect(effs[0]);
    assert effs == [effs[0]];
    if x in s.entries {
      assert EntryOk(s, x);
    }
  }

  lemma UnregisterDestroysUnwanted(s: Registry, x: nat, g: nat)
    requires Inv(s)
    ensures DestroysUnwanted(s, Unregister(x, g))
  {
    var (s1, eff) := UnregisterToplevel(s, x, g);
    if eff.applied {
      UnregisterReportsUnwanted(s, x, g);
      UnregisterReportsOnlyUnwanted(s, x, g);
    } else {
      OneEffect(eff);
    }
  }

  lemma UnregisterReportsUnwanted(s: Registry, x: nat, g: nat)
    requires Inv(s) && Newer(s, x, g)
    ensures forall y, id | WantsPlaceholder(s, y, id) && !WantsPlaceholder(Next(s, Unregister(x, g)), y, id) ::
              id in DestructionsOf(Step(s, Unregister(x, g)).1)
  {
    var (s1, eff) := UnregisterToplevel(s, x, g);
    var all := Step(s, Unregister(x, g)).1;
    forall y, id | WantsPlaceholder(s, y, id) && !WantsPlaceholder(Next(s, Unregister(x, g)), y, id)
      ensures id in DestructionsOf(all)
    {
      if y == x {
        assert eff in all;
      } else {
        CascadeReportsOrphan(s1, x, y);
        assert OrphanEffect(s1.entries[y], x) in all;
      }
    }
  }

  lemma EffectBehind(effs: seq<Effect>, id: nat) returns (d: Effect)
    requires id in DestructionsOf(effs)
    ensures d in effs && (d.kind == DestroyPlaceholder || d.kind == PromotePlaceholder) && d.placeholderId == id
  {
    d :| d in effs && (d.kind == DestroyPlaceholder || d.kind == PromotePlaceholder) && d.placeholderId == id;
  }

  lemma UnregisterEffects(s: Registry, x: nat, g: nat)
    requires Newer(s, x, g)
    ensures var (s1, eff) := UnregisterToplevel(s, x, g);
            forall d | d in Step(s, Unregister(x, g)).1 :: d == eff || d in TakeOrphanedPopups(s1, x).1
  {
  }

  lemma UnregisterKeepsPlaceholders(s: Registry, x: nat, g: nat, y: nat)
    requires y in UnregisterToplevel(s, x, g).0.entries
    requires UnregisterToplevel(s, x, g).0.entries[y].representation == Placeholder
    ensures y in s.entries && s.entries[y] == UnregisterToplevel(s, x, g).0.entries[y]
  {
  }

  /** A destruction an unregistration reports is of an entry it removes. */
  lemma UnregisterReportsGone(s: Registry, x: nat, g: nat, d: Effect) returns (y: nat)
    requires Newer(s, x, g) && d in Step(s, Unregister(x, g)).1
    requires d.kind == DestroyPlaceholder || d.kind == PromotePlaceholder
    ensures y == x || y in Orphans(UnregisterToplevel(s, x, g).0.entries, x)
    ensures y in s.entries && s.entries[y].representation == Placeholder
    ensures s.entries[y].placeholderId == d.placeholderId
  {
    var (s1, eff) := UnregisterToplevel(s, x, g);
    UnregisterEffects(s, x, g);
    if d == eff {
      y := x;
    } else {
      y := CascadeReportsOnlyOrphans(s1, x, d);
      UnregisterKeepsPlaceholders(s, x, g, y);
    }
  }

  lemma UnregisterReportsOnlyUnwanted(s: Registry, x: nat, g: nat)
    requires Inv(s) && Newer(s, x, g)
    ensures forall id | id in DestructionsOf(Step(s, Unregister(x, g)).1) ::
              0 < id <= s.nextPlaceholderId && !Wanted(Next(s, Unregister(x, g)), id)
  {
    forall id | id in DestructionsOf(Step(s, Unregister(x, g)).1)
      ensures 0 < id <= s.nextPlaceholderId && !Wanted(Next(s, Unregister(x, g)), id)
    {
      var d := EffectBehind(Step(s, Unregister(x, g)).1, id);
      var y := UnregisterReportsGone(s, x, g, d);
      GoneIsUnwanted(s, x, g, y);
    }
  }

  /** The placeholder of an entry that an unregistration removes is wanted by none that stays. */
  lemma GoneIsUnwanted(s: Registry, x: nat, g: nat, y: nat)
    requires Inv(s) && Newer(s, x, g) && y in s.entries && s.entries[y].representation == Placeholder
    requires y == x || y in Orphans(UnregisterToplevel(s, x, g).0.entries, x)
    ensures var id := s.entries[y].placeholderId;
            0 < id <= s.nextPlaceholderId && !Wanted(Next(s, Unregister(x, g)), id)
  {
    assert EntryOk(s, y);
    assert EntryOk(s, x);
    var s' := Next(s, Unregister(x, g));
    var id := s.entries[y].placeholderId;
    forall z ensures !WantsPlaceholder(s', z, id) {
      if z in s'.entries && z in s.entries {
        assert EntryOk(s, z);
      }
    }
  }

  lemma CascadeReportsOrphan(s: Registry, owner: nat, y: nat)
    requires owner != 0 && y in Orphans(s.entries, owner)
    ensures OrphanEffect(s.entries[y], owner) in TakeOrphanedPopups(s, owner).1
  {
    var xids := Ascending(Orphans(s.entries, owner));
    var effs := OrphanEffects(s.entries, owner, xids);
    var i :| 0 <= i < |xids| && xids[i] == y;
    assert effs[i] == OrphanEffect(s.entries[y], owner);
  }

  lemma CascadeReportsOnlyOrphans(s: Registry, owner: nat, eff: Effect) returns (y: nat)
    requires eff in TakeOrphanedPopups(s, owner).1
    ensures y in Orphans(s.entries, owner) && eff == OrphanEffect(s.entries[y], owner)
  {
    var xids := Ascending(Orphans(s.entries, owner));
    var i :| 0 <= i < |xids| && OrphanEffects(s.entries, owner, xids)[i] == eff;
    y := xids[i];
    assert y in xids;
  }

  // ---- what the system keeps ----

  ghost predicate Pending(sys: System, id: nat) {
    exists c :: c in sys.creating && c.id == id
  }

  ghost predicate IssuedId(sys: System, id: nat) {
    0 < id <= sys.registry.nextPlaceholderId
  }

  /** Creations in flight: each owns its id and could only be wanted by its own toplevel. */
  ghost predicate CreationsOk(sys: System) {
    && (forall c | c in sys.creating ::
          IssuedId(sys, c.id) && c.id !in sys.live && c.id !in sys.failed && c.id !in sys.refused)
    && (forall c, d | c in sys.creating && d in sys.creating && c.id == d.id :: c == d)
    && (forall c, x | c in sys.creating && WantsPlaceholder(sys.registry, x, c.id) :: x == c.xid)
  }

  ghost predicate WindowsOk(sys: System) {
    && (forall id | id in sys.live ::
          IssuedId(sys, id) && id !in sys.failed && id !in sys.refused &&
          (id in sys.destroying || Wanted(sys.registry, id)))
    && (forall id | id in sys.destroying :: IssuedId(sys, id) && !Wanted(sys.registry, id))
    && (forall id | id in sys.failed + sys.refused :: IssuedId(sys, id))
    && (forall x, id | WantsPlaceholder(sys.registry, x, id) ::
          id in sys.live || Pending(sys, id) || id in sys.failed || id in sys.refused)
  }

  ghost predicate Good(sys: System) {
    Inv(sys.registry) && CreationsOk(sys) && WindowsOk(sys)
  }

  lemma NewCreationIsFresh(sys: System, op: Op, c: Creation)
    requires Good(sys) && NonzeroHandles(op) && c in Act(sys, Transition(op)).creating && c !in sys.creating
    ensures c.id > sys.registry.nextPlaceholderId && WantsPlaceholder(Next(sys.registry, op), c.xid, c.id)
  {
    TransitionCreatesFresh(sys.registry, op);
  }

  /** Only the toplevel that a pending creation is for can want it. */
  lemma CreationHasOneXid(sys: System, op: Op, c: Creation, x: nat)
    requires Good(sys) && NonzeroHandles(op) && c in Act(sys, Transition(op)).creating
    requires WantsPlaceholder(Next(sys.registry, op), x, c.id)
    ensures x == c.xid
  {
    TransitionCreatesFresh(sys.registry, op);
    StepKeepsInv(sys.registry, op);
    assert EntryOk(Next(sys.registry, op), x);
    if c !in sys.creating {
      NewCreationIsFresh(sys, op, c);
    }
  }

  lemma CreationsStayApart(sys: System, op: Op, c: Creation, d: Creation)
    requires Good(sys) && NonzeroHandles(op) && c.id == d.id
    requires c in Act(sys, Transition(op)).creating && d in Act(sys, Transition(op)).creating
    ensures c == d
  {
    if c !in sys.creating {
      NewCreationIsFresh(sys, op, c);
    }
    if d !in sys.creating {
      NewCreationIsFresh(sys, op, d);
    }
    TransitionCreatesFresh(sys.registry, op);
  }

  lemma CreationStaysIssued(sys: System, op: Op, c: Creation)
    requires Good(sys) && NonzeroHandles(op) && c in Act(sys, Transition(op)).creating
    ensures IssuedId(Act(sys, Transition(op)), c.id) && c.id !in sys.live && c.id !in sys.failed && c.id !in sys.refused
  {
    StepKeepsInv(sys.registry, op);
    if c !in sys.creating {
      NewCreationIsFresh(sys, op, c);
      assert EntryOk(Next(sys.registry, op), c.xid);
      assert c.id !in sys.live && c.id !in sys.failed + sys.refused;
    }
  }

  lemma TransitionKeepsCreations(sys: System, op: Op)
    requires Good(sys) && NonzeroHandles(op)
    ensures CreationsOk(Act(sys, Transition(op)))
  {
    var sys' := Act(sys, Transition(op));
    forall c | c in sys'.creating
      ensures IssuedId(sys', c.id) && c.id !in sys'.live && c.id !in sys'.failed && c.id !in sys'.refused
    {
      CreationStaysIssued(sys, op, c);
    }
    forall c, d | c in sys'.creating && d in sys'.creating && c.id == d.id
      ensures c == d
    {
      CreationsStayApart(sys, op, c, d);
    }
    forall c, x | c in sys'.creating && WantsPlaceholder(sys'.registry, x, c.id)
      ensures x == c.xid
    {
      CreationHasOneXid(sys, op, c, x);
    }
  }

  lemma StaysUnwanted(s: Registry, op: Op, id: nat)
    requires CreatesFresh(s, op) && id <= s.nextPlaceholderId && !Wanted(s, id)
    ensures !Wanted(Next(s, op), id)
  {
    forall x ensures !WantsPlaceholder(Next(s, op), x, id) {
      assert !WantsPlaceholder(s, x, id);
    }
  }

  lemma TransitionKeepsWindows(sys: System, op: Op)
    requires Good(sys) && NonzeroHandles(op)
    ensures WindowsOk(Act(sys, Transition(op)))
  {
    var s := sys.registry;
    var sys' := Act(sys, Transition(op));
    TransitionCreatesFresh(s, op);
    TransitionDestroysUnwanted(s, op);
    StepKeepsInv(s, op);
    forall id | id in sys'.live
      ensures id in sys'.destroying || Wanted(sys'.registry, id)
    {
      if id !in sys.destroying {
        var x :| WantsPlaceholder(s, x, id);
        assert WantsPlaceholder(sys'.registry, x, id) || id in sys'.destroying;
      }
    }
    forall id | id in sys'.destroying
      ensures IssuedId(sys', id) && !Wanted(sys'.registry, id)
    {
      if id in sys.destroying {
        StaysUnwanted(s, op, id);
      }
    }
    forall x, id | WantsPlaceholder(sys'.registry, x, id)
      ensures id in sys'.live || Pending(sys', id) || id in sys'.failed || id in sys'.refused
    {
      if WantsPlaceholder(s, x, id) && Pending(sys, id) {
        var c :| c in sys.creating && c.id == id;
        assert c in sys'.creating;
      }
    }
  }

  lemma FinishCreateKeepsCreations(sys: System, c: Creation, created: bool)
    requires Good(sys) && c in sys.creating
    ensures CreationsOk(Act(sys, FinishCreate(c, created)))
  {
    var sys' := Act(sys, FinishCreate(c, created));
    assert sys'.creating == sys.creating - {c} && sys'.registry == sys.registry;
    forall d | d in sys'.creating
      ensures IssuedId(sys', d.id) && d.id !in sys'.live && d.id !in sys'.failed && d.id !in sys'.refused
    {
      assert d in sys.creating && d.id != c.id;
    }
  }

  lemma FinishCreateKeepsWindows(sys: System, c: Creation, created: bool)
    requires Good(sys) && c in sys.creating
    ensures WindowsOk(Act(sys, FinishCreate(c, created)))
  {
    var sys' := Act(sys, FinishCreate(c, created));
    assert sys'.creating == sys.creating - {c} && sys'.registry == sys.registry && sys'.destroying == sys.destroying;
    forall id | id in sys'.live
      ensures IssuedId(sys', id) && id !in sys'.failed && id !in sys'.refused
      ensures id in sys'.destroying || Wanted(sys'.registry, id)
    {
      if id !in sys.live {
        assert id == c.id && WantsPlaceholder(sys'.registry, c.xid, id);
      }
    }
    forall x, id | WantsPlaceholder(sys.registry, x, id)
      ensures id in sys'.live || Pending(sys', id) || id in sys'.failed || id in sys'.refused
    {
      if id == c.id {
        assert x == c.xid;
      } else if Pending(sys, id) {
        var d :| d in sys.creating && d.id == id;
        assert d in sys'.creating;
      }
    }
  }

  lemma FinishCreateKeepsGood(sys: System, c: Creation, created: bool)
    requires Good(sys)
    ensures Good(Act(sys, FinishCreate(c, created)))
  {
    if c in sys.creating {
      FinishCreateKeepsCreations(sys, c, created);
      FinishCreateKeepsWindows(sys, c, created);
    }
  }

  lemma FinishDestroyKeepsGood(sys: System, id: nat)
    requires Good(sys)
    ensures Good(Act(sys, FinishDestroy(id)))
  {
    var sys' := Act(sys, FinishDestroy(id));
    forall x, i | WantsPlaceholder(sys.registry, x, i)
      ensures i in sys'.live || Pending(sys', i) || i in sys'.failed || i in sys'.refused
    {
      assert id in sys.destroying ==> i != id;
      if Pending(sys, i) {
        var c :| c in sys.creating && c.id == i;
        assert c in sys'.creating;
      }
    }
  }

  lemma ActKeepsGood(sys: System, a: Action)
    requires Good(sys) && (a.Transition? ==> NonzeroHandles(a.op))
    ensures Good(Act(sys, a))
  {
    match a
    case Transition(op) =>
      StepKeepsInv(sys.registry, op);
      TransitionKeepsCreations(sys, op);
      TransitionKeepsWindows(sys, op);
    case FinishCreate(c, created) => FinishCreateKeepsGood(sys, c, created);
    case FinishDestroy(id) => FinishDestroyKeepsGood(sys, id);
  }

  lemma {:induction false} ExecuteIsGood(actions: seq<Action>)
    requires Handles(actions)
    ensures Good(Execute(FRESH, actions))
  {
    if actions != [] {
      var front, a := actions[..|actions| - 1], actions[|actions| - 1];
      assert a in actions;
      ExecuteIsGood(front);
      ActKeepsGood(Execute(FRESH, front), a);
    }
  }

  /** Conservation: whatever the interleaving of transitions, window creations and window
      destructions, once nothing is in flight the live placeholder windows are exactly the ids of
      the placeholder entries, but for the creations the host could not carry out. */
  lemma QuiescentWindowsAreTheWantedOnes(actions: seq<Action>)
    requires Handles(actions) && Quiescent(Execute(FRESH, actions))
    ensures var sys := Execute(FRESH, actions);
            sys.live == PlaceholderIds(sys.registry) - sys.failed - sys.refused
  {
    ExecuteIsGood(actions);
    var sys := Execute(FRESH, actions);
    forall id
      ensures id in sys.live <==> id in PlaceholderIds(sys.registry) - sys.failed - sys.refused
    {
      if id in sys.live {
        var x :| WantsPlaceholder(sys.registry, x, id);
        assert x in sys.registry.entries;
      }
      if id in PlaceholderIds(sys.registry) {
        var x :| x in sys.registry.entries && sys.registry.entries[x].representation == Placeholder &&
                 sys.registry.entries[x].placeholderId == id;
        assert WantsPlaceholder(sys.registry, x, id);
      }
    }
  }

  /** Why no transition may misuse the null handle: unbinding it from a toplevel whose placeholder window
      is on the host leaves the window there, wanted by no entry and never to be destroyed. */
  lemma NullUnbindLeaks(actions: seq<Action>, x: nat)
    requires Handles(actions) && x in Execute(FRESH, actions).registry.entries
    requires Execute(FRESH, actions).registry.entries[x].representation == Placeholder
    requires Execute(FRESH, actions).registry.entries[x].placeholderId in Execute(FRESH, actions).live
    ensures var sys, id := Execute(FRESH, actions), Execute(FRESH, actions).registry.entries[x].placeholderId;
            var sys' := Act(sys, Transition(Unbind(x, 0)));
            id in sys'.live && !Wanted(sys'.registry, id) && id !in sys'.destroying
  {
    ExecuteIsGood(actions);
    var sys := Execute(FRESH, actions);
    var id := sys.registry.entries[x].placeholderId;
    var op := Unbind(x, 0);
    assert EntryOk(sys.registry, x);
    assert WantsPlaceholder(sys.registry, x, id);
    var effs := Step(sys.registry, op).1;
    OneEffect(effs[0]);
    assert effs == [effs[0]];
    forall y
      ensures !WantsPlaceholder(Next(sys.registry, op), y, id)
    {
    }
  }

  lemma ExecuteOneMore(sys: System, actions: seq<Action>, a: Action)
    ensures Execute(sys, actions + [a]) == Act(Execute(sys, actions), a)
  {
    assert (actions + [a])[..|actions|] == actions;
  }

  /** Such a state is reached: register a toplevel, create its window, unbind the null handle. All work
      is done, and there is a window that no entry wants. */
  lemma NullUnbindLeaksFromStart(x: nat, generation: nat, geometry: Geometry)
    requires x != 0
    ensures var register := Register(x, generation, "", "", geometry, false, 0, 0);
            var sys := Execute(FRESH, [Transition(register), FinishCreate(Creation(x, 1, false, 0), true),
                                       Transition(Unbind(x, 0))]);
            Quiescent(sys) && sys.live == {1} && PlaceholderIds(sys.registry) == {}
  {
    var register := Register(x, generation, "", "", geometry, false, 0, 0);
    var a, b, c := Transition(register), FinishCreate(Creation(x, 1, false, 0), true), Transition(Unbind(x, 0));
    assert [a, b, c] == [] + [a] + [b] + [c];
    ExecuteOneMore(FRESH, [], a);
    ExecuteOneMore(FRESH, [] + [a], b);
    ExecuteOneMore(FRESH, [] + [a] + [b], c);
    var first := Act(FRESH, a);
    assert Step(EMPTY_REGISTRY, register).1 == [Step(EMPTY_REGISTRY, register).1[0]];
    OneEffect(Step(EMPTY_REGISTRY, register).1[0]);
    assert first.creating == {Creation(x, 1, false, 0)} && first.destroying == {};
    var second := Act(first, b);
    assert second.live == {1} && second.creating == {} && second.registry == first.registry;
    var effs := Step(second.registry, Unbind(x, 0)).1;
    assert effs == [effs[0]];
    OneEffect(effs[0]);
  }

  /** No window has two owners. */
  lemma NoDoubleOwner(actions: seq<Action>, x: nat, y: nat, id: nat)
    requires Handles(actions)
    requires WantsPlaceholder(Execute(FRESH, actions).registry, x, id)
    requires WantsPlaceholder(Execute(FRESH, actions).registry, y, id)
    ensures x == y
  {
    ExecuteIsGood(actions);
    assert EntryOk(Execute(FRESH, actions).registry, x);
  }

  /** Ids the system has any memory of. */
  ghost predicate Known(sys: System, id: nat) {
    id in sys.live || id in sys.destroying || id in sys.failed || id in sys.refused ||
    Pending(sys, id) || Wanted(sys.registry, id)
  }

  lemma KnownIsIssued(sys: System, id: nat)
    requires Good(sys) && Known(sys, id)
    ensures IssuedId(sys, id)
  {
    if Wanted(sys.registry, id) {
      var x :| WantsPlaceholder(sys.registry, x, id);
      assert EntryOk(sys.registry, x);
    } else if Pending(sys, id) {
      var c :| c in sys.creating && c.id == id;
    }
  }

  /** An id is never issued twice. */
  lemma NoReuse(actions: seq<Action>, op: Op, c: Creation, id: nat)
    requires Handles(actions)
    requires c in CreationsOf(Step(Execute(FRESH, actions).registry, op).1)
    requires Known(Execute(FRESH, actions), id)
    ensures id < c.id
  {
    ExecuteIsGood(actions);
    var sys := Execute(FRESH, actions);
    KnownIsIssued(sys, id);
    TransitionCreatesFresh(sys.registry, op);
  }

  // ---- the sidecar plane is sequential ----

  /** The sidecar plane performs the creation its own register asked for before its next operation,
      and never asks for a popup owned by itself. The app plane runs freely. */
  ghost predicate SequentialSidecar(actions: seq<Action>) {
    actions == [] ||
    var front, a := actions[..|actions| - 1], actions[|actions| - 1];
    && SequentialSidecar(front)
    && (a.Transition? && IsSidecarOp(a.op) ==>
          Execute(FRESH, front).creating == {} &&
          (a.op.Register? && a.op.isPopup ==> a.op.owner != a.op.xid))
  }

  ghost predicate OwnersStand(sys: System) {
    sys.refused == {} && forall c | c in sys.creating && c.isPopup :: OwnerLive(sys.registry, c.owner)
  }

  lemma AppPlaneKeepsOwners(s: Registry, op: Op, owner: nat)
    requires !IsSidecarOp(op) && OwnerLive(s, owner)
    ensures OwnerLive(Next(s, op), owner)
  {
  }

  lemma RegisterHasLiveOwner(s: Registry, op: Op)
    requires op.Register? && (op.isPopup ==> op.owner != op.xid)
    ensures forall c | c in CreationsOf(Step(s, op).1) && c.isPopup :: OwnerLive(Next(s, op), c.owner)
  {
    OneEffect(Step(s, op).1[0]);
    assert Step(s, op).1 == [Step(s, op).1[0]];
  }

  lemma OtherOpsCreateNothing(s: Registry, op: Op)
    requires Inv(s) && !op.Register?
    ensures CreationsOf(Step(s, op).1) == {}
  {
    if op.Unregister? {
      UnregisterEffectsCreateNothing(s, op.xid, op.generation);
    } else if !op.Paint? {
      OtherEffectsCreateNothing(s, op);
    }
  }

  lemma {:induction false} SequentialOwnersStand(actions: seq<Action>)
    requires Handles(actions) && SequentialSidecar(actions)
    ensures OwnersStand(Execute(FRESH, actions))
  {
    if actions != [] {
      var front, a := actions[..|actions| - 1], actions[|actions| - 1];
      assert a in actions;
      SequentialOwnersStand(front);
      ExecuteIsGood(front);
      var sys := Execute(FRESH, front);
      if a.Transition? {
        if a.op.Register? {
          RegisterHasLiveOwner(sys.registry, a.op);
        } else {
          OtherOpsCreateNothing(sys.registry, a.op);
          if !IsSidecarOp(a.op) {
            forall c | c in sys.creating && c.isPopup
              ensures OwnerLive(Next(sys.registry, a.op), c.owner)
            {
              AppPlaneKeepsOwners(sys.registry, a.op, c.owner);
            }
          }
        }
      }
    }
  }

  /** With a sequential sidecar plane the popup owner re-check never costs a window: at quiescence,
      and with every creation carried out, windows and placeholder entries correspond exactly. */
  lemma SequentialConservation(actions: seq<Action>)
    requires Handles(actions) && SequentialSidecar(actions)
    requires Quiescent(Execute(FRESH, actions)) && Execute(FRESH, actions).failed == {}
    ensures Execute(FRESH, actions).live == PlaceholderIds(Execute(FRESH, actions).registry)
  {
    QuiescentWindowsAreTheWantedOnes(actions);
    SequentialOwnersStand(actions);
  }
}
