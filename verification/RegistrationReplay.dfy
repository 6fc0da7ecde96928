/** What the operations themselves say about one toplevel, replayed without the registry: which of them
    are heard, and what is known of the toplevel after them, popups included. The registry records
    exactly that. */
module RegistrationReplay {
  import opened RegistryModel

  /** What has been said of a toplevel; `known` while the registry has to remember it. */
  datatype Said = Said(
    known: bool,
    surface: nat,
    registered: bool,
    generation: nat,
    role: string,
    title: string,
    geometry: Geometry,
    extentAuthoritative: bool,
    lastZOrder: ZOrder,
    visibility: Visibility,
    isPopup: bool,
    owner: nat,
    popupKind: nat)

  const UNSAID :=
    Said(false, 0, false, 0, "", "", ZERO_GEOMETRY, false, KeepZ, Visible, false, 0, 0)

  // ---- which operations are heard ----

  /** A registered toplevel that is no popup can own one. */
  predicate CanOwn(owner: nat, said: Said) {
    owner != 0 && said.known && said.registered && !said.isPopup
  }

  /** Whether an operation is heard, from what was said of its own toplevel and of the owner it names. */
  predicate Heard(op: Op, a: Said, ownerSaid: Said) {
    op.xid != 0 &&
    match op
    case Bind(_, _) => true
    case Unbind(_, surface) => a.known && a.surface == surface
    case Register(_, g, _, _, _, popup, owner, _) =>
      (a.known ==> a.generation < g) && (popup ==> CanOwn(owner, ownerSaid))
    case Update(_, g, _, _, _) => a.known && a.generation < g
    case Show(_, g, _) => a.known && a.generation < g
    case Unregister(_, g) => a.known && a.generation < g
    case Paint(_, _, _) => false
  }

  /** The geometry an update asks for, if it asks for one. */
  function Effective(a: Said, geometry: Geometry): Geometry {
    if geometry.width > 0 && geometry.height > 0 then geometry else a.geometry
  }

  predicate Resizes(a: Said, geometry: Geometry) {
    Effective(a, geometry).width != a.geometry.width || Effective(a, geometry).height != a.geometry.height
  }

  /** What is said of a toplevel once an operation for it is heard. */
  function Hear(a: Said, op: Op): Said {
    match op
    case Bind(_, surface) => a.(known := true, surface := surface)
    case Unbind(_, _) => if a.registered then a.(surface := 0) else UNSAID
    case Register(_, g, role, title, geometry, popup, owner, kind) =>
      Said(true, a.surface, true, g, role, title, geometry, a.extentAuthoritative, a.lastZOrder, Visible, popup,
           owner, kind)
    case Update(_, g, role, geometry, z) =>
      a.(generation := g, role := if role == "" then a.role else role, geometry := Effective(a, geometry),
         extentAuthoritative := a.extentAuthoritative || Resizes(a, geometry),
         lastZOrder := if z == KeepZ then a.lastZOrder else z)
    case Show(_, g, state) => a.(generation := g, visibility := state)
    case Unregister(_, g) =>
      if a.surface == 0 then UNSAID
      else UNSAID.(known := true, surface := a.surface, generation := g, visibility := a.visibility,
                   isPopup := a.isPopup, owner := a.owner, popupKind := a.popupKind)
    case Paint(_, _, _) => a
  }

  /** A popup goes with its owner. */
  predicate GoesWith(a: Said, owner: nat) {
    a.known && a.isPopup && a.owner == owner
  }

  function OwnerOf(op: Op): nat {
    if op.Register? then op.owner else 0
  }

  /** What is said of `x` after one operation. */
  function After(a: Said, x: nat, op: Op, heard: bool): Said {
    var own := if heard && op.xid == x then Hear(a, op) else a;
    if heard && op.Unregister? && GoesWith(own, op.xid) then UNSAID else own
  }

  /** Everything said of `x` in a run. */
  function Replay(ops: seq<Op>, x: nat): Said
    decreases |ops|, 0
  {
    if ops == [] then UNSAID
    else
      var front, op := ops[..|ops| - 1], ops[|ops| - 1];
      After(Replay(front, x), x, op, HeardAfter(front, op))
  }

  predicate HeardAfter(ops: seq<Op>, op: Op)
    decreases |ops|, 1
  {
    Heard(op, Replay(ops, op.xid), Replay(ops, OwnerOf(op)))
  }

  // ---- the registry records it ----

  predicate Matches(e: Entry, a: Said) {
    && e.surface == a.surface && e.registered == a.registered && e.generation == a.generation
    && e.role == a.role && e.title == a.title && e.geometry == a.geometry
    && e.extentAuthoritative == a.extentAuthoritative && e.lastZOrder == a.lastZOrder
    && e.visibility == a.visibility && e.isPopup == a.isPopup && e.ownerXid == a.owner && e.popupKind == a.popupKind
  }

  predicate Records(s: Registry, x: nat, a: Said) {
    && (x in s.entries <==> a.known)
    && (x !in s.entries ==> a == UNSAID)
    && (x in s.entries ==>
          Matches(s.entries[x], a) && (s.entries[x].representation == Placeholder ==> a.surface == 0))
  }

  /** The registry acts on an operation exactly when it is heard. */
  lemma HeardExactly(s: Registry, op: Op, a: Said, ownerSaid: Said)
    requires Records(s, op.xid, a) && Records(s, OwnerOf(op), ownerSaid)
    ensures Heard(op, a, ownerSaid) <==>
            match op
            case Bind(x, _) => x != 0
            case Unbind(x, surface) => x != 0 && x in s.entries && s.entries[x].surface == surface
            case Register(x, g, _, _, _, popup, owner, _) => RegisterAdmitted(s, x, g, popup, owner)
            case Update(x, g, _, _, _) => Newer(s, x, g)
            case Show(x, g, _) => Newer(s, x, g)
            case Unregister(x, g) => Newer(s, x, g)
            case Paint(_, _, _) => false
  {
  }

  lemma BindIsHeard(s: Registry, op: Op, x: nat, a: Said)
    requires op.Bind? && Records(s, x, a)
    ensures Records(Next(s, op), x, After(a, x, op, op.xid != 0))
  {
  }

  lemma UnbindIsHeard(s: Registry, op: Op, x: nat, a: Said)
    requires op.Unbind? && Records(s, x, a)
    ensures var heard := op.xid != 0 && op.xid in s.entries && s.entries[op.xid].surface == op.surface;
            Records(Next(s, op), x, After(a, x, op, heard))
  {
  }

  lemma RegisterIsHeard(s: Registry, op: Op, x: nat, a: Said)
    requires op.Register? && Records(s, x, a)
    ensures var heard := RegisterAdmitted(s, op.xid, op.generation, op.isPopup, op.owner);
            Records(Next(s, op), x, After(a, x, op, heard))
  {
  }

  function UpdatedEntry(e: Entry, op: Op): Entry
    requires op.Update?
  {
    var g := if HasGeometry(op.geometry) then op.geometry else e.geometry;
    e.(generation := op.generation, role := if op.role == "" then e.role else op.role, geometry := g,
       extentAuthoritative := e.extentAuthoritative || g.width != e.geometry.width || g.height != e.geometry.height,
       lastZOrder := if op.zOrder == KeepZ then e.lastZOrder else op.zOrder)
  }

  lemma UpdatePuts(s: Registry, op: Op)
    requires op.Update? && Newer(s, op.xid, op.generation)
    ensures Next(s, op).entries == s.entries[op.xid := UpdatedEntry(s.entries[op.xid], op)]
  {
  }

  lemma UpdateMatches(e: Entry, op: Op, a: Said)
    requires op.Update? && Matches(e, a)
    ensures Matches(UpdatedEntry(e, op), Hear(a, op))
  {
  }

  /** An update or a change of visibility reaches one entry. */
  lemma ReachesOne(s: Registry, op: Op, x: nat)
    requires (op.Update? || op.Show?) && (op.xid != x || !Newer(s, op.xid, op.generation))
    ensures x in Next(s, op).entries <==> x in s.entries
    ensures x in s.entries ==> Next(s, op).entries[x] == s.entries[x]
  {
  }

  lemma UpdateIsHeard(s: Registry, op: Op, x: nat, a: Said)
    requires op.Update? && Records(s, x, a)
    ensures Records(Next(s, op), x, After(a, x, op, Newer(s, op.xid, op.generation)))
  {
    if op.xid == x && Newer(s, x, op.generation) {
      UpdatePuts(s, op);
      UpdateMatches(s.entries[x], op, a);
    } else {
      ReachesOne(s, op, x);
    }
  }

  lemma ShowPuts(s: Registry, op: Op)
    requires op.Show? && Newer(s, op.xid, op.generation)
    ensures Next(s, op).entries
            == s.entries[op.xid := s.entries[op.xid].(generation := op.generation, visibility := op.state)]
  {
  }

  lemma ShowIsHeard(s: Registry, op: Op, x: nat, a: Said)
    requires op.Show? && Records(s, x, a)
    ensures Records(Next(s, op), x, After(a, x, op, Newer(s, op.xid, op.generation)))
  {
    if op.xid == x && Newer(s, x, op.generation) {
      ShowPuts(s, op);
    } else {
      ReachesOne(s, op, x);
    }
  }

  lemma PaintSaysNothing(s: Registry, op: Op, x: nat, a: Said)
    requires op.Paint? && Records(s, x, a)
    ensures Records(Next(s, op), x, a)
  {
  }

  lemma UnregisterIsHeard(s: Registry, op: Op, x: nat, a: Said)
    requires op.Unregister? && Records(s, x, a)
    ensures Records(Next(s, op), x, After(a, x, op, Newer(s, op.xid, op.generation)))
  {
    var s' := UnregisterToplevel(s, op.xid, op.generation).0;
    var heard := Newer(s, op.xid, op.generation);
    var own := if heard && op.xid == x then Hear(a, op) else a;
    assert Records(s', x, own);
    if heard {
      assert Next(s, op).entries == s'.entries - Orphans(s'.entries, op.xid);
      assert x in Orphans(s'.entries, op.xid) <==> GoesWith(own, op.xid);
    }
  }

  lemma StepIsHeard(s: Registry, op: Op, x: nat, a: Said, mine: Said, ownerSaid: Said)
    requires Records(s, x, a) && Records(s, op.xid, mine) && Records(s, OwnerOf(op), ownerSaid)
    ensures Records(Next(s, op), x, After(a, x, op, Heard(op, mine, ownerSaid)))
  {
    HeardExactly(s, op, mine, ownerSaid);
    match op
    case Bind(_, _) => BindIsHeard(s, op, x, a);
    case Unbind(_, _) => UnbindIsHeard(s, op, x, a);
    case Register(_, _, _, _, _, _, _, _) => RegisterIsHeard(s, op, x, a);
    case Update(_, _, _, _, _) => UpdateIsHeard(s, op, x, a);
    case Show(_, _, _) => ShowIsHeard(s, op, x, a);
    case Unregister(_, _) => UnregisterIsHeard(s, op, x, a);
    case Paint(_, _, _) => PaintSaysNothing(s, op, x, a);
  }

  /** After every run the registry knows exactly the toplevels that the operations speak of, and records of
      each what they say. */
  lemma {:induction false} RegistryRecordsReplay(ops: seq<Op>, x: nat)
    ensures Records(Run(EMPTY_REGISTRY, ops), x, Replay(ops, x))
    decreases |ops|
  {
    if ops != [] {
      var front, op := ops[..|ops| - 1], ops[|ops| - 1];
      RegistryRecordsReplay(front, x);
      RegistryRecordsReplay(front, op.xid);
      RegistryRecordsReplay(front, OwnerOf(op));
      StepIsHeard(Run(EMPTY_REGISTRY, front), op, x, Replay(front, x), Replay(front, op.xid),
                  Replay(front, OwnerOf(op)));
    }
  }

  // ---- and asks the host for what was said ----

  /** What the host is asked for by an operation that is heard, from what was said before it. */
  predicate Asks(op: Op, a: Said, eff: Effect) {
    eff.applied &&
    match op
    case Bind(x, surface) => eff.xid == x && eff.surface == surface && eff.zOrder == KeepZ
    case Unbind(_, _) => eff == NO_EFFECT.(applied := true)
    case Register(x, _, _, _, geometry, popup, owner, kind) =>
      && eff.xid == x && eff.zOrder == KeepZ && eff.geometry == geometry && eff.hostApplySeq != 0
      && eff.applySize == a.extentAuthoritative && eff.kind != ApplyVisibility
      && (eff.kind == CreatePlaceholder ==> eff.isPopup == popup && eff.ownerXid == owner && eff.popupKind == kind)
    case Update(x, _, _, geometry, z) =>
      var moved := Effective(a, geometry).x != a.geometry.x || Effective(a, geometry).y != a.geometry.y;
      && eff.xid == x && eff.zOrder == z
      && (eff.kind == ApplyGeometry <==> moved || Resizes(a, geometry) || z != KeepZ)
      && (eff.kind == ApplyGeometry ==>
            && eff.geometry == Effective(a, geometry) && eff.hostApplySeq != 0
            && eff.applySize == (a.extentAuthoritative || Resizes(a, geometry)))
      && (eff.kind != ApplyGeometry ==> eff == NO_EFFECT.(applied := true, xid := x))
    case Show(x, _, state) =>
      && eff.xid == x && eff.zOrder == KeepZ && (eff.kind == ApplyVisibility <==> a.visibility != state)
      && (eff.kind == ApplyVisibility ==> eff.visibility == state && eff.hostApplySeq != 0)
      && (eff.kind != ApplyVisibility ==> eff == NO_EFFECT.(applied := true, xid := x))
    case Unregister(x, _) => eff.xid == x && eff.zOrder == KeepZ && eff.hostApplySeq == 0
    case Paint(_, _, _) => false
  }

  lemma ToplevelAsks(s: Registry, op: Op, a: Said, ownerSaid: Said)
    requires (op.Register? || op.Update?) && Records(s, op.xid, a) && Records(s, OwnerOf(op), ownerSaid)
    ensures if Heard(op, a, ownerSaid) then Asks(op, a, Step(s, op).1[0])
            else Next(s, op) == s && Step(s, op).1 == [NO_EFFECT]
  {
    HeardExactly(s, op, a, ownerSaid);
  }

  lemma OthersAsk(s: Registry, op: Op, a: Said)
    requires !op.Register? && !op.Update? && !op.Paint? && Records(s, op.xid, a)
    ensures if Heard(op, a, UNSAID) then Asks(op, a, Step(s, op).1[0])
            else Next(s, op) == s && Step(s, op).1 == [NO_EFFECT]
  {
    HeardOfOwn(op, a, UNSAID, UNSAID);
  }

  /** Only a registration looks at an owner. */
  lemma HeardOfOwn(op: Op, a: Said, b: Said, c: Said)
    requires !op.Register?
    ensures Heard(op, a, b) == Heard(op, a, c)
  {
  }

  /** After every run an operation that is heard asks the host for what it says, and one that is not
      changes nothing and asks for nothing. */
  lemma HostIsAskedWhatIsSaid(ops: seq<Op>, op: Op)
    requires !op.Paint?
    ensures var s := Run(EMPTY_REGISTRY, ops);
            if HeardAfter(ops, op) then Asks(op, Replay(ops, op.xid), Step(s, op).1[0])
            else Next(s, op) == s && Step(s, op).1 == [NO_EFFECT]
  {
    var s := Run(EMPTY_REGISTRY, ops);
    RegistryRecordsReplay(ops, op.xid);
    RegistryRecordsReplay(ops, OwnerOf(op));
    if op.Register? || op.Update? {
      ToplevelAsks(s, op, Replay(ops, op.xid), Replay(ops, OwnerOf(op)));
    } else {
      OthersAsk(s, op, Replay(ops, op.xid));
      HeardOfOwn(op, Replay(ops, op.xid), UNSAID, Replay(ops, OwnerOf(op)));
    }
  }
}
