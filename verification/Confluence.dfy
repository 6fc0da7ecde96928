/** Two-plane confluence. The app plane (binds and unbinds) and the sidecar plane (generation-tagged
    toplevel operations) reach the registry in any interleaving. Each plane is replayed here on its
    own, with no knowledge of the other; the registry turns out to be the join of the two replays,
    so the interleaving cannot matter. */
module Confluence {
  import opened RegistryModel

  // ---- the two planes, replayed separately ----

  /** The handle last bound to `x` and not since unbound, seen from the app plane alone. */
  function AppSurface(ops: seq<Op>, x: nat): nat {
    if ops == [] then 0
    else
      var before := AppSurface(ops[..|ops| - 1], x);
      var op := ops[|ops| - 1];
      if op.Bind? && op.xid == x && x != 0 then op.surface
      else if op.Unbind? && op.xid == x && op.surface == before then 0
      else before
  }

  /** What the sidecar plane alone says about one toplevel. */
  datatype Authored = Authored(
    registered: bool,
    generation: nat,
    role: string,
    title: string,
    geometry: Geometry,
    visibility: Visibility,
    extentAuthoritative: bool,
    lastZOrder: ZOrder)

  const UNAUTHORED := Authored(false, 0, "", "", ZERO_GEOMETRY, Visible, false, KeepZ)

  function Author(a: Authored, op: Op): Authored {
    match op
    case Register(_, g, role, title, geometry, _, _, _) =>
      Authored(true, g, role, title, geometry, Visible, a.extentAuthoritative, a.lastZOrder)
    case Update(_, g, role, geometry, z) =>
      var effective := if HasGeometry(geometry) then geometry else a.geometry;
      var resized := effective.width != a.geometry.width || effective.height != a.geometry.height;
      a.(generation := g, role := if role == "" then a.role else role, geometry := effective,
         extentAuthoritative := a.extentAuthoritative || resized,
         lastZOrder := if z == KeepZ then a.lastZOrder else z)
    case Show(_, g, state) => a.(generation := g, visibility := state)
    case Unregister(_, g) => UNAUTHORED.(generation := g, visibility := a.visibility)
    case _ => a
  }

  function AuthoredBy(ops: seq<Op>, x: nat): Authored {
    if ops == [] then UNAUTHORED
    else
      var before := AuthoredBy(ops[..|ops| - 1], x);
      var op := ops[|ops| - 1];
      if IsSidecarOp(op) && op.xid == x && x != 0 then Author(before, op) else before
  }

  /** The highest generation the sidecar has stamped. */
  function LastGeneration(ops: seq<Op>): nat {
    if ops == [] then 0
    else
      var op := ops[|ops| - 1];
      if IsSidecarOp(op) then op.generation else LastGeneration(ops[..|ops| - 1])
  }

  /** A sidecar operation the sidecar may append: the next generation, no popups, and updates,
      visibility changes and unregisters only for toplevels it has registered. */
  predicate MayFollow(ops: seq<Op>, op: Op) {
    IsSidecarOp(op) ==>
      && op.generation > LastGeneration(ops)
      && (if op.Register? then !op.isPopup else AuthoredBy(ops, op.xid).registered)
  }

  predicate WellFormedSidecar(ops: seq<Op>) {
    ops == [] || (WellFormedSidecar(ops[..|ops| - 1]) && MayFollow(ops[..|ops| - 1], ops[|ops| - 1]))
  }

  function AppOps(ops: seq<Op>): seq<Op> {
    if ops == [] then []
    else
      var front, op := ops[..|ops| - 1], ops[|ops| - 1];
      if IsAppOp(op) then AppOps(front) + [op] else AppOps(front)
  }

  function SidecarOps(ops: seq<Op>): seq<Op> {
    if ops == [] then []
    else
      var front, op := ops[..|ops| - 1], ops[|ops| - 1];
      if IsSidecarOp(op) then SidecarOps(front) + [op] else SidecarOps(front)
  }

  /** A run of the two planes only, with handles the worker could have minted. */
  predicate TwoPlane(ops: seq<Op>) {
    AllNonzero(ops) && forall op | op in ops :: IsAppOp(op) || IsSidecarOp(op)
  }

  // ---- the join ----

  /** The entry of `x`, if there is one, carries exactly what the sidecar authored. */
  ghost predicate Carries(e: Entry, a: Authored) {
    && e.registered == a.registered
    && e.role == a.role && e.title == a.title && e.geometry == a.geometry
    && e.extentAuthoritative == a.extentAuthoritative && e.lastZOrder == a.lastZOrder
    && (a.registered ==> e.generation == a.generation && e.visibility == a.visibility)
    && (!a.registered ==> e.generation == 0 || e.generation == a.generation)
    && (!a.registered ==> e.visibility == Visible || e.visibility == a.visibility)
  }

  /** The registry at `x` is the join of the bound surface and the authored toplevel. */
  ghost predicate JoinAt(s: Registry, x: nat, surface: nat, a: Authored) {
    && (x in s.entries <==> surface != 0 || a.registered)
    && (x in s.entries ==>
          && s.entries[x].surface == surface
          && (s.entries[x].representation == Surface <==> surface != 0)
          && !s.entries[x].isPopup
          && Carries(s.entries[x], a))
    && (!a.registered ==> a == UNAUTHORED.(generation := a.generation, visibility := a.visibility))
  }

  ghost predicate Join(s: Registry, ops: seq<Op>) {
    && (forall x :: JoinAt(s, x, AppSurface(ops, x), AuthoredBy(ops, x)))
    && (forall x :: AuthoredBy(ops, x).generation <= LastGeneration(ops))
  }

  lemma AppOpKeepsJoin(s: Registry, op: Op, x: nat, surface: nat, a: Authored)
    requires IsAppOp(op) && NonzeroHandles(op)
    requires JoinAt(s, x, surface, a)
    requires x == 0 ==> surface == 0
    ensures JoinAt(Next(s, op), x,
                   if op.Bind? && op.xid == x && x != 0 then op.surface
                   else if op.Unbind? && op.xid == x && op.surface == surface then 0 else surface, a)
  {
  }

  /** With no popup of `owner` registered, the cascade finds nothing. */
  lemma NoPopupsNoCascade(s: Registry, owner: nat)
    requires forall x | x in s.entries :: !s.entries[x].isPopup
    ensures TakeOrphanedPopups(s, owner).0 == s
  {
    assert Orphans(s.entries, owner) == {};
    assert s.entries - {} == s.entries;
  }

  /** A sidecar operation reaches no entry but its own when there are no popups. */
  lemma SidecarOpIsLocal(s: Registry, op: Op, x: nat)
    requires IsSidecarOp(op) && x != op.xid
    requires forall y | y in s.entries :: !s.entries[y].isPopup
    ensures x in Next(s, op).entries <==> x in s.entries
    ensures x in s.entries ==> Next(s, op).entries[x] == s.entries[x]
  {
    if op.Unregister? {
      NoPopupsNoCascade(UnregisterToplevel(s, op.xid, op.generation).0, op.xid);
    }
  }

  lemma RegisterKeepsJoin(s: Registry, op: Op, surface: nat, a: Authored)
    requires op.Register? && !op.isPopup && op.xid != 0
    requires op.xid in s.entries ==> s.entries[op.xid].generation < op.generation
    requires JoinAt(s, op.xid, surface, a)
    ensures JoinAt(Next(s, op), op.xid, surface, Author(a, op))
  {
  }

  lemma UpdateKeepsJoin(s: Registry, op: Op, surface: nat, a: Authored)
    requires op.Update? && a.registered && op.xid != 0
    requires op.xid in s.entries ==> s.entries[op.xid].generation < op.generation
    requires JoinAt(s, op.xid, surface, a)
    ensures JoinAt(Next(s, op), op.xid, surface, Author(a, op))
  {
  }

  lemma ShowKeepsJoin(s: Registry, op: Op, surface: nat, a: Authored)
    requires op.Show? && a.registered && op.xid != 0
    requires op.xid in s.entries ==> s.entries[op.xid].generation < op.generation
    requires JoinAt(s, op.xid, surface, a)
    ensures JoinAt(Next(s, op), op.xid, surface, Author(a, op))
  {
    assert Next(s, op).entries[op.xid] ==
           s.entries[op.xid].(generation := op.generation, visibility := op.state);
  }

  lemma UnregisterKeepsJoin(s: Registry, op: Op, surface: nat, a: Authored)
    requires op.Unregister? && a.registered && op.xid != 0
    requires forall y | y in s.entries :: !s.entries[y].isPopup
    requires op.xid in s.entries ==> s.entries[op.xid].generation < op.generation
    requires JoinAt(s, op.xid, surface, a)
    ensures JoinAt(Next(s, op), op.xid, surface, Author(a, op))
  {
    NoPopupsNoCascade(UnregisterToplevel(s, op.xid, op.generation).0, op.xid);
  }

  lemma SidecarOpKeepsJoin(s: Registry, op: Op, surface: nat, a: Authored)
    requires IsSidecarOp(op) && (if op.Register? then !op.isPopup else a.registered)
    requires forall y | y in s.entries :: !s.entries[y].isPopup
    requires op.xid in s.entries ==> s.entries[op.xid].generation < op.generation
    requires op.xid == 0 ==> a == UNAUTHORED
    requires JoinAt(s, op.xid, surface, a)
    ensures JoinAt(Next(s, op), op.xid, surface, if op.xid == 0 then a else Author(a, op))
  {
    if op.xid != 0 {
      match op
      case Register(_, _, _, _, _, _, _, _) => RegisterKeepsJoin(s, op, surface, a);
      case Unregister(_, _) => UnregisterKeepsJoin(s, op, surface, a);
      case Update(_, _, _, _, _) => UpdateKeepsJoin(s, op, surface, a);
      case Show(_, _, _) => ShowKeepsJoin(s, op, surface, a);
    }
  }

  /** Every interleaving of the two planes ends in the join of the two replays. */
  lemma {:induction false} RunIsJoin(ops: seq<Op>)
    requires TwoPlane(ops) && WellFormedSidecar(ops)
    ensures Join(Run(EMPTY_REGISTRY, ops), ops)
  {
    if ops != [] {
      var front, op := ops[..|ops| - 1], ops[|ops| - 1];
      var s := Run(EMPTY_REGISTRY, front);
      RunIsJoin(front);
      assert op in ops;
      assert forall x | x in s.entries :: JoinAt(s, x, AppSurface(front, x), AuthoredBy(front, x));
      forall x
        ensures JoinAt(Next(s, op), x, AppSurface(ops, x), AuthoredBy(ops, x))
      {
        assert JoinAt(s, x, AppSurface(front, x), AuthoredBy(front, x));
        assert AuthoredBy(front, x).generation <= LastGeneration(front);
        if IsAppOp(op) {
          ZeroHasNoSurface(front);
          AppOpKeepsJoin(s, op, x, AppSurface(front, x), AuthoredBy(front, x));
        } else {
          ZeroNotAuthored(front);
          if x == op.xid {
            SidecarOpKeepsJoin(s, op, AppSurface(front, x), AuthoredBy(front, x));
          } else {
            SidecarOpIsLocal(s, op, x);
          }
        }
      }
    }
  }

  lemma {:induction false} ZeroHasNoSurface(ops: seq<Op>)
    ensures AppSurface(ops, 0) == 0
  {
    if ops != [] {
      ZeroHasNoSurface(ops[..|ops| - 1]);
    }
  }

  lemma {:induction false} ZeroNotAuthored(ops: seq<Op>)
    ensures AuthoredBy(ops, 0) == UNAUTHORED
  {
    if ops != [] {
      ZeroNotAuthored(ops[..|ops| - 1]);
    }
  }

  // ---- confluence ----

  lemma {:induction false} AppPlaneIsIndependent(ops: seq<Op>, x: nat)
    requires forall op | op in ops :: IsAppOp(op) || IsSidecarOp(op)
    ensures AppSurface(ops, x) == AppSurface(AppOps(ops), x)
  {
    if ops != [] {
      var front, op := ops[..|ops| - 1], ops[|ops| - 1];
      AppPlaneIsIndependent(front, x);
      assert op in ops;
      Snoc(AppOps(front), op);
    }
  }

  lemma {:induction false} SidecarPlaneIsIndependent(ops: seq<Op>, x: nat)
    requires forall op | op in ops :: IsAppOp(op) || IsSidecarOp(op)
    ensures AuthoredBy(ops, x) == AuthoredBy(SidecarOps(ops), x)
    ensures LastGeneration(ops) == LastGeneration(SidecarOps(ops))
  {
    if ops != [] {
      var front, op := ops[..|ops| - 1], ops[|ops| - 1];
      SidecarPlaneIsIndependent(front, x);
      assert op in ops;
      Snoc(SidecarOps(front), op);
    }
  }

  /** Each replay looks at its own plane only. */
  lemma PlanesAreIndependent(ops: seq<Op>, x: nat)
    requires forall op | op in ops :: IsAppOp(op) || IsSidecarOp(op)
    ensures AppSurface(ops, x) == AppSurface(AppOps(ops), x)
    ensures AuthoredBy(ops, x) == AuthoredBy(SidecarOps(ops), x)
    ensures LastGeneration(ops) == LastGeneration(SidecarOps(ops))
  {
    AppPlaneIsIndependent(ops, x);
    SidecarPlaneIsIndependent(ops, x);
  }

  lemma Snoc(ops: seq<Op>, op: Op)
    ensures (ops + [op])[..|ops + [op]| - 1] == ops && (ops + [op])[|ops + [op]| - 1] == op
  {
  }

  lemma {:induction false} WellFormedOnItsPlane(ops: seq<Op>)
    requires forall op | op in ops :: IsAppOp(op) || IsSidecarOp(op)
    requires WellFormedSidecar(SidecarOps(ops))
    ensures WellFormedSidecar(ops)
  {
    if ops != [] {
      var front, op := ops[..|ops| - 1], ops[|ops| - 1];
      assert op in ops;
      Snoc(SidecarOps(front), op);
      WellFormedOnItsPlane(front);
      PlanesAreIndependent(front, op.xid);
    }
  }

  predicate Interleaves(ops: seq<Op>, app: seq<Op>, sidecar: seq<Op>) {
    TwoPlane(ops) && AppOps(ops) == app && SidecarOps(ops) == sidecar
  }

  /** Two registries agree at `x` on all that both planes have settled. */
  ghost predicate AgreeAt(s: Registry, t: Registry, x: nat) {
    && (x in s.entries <==> x in t.entries)
    && SurfaceFor(s, x) == SurfaceFor(t, x)
    && (x in s.entries ==>
          var e, f := s.entries[x], t.entries[x];
          && (e.representation == Surface <==> f.representation == Surface)
          && e.registered == f.registered && e.role == f.role && e.title == f.title
          && e.geometry == f.geometry && e.extentAuthoritative == f.extentAuthoritative
          && e.lastZOrder == f.lastZOrder
          && (e.registered ==> e.generation == f.generation && e.visibility == f.visibility))
  }

  /** Confluence: whatever the interleaving, the registry ends with the same bound surfaces and the
      same registered toplevels; an entry exists exactly for a bound surface or a registered
      toplevel and is a surface exactly when one is bound. */
  lemma InterleavingsAgree(r1: seq<Op>, r2: seq<Op>, app: seq<Op>, sidecar: seq<Op>, x: nat)
    requires Interleaves(r1, app, sidecar) && Interleaves(r2, app, sidecar)
    requires WellFormedSidecar(sidecar)
    ensures AgreeAt(Run(EMPTY_REGISTRY, r1), Run(EMPTY_REGISTRY, r2), x)
    ensures JoinAt(Run(EMPTY_REGISTRY, r1), x, AppSurface(app, x), AuthoredBy(sidecar, x))
  {
    JoinOfPlanes(r1, app, sidecar, x);
    JoinOfPlanes(r2, app, sidecar, x);
  }

  lemma JoinOfPlanes(ops: seq<Op>, app: seq<Op>, sidecar: seq<Op>, x: nat)
    requires Interleaves(ops, app, sidecar) && WellFormedSidecar(sidecar)
    ensures JoinAt(Run(EMPTY_REGISTRY, ops), x, AppSurface(app, x), AuthoredBy(sidecar, x))
  {
    WellFormedOnItsPlane(ops);
    RunIsJoin(ops);
    PlanesAreIndependent(ops, x);
  }

  // ---- what is not settled: the leftovers of an unregistered toplevel under a live surface ----

  predicate AppPlane(ops: seq<Op>) {
    forall op | op in ops :: IsAppOp(op) && NonzeroHandles(op)
  }

  predicate SidecarPlane(ops: seq<Op>) {
    forall op | op in ops :: IsSidecarOp(op)
  }

  /** The generation and the visibility of `x` after `ops`. */
  function Leftovers(ops: seq<Op>, x: nat): (nat, Visibility) {
    (GenerationFor(Run(EMPTY_REGISTRY, ops), x), VisibilityFor(Run(EMPTY_REGISTRY, ops), x))
  }

  lemma {:induction false} FiltersOfConcat(a: seq<Op>, b: seq<Op>)
    ensures AppOps(a + b) == AppOps(a) + AppOps(b)
    ensures SidecarOps(a + b) == SidecarOps(a) + SidecarOps(b)
  {
    if b == [] {
      assert a + b == a;
    } else {
      var front, op := b[..|b| - 1], b[|b| - 1];
      assert (a + b)[..|a + b| - 1] == a + front;
      FiltersOfConcat(a, front);
    }
  }

  lemma {:induction false} FilterOfOwnKind(ops: seq<Op>)
    ensures (forall op | op in ops :: IsAppOp(op)) ==> AppOps(ops) == ops && SidecarOps(ops) == []
    ensures (forall op | op in ops :: IsSidecarOp(op)) ==> SidecarOps(ops) == ops && AppOps(ops) == []
  {
    if ops != [] {
      var front, op := ops[..|ops| - 1], ops[|ops| - 1];
      FilterOfOwnKind(front);
      assert op in ops && forall o | o in front :: o in ops;
      assert ops == front + [op];
    }
  }

  lemma ConcatIsTwoPlane(a: seq<Op>, b: seq<Op>)
    requires TwoPlane(a) && TwoPlane(b)
    ensures TwoPlane(a + b)
  {
    assert forall op | op in a + b :: op in a || op in b;
  }

  lemma AppFirstInterleaves(app: seq<Op>, sidecar: seq<Op>)
    requires AppPlane(app) && SidecarPlane(sidecar)
    ensures Interleaves(app + sidecar, app, sidecar)
  {
    ConcatIsTwoPlane(app, sidecar);
    FiltersOfConcat(app, sidecar);
    FilterOfOwnKind(app);
    FilterOfOwnKind(sidecar);
    assert app + [] == app && [] + sidecar == sidecar;
  }

  lemma SidecarFirstInterleaves(app: seq<Op>, sidecar: seq<Op>)
    requires AppPlane(app) && SidecarPlane(sidecar)
    ensures Interleaves(sidecar + app, app, sidecar)
  {
    ConcatIsTwoPlane(sidecar, app);
    FiltersOfConcat(sidecar, app);
    FilterOfOwnKind(app);
    FilterOfOwnKind(sidecar);
    assert [] + app == app && sidecar + [] == sidecar;
  }

  lemma EitherOrderInterleaves(app: seq<Op>, sidecar: seq<Op>)
    requires AppPlane(app) && SidecarPlane(sidecar)
    ensures Interleaves(app + sidecar, app, sidecar)
    ensures Interleaves(sidecar + app, app, sidecar)
  {
    AppFirstInterleaves(app, sidecar);
    SidecarFirstInterleaves(app, sidecar);
  }

  /** An app-plane step hands an entry's generation and visibility on, and starts a new entry
      with none. */
  lemma AppStepLeftovers(s: Registry, op: Op, x: nat)
    requires IsAppOp(op)
    ensures x in Next(s, op).entries ==>
              GenerationFor(Next(s, op), x) == GenerationFor(s, x) &&
              VisibilityFor(Next(s, op), x) == VisibilityFor(s, x)
  {
  }

  lemma SidecarStepLeftovers(s: Registry, op: Op, surface: nat, a: Authored)
    requires IsSidecarOp(op) && op.xid != 0 && surface != 0
    requires if op.Register? then !op.isPopup else a.registered
    requires forall y | y in s.entries :: !s.entries[y].isPopup
    requires JoinAt(s, op.xid, surface, a) && GenerationFor(s, op.xid) < op.generation
    requires VisibilityFor(s, op.xid) == a.visibility
    ensures GenerationFor(Next(s, op), op.xid) == Author(a, op).generation
    ensures VisibilityFor(Next(s, op), op.xid) == Author(a, op).visibility
  {
    if op.Unregister? {
      NoPopupsNoCascade(UnregisterToplevel(s, op.xid, op.generation).0, op.xid);
    }
  }

  /** With the surface bound throughout, an unregistered entry keeps the sidecar's last word. */
  lemma {:induction false} AppFirstKeepsLeftovers(app: seq<Op>, sidecar: seq<Op>, x: nat)
    requires AppPlane(app) && SidecarPlane(sidecar)
    requires WellFormedSidecar(sidecar) && AppSurface(app, x) != 0
    ensures Leftovers(app + sidecar, x) == (AuthoredBy(sidecar, x).generation, AuthoredBy(sidecar, x).visibility)
  {
    if sidecar == [] {
      assert app + sidecar == [] + app;
      SidecarFirstForgets(app, [], x);
    } else {
      var front, op := sidecar[..|sidecar| - 1], sidecar[|sidecar| - 1];
      assert op in sidecar;
      AppFirstKeepsLeftovers(app, front, x);
      assert (app + sidecar)[..|app + sidecar| - 1] == app + front;
      var s := Run(EMPTY_REGISTRY, app + front);
      AppFirstJoin(app, front);
      ZeroHasNoSurface(app);
      GenerationsBounded(front, x);
      if x == op.xid {
        SidecarStepLeftovers(s, op, AppSurface(app, x), AuthoredBy(front, x));
      } else {
        SidecarOpIsLocal(s, op, x);
      }
    }
  }

  lemma AppFirstJoin(app: seq<Op>, sidecar: seq<Op>)
    requires AppPlane(app) && SidecarPlane(sidecar) && WellFormedSidecar(sidecar)
    ensures forall y :: JoinAt(Run(EMPTY_REGISTRY, app + sidecar), y, AppSurface(app, y), AuthoredBy(sidecar, y))
    ensures forall y | y in Run(EMPTY_REGISTRY, app + sidecar).entries ::
              !Run(EMPTY_REGISTRY, app + sidecar).entries[y].isPopup
  {
    var s := Run(EMPTY_REGISTRY, app + sidecar);
    EitherOrderInterleaves(app, sidecar);
    forall y
      ensures JoinAt(s, y, AppSurface(app, y), AuthoredBy(sidecar, y))
      ensures y in s.entries ==> !s.entries[y].isPopup
    {
      JoinOfPlanes(app + sidecar, app, sidecar, y);
    }
  }

  lemma {:induction false} GenerationsBounded(ops: seq<Op>, x: nat)
    requires WellFormedSidecar(ops)
    ensures AuthoredBy(ops, x).generation <= LastGeneration(ops)
  {
    if ops != [] {
      GenerationsBounded(ops[..|ops| - 1], x);
    }
  }

  /** Once the sidecar is done with a toplevel and its entry is erased, a later surface starts
      afresh. */
  lemma {:induction false} SidecarFirstForgets(app: seq<Op>, sidecar: seq<Op>, x: nat)
    requires AppPlane(app) && SidecarPlane(sidecar)
    requires WellFormedSidecar(sidecar) && !AuthoredBy(sidecar, x).registered
    ensures Leftovers(sidecar + app, x) == (0, Visible)
  {
    if app == [] {
      assert sidecar + app == sidecar;
      EitherOrderInterleaves([], sidecar);
      JoinOfPlanes(sidecar + [], [], sidecar, x);
    } else {
      var front, op := app[..|app| - 1], app[|app| - 1];
      assert op in app;
      SidecarFirstForgets(front, sidecar, x);
      assert (sidecar + app)[..|sidecar + app| - 1] == sidecar + front;
      AppStepLeftovers(Run(EMPTY_REGISTRY, sidecar + front), op, x);
    }
  }

  /** The generation and the visibility recorded for a toplevel are settled by the two planes if and
      only if the toplevel ends registered, or ends without a surface, or the sidecar left nothing
      behind: no generation and no hidden state. */
  lemma LeftoversSettledExactlyWhen(app: seq<Op>, sidecar: seq<Op>, x: nat)
    requires AppPlane(app) && SidecarPlane(sidecar) && WellFormedSidecar(sidecar)
    ensures (forall r1, r2 | Interleaves(r1, app, sidecar) && Interleaves(r2, app, sidecar) ::
               Leftovers(r1, x) == Leftovers(r2, x)) <==>
            (|| AuthoredBy(sidecar, x).registered
             || AppSurface(app, x) == 0
             || (AuthoredBy(sidecar, x).generation == 0 && AuthoredBy(sidecar, x).visibility == Visible))
  {
    var a := AuthoredBy(sidecar, x);
    if a.registered || AppSurface(app, x) == 0 || (a.generation == 0 && a.visibility == Visible) {
      forall r1, r2 | Interleaves(r1, app, sidecar) && Interleaves(r2, app, sidecar)
        ensures Leftovers(r1, x) == Leftovers(r2, x)
      {
        InterleavingsAgree(r1, r2, app, sidecar, x);
        JoinOfPlanes(r2, app, sidecar, x);
      }
    } else {
      EitherOrderInterleaves(app, sidecar);
      AppFirstKeepsLeftovers(app, sidecar, x);
      SidecarFirstForgets(app, sidecar, x);
      assert Leftovers(app + sidecar, x) != Leftovers(sidecar + app, x);
    }
  }
}
