/** The worker's window registry as values: what an entry holds, what a transition may ask of the
    host, and one pure function per registry transition.

    Handles, generations and the three minting counters are 64-bit in the program and unbounded
    here; nothing below depends on a counter wrapping. */
module RegistryModel {

  /** The host representation of a guest toplevel. */
  datatype Representation = Unrepresented | Placeholder | Surface

  datatype Geometry = Geometry(x: int, y: int, width: nat, height: nat)

  datatype ZOrder = KeepZ | Raise | Lower

  datatype Visibility = Visible | Hidden | Iconic

  datatype EffectKind =
    | NoHostWork
    | CreatePlaceholder
    | DestroyPlaceholder
    | PromotePlaceholder
    | ApplyGeometry
    | ApplyVisibility

  /** What the backend must do to the host after a transition. */
  datatype Effect = Effect(
    kind: EffectKind,
    applied: bool,
    xid: nat,
    placeholderId: nat,
    surface: nat,
    geometry: Geometry,
    isPopup: bool,
    ownerXid: nat,
    popupKind: nat,
    hostApplySeq: nat,
    applySize: bool,
    zOrder: ZOrder,
    visibility: Visibility)

  datatype Entry = Entry(
    xid: nat,
    surface: nat,                // bound surface handle, 0 = none
    representation: Representation,
    placeholderId: nat,
    registered: bool,            // the sidecar registered this toplevel
    generation: nat,             // highest sidecar generation applied
    epoch: nat,                  // id of the current representation instance
    role: string,
    title: string,
    geometry: Geometry,
    extentAuthoritative: bool,   // the sidecar has authored a resize
    lastZOrder: ZOrder,
    visibility: Visibility,
    isPopup: bool,
    ownerXid: nat,
    popupKind: nat,
    shown: bool,                 // the placeholder has been painted and shown
    lastPaintSeq: nat)

  datatype Registry = Registry(
    entries: map<nat, Entry>,
    nextPlaceholderId: nat,
    nextEpoch: nat,
    nextHostApplySeq: nat)

  datatype PaintDecision = PaintDecision(accepted: bool, firstPaint: bool, placeholderId: nat)

  const ZERO_GEOMETRY := Geometry(0, 0, 0, 0)

  const NO_EFFECT :=
    Effect(NoHostWork, false, 0, 0, 0, ZERO_GEOMETRY, false, 0, 0, 0, false, KeepZ, Visible)

  const BLANK_ENTRY :=
    Entry(0, 0, Unrepresented, 0, false, 0, 0, "", "", ZERO_GEOMETRY, false, KeepZ, Visible,
          false, 0, 0, false, 0)

  const EMPTY_REGISTRY := Registry(map[], 0, 0, 0)

  // ---- read-only queries ----

  function SurfaceFor(s: Registry, xid: nat): nat {
    if xid in s.entries then s.entries[xid].surface else 0
  }

  predicate RegisteredFor(s: Registry, xid: nat) {
    xid in s.entries && s.entries[xid].registered
  }

  function GenerationFor(s: Registry, xid: nat): nat {
    if xid in s.entries then s.entries[xid].generation else 0
  }

  function VisibilityFor(s: Registry, xid: nat): Visibility {
    if xid in s.entries then s.entries[xid].visibility else Visible
  }

  function EpochFor(s: Registry, xid: nat): nat {
    if xid in s.entries then s.entries[xid].epoch else 0
  }

  predicate WantsPlaceholder(s: Registry, xid: nat, placeholderId: nat) {
    xid in s.entries && s.entries[xid].representation == Placeholder &&
    s.entries[xid].placeholderId == placeholderId
  }

  predicate OwnerLive(s: Registry, owner: nat) {
    owner != 0 && owner in s.entries && s.entries[owner].registered && !s.entries[owner].isPopup
  }

  // ---- surface side ----

  /** An effect stamped so that the host is placed at the entry's current geometry. */
  function Stamped(eff: Effect, e: Entry, seqNo: nat): Effect {
    eff.(geometry := e.geometry, hostApplySeq := seqNo, applySize := e.extentAuthoritative)
  }

  function BindSurface(s: Registry, xid: nat, surface: nat): (Registry, Effect) {
    if xid == 0 then (s, NO_EFFECT)
    else
      var prior := if xid in s.entries then s.entries[xid] else BLANK_ENTRY.(xid := xid);
      var e := prior.(surface := surface, representation := Surface, epoch := s.nextEpoch + 1,
                      placeholderId := if prior.representation == Placeholder then 0 else prior.placeholderId);
      var promoted := prior.representation == Placeholder;
      var s' := s.(entries := s.entries[xid := e], nextEpoch := s.nextEpoch + 1);
      var eff := NO_EFFECT.(applied := true, xid := xid, surface := surface,
                            kind := if promoted then PromotePlaceholder else NoHostWork,
                            placeholderId := if promoted then prior.placeholderId else 0);
      if promoted || prior.registered then
        (s'.(nextHostApplySeq := s.nextHostApplySeq + 1), Stamped(eff, e, s.nextHostApplySeq + 1))
      else
        (s', eff)
  }

  function UnbindSurface(s: Registry, xid: nat, surface: nat): (Registry, Effect) {
    if xid == 0 || xid !in s.entries || s.entries[xid].surface != surface then (s, NO_EFFECT)
    else
      var e := s.entries[xid];
      var kept := if e.registered
                  then s.entries[xid := e.(surface := 0, representation := Unrepresented)]
                  else s.entries - {xid};
      (s.(entries := kept), NO_EFFECT.(applied := true))
  }

  // ---- toplevel side ----

  /** A sidecar operation reaches an entry only with a strictly newer generation. */
  predicate Newer(s: Registry, xid: nat, generation: nat) {
    xid != 0 && xid in s.entries && s.entries[xid].generation < generation
  }

  predicate RegisterAdmitted(s: Registry, xid: nat, generation: nat, isPopup: bool, owner: nat) {
    xid != 0 && (xid in s.entries ==> s.entries[xid].generation < generation) &&
    (isPopup ==> OwnerLive(s, owner))
  }

  function RegisterToplevel(s: Registry, xid: nat, generation: nat, role: string, title: string,
                            geometry: Geometry, isPopup: bool, owner: nat, popupKind: nat)
    : (Registry, Effect)
  {
    if !RegisterAdmitted(s, xid, generation, isPopup, owner) then (s, NO_EFFECT)
    else
      var existed := xid in s.entries;
      var prior := if existed then s.entries[xid] else BLANK_ENTRY;
      var noted := prior.(xid := xid, generation := generation, registered := true,
                          visibility := Visible, role := role, title := title,
                          geometry := geometry, isPopup := isPopup, ownerXid := owner,
                          popupKind := popupKind);
      var seqNo := s.nextHostApplySeq + 1;
      var eff := NO_EFFECT.(applied := true, xid := xid);
      if prior.surface != 0 then
        var remap := existed && !prior.registered && prior.generation > 0;
        var e := noted.(representation := Surface,
                        epoch := if remap then s.nextEpoch + 1 else prior.epoch);
        (s.(entries := s.entries[xid := e], nextHostApplySeq := seqNo,
            nextEpoch := if remap then s.nextEpoch + 1 else s.nextEpoch),
         Stamped(eff, e, seqNo))
      else if prior.representation == Placeholder then
        (s.(entries := s.entries[xid := noted], nextHostApplySeq := seqNo),
         Stamped(eff, noted, seqNo))
      else
        var e := noted.(representation := Placeholder, placeholderId := s.nextPlaceholderId + 1,
                        epoch := s.nextEpoch + 1, shown := false, lastPaintSeq := 0);
        (s.(entries := s.entries[xid := e], nextHostApplySeq := seqNo,
            nextEpoch := s.nextEpoch + 1, nextPlaceholderId := s.nextPlaceholderId + 1),
         Stamped(eff.(kind := CreatePlaceholder, placeholderId := e.placeholderId,
                      isPopup := isPopup, ownerXid := owner, popupKind := popupKind), e, seqNo))
  }

  /** A zero width or height means "geometry not provided". */
  predicate HasGeometry(g: Geometry) {
    g.width > 0 && g.height > 0
  }

  function UpdateToplevel(s: Registry, xid: nat, generation: nat, role: string,
                          geometry: Geometry, zOrder: ZOrder): (Registry, Effect)
  {
    if !Newer(s, xid, generation) then (s, NO_EFFECT)
    else
      var prior := s.entries[xid];
      var effective := if HasGeometry(geometry) then geometry else prior.geometry;
      var moved := effective.x != prior.geometry.x || effective.y != prior.geometry.y;
      var resized := effective.width != prior.geometry.width || effective.height != prior.geometry.height;
      var e := prior.(generation := generation,
                      role := if role == "" then prior.role else role,
                      geometry := effective,
                      extentAuthoritative := prior.extentAuthoritative || resized,
                      lastZOrder := if zOrder == KeepZ then prior.lastZOrder else zOrder);
      var s' := s.(entries := s.entries[xid := e]);
      var eff := NO_EFFECT.(applied := true, xid := xid);
      if moved || resized || zOrder != KeepZ then
        (s'.(nextHostApplySeq := s.nextHostApplySeq + 1),
         Stamped(eff.(kind := ApplyGeometry, zOrder := zOrder), e, s.nextHostApplySeq + 1))
      else
        (s', eff)
  }

  function SetVisibility(s: Registry, xid: nat, generation: nat, state: Visibility)
    : (Registry, Effect)
  {
    if !Newer(s, xid, generation) then (s, NO_EFFECT)
    else
      var prior := s.entries[xid];
      var s' := s.(entries := s.entries[xid := prior.(generation := generation, visibility := state)]);
      var eff := NO_EFFECT.(applied := true, xid := xid);
      if prior.visibility != state then
        (s'.(nextHostApplySeq := s.nextHostApplySeq + 1),
         eff.(kind := ApplyVisibility, visibility := state, hostApplySeq := s.nextHostApplySeq + 1))
      else
        (s', eff)
  }

  function UnregisterToplevel(s: Registry, xid: nat, generation: nat): (Registry, Effect) {
    if !Newer(s, xid, generation) then (s, NO_EFFECT)
    else
      var prior := s.entries[xid];
      var eff := NO_EFFECT.(applied := true, xid := xid);
      if prior.representation == Placeholder then
        (s.(entries := s.entries - {xid}),
         eff.(kind := DestroyPlaceholder, placeholderId := prior.placeholderId))
      else if prior.surface == 0 then
        (s.(entries := s.entries - {xid}), eff)
      else
        var e := prior.(generation := generation, registered := false, role := "", title := "",
                        geometry := ZERO_GEOMETRY, extentAuthoritative := false, lastZOrder := KeepZ);
        (s.(entries := s.entries[xid := e]), eff)
  }

  // ---- owner-teardown cascade ----

  predicate IsLeast(m: nat, keys: set<nat>) {
    m in keys && forall k | k in keys :: m <= k
  }

  lemma {:induction false} LeastExists(keys: set<nat>) returns (m: nat)
    requires keys != {}
    ensures IsLeast(m, keys)
    decreases |keys|
  {
    var k :| k in keys;
    var others := keys - {k};
    m := k;
    if others != {} {
      var n := LeastExists(others);
      m := if n < k then n else k;
    }
    assert forall j | j in keys :: j == k || j in others;
  }

  function Least(keys: set<nat>): (m: nat)
    requires keys != {}
    ensures IsLeast(m, keys)
  {
    assert exists m: nat :: IsLeast(m, keys) by {
      var witnessed := LeastExists(keys);
    }
    var m: nat :| IsLeast(m, keys);
    m
  }

  /** The keys in the order an ordered map visits them. */
  function Ascending(keys: set<nat>): (ks: seq<nat>)
    ensures forall k :: k in ks <==> k in keys
    ensures forall i, j | 0 <= i < j < |ks| :: ks[i] < ks[j]
    decreases |keys|
  {
    if keys == {} then []
    else
      var m := Least(keys);
      var rest := Ascending(keys - {m});
      [m] + rest
  }

  function Orphans(entries: map<nat, Entry>, owner: nat): set<nat> {
    set x | x in entries && entries[x].isPopup && entries[x].ownerXid == owner
  }

  function OrphanEffect(e: Entry, owner: nat): Effect {
    var eff := NO_EFFECT.(applied := true, xid := e.xid, isPopup := true, ownerXid := owner);
    if e.representation == Placeholder
    then eff.(kind := DestroyPlaceholder, placeholderId := e.placeholderId)
    else eff
  }

  function OrphanEffects(entries: map<nat, Entry>, owner: nat, xids: seq<nat>): (effs: seq<Effect>)
    requires forall x | x in xids :: x in entries
    ensures |effs| == |xids|
    ensures forall i | 0 <= i < |xids| :: effs[i] == OrphanEffect(entries[xids[i]], owner)
  {
    if xids == [] then []
    else [OrphanEffect(entries[xids[0]], owner)] + OrphanEffects(entries, owner, xids[1..])
  }

  function TakeOrphanedPopups(s: Registry, owner: nat): (Registry, seq<Effect>) {
    if owner == 0 then (s, [])
    else
      var orphans := Orphans(s.entries, owner);
      (s.(entries := s.entries - orphans),
       OrphanEffects(s.entries, owner, Ascending(orphans)))
  }

  // ---- chrome paint ----

  predicate PaintGate(s: Registry, xid: nat, generation: nat, seqNo: nat) {
    xid in s.entries && s.entries[xid].representation == Placeholder &&
    generation == s.entries[xid].generation && s.entries[xid].lastPaintSeq < seqNo
  }

  function AcceptPaint(s: Registry, xid: nat, generation: nat, seqNo: nat): PaintDecision {
    if PaintGate(s, xid, generation, seqNo)
    then PaintDecision(true, !s.entries[xid].shown, s.entries[xid].placeholderId)
    else PaintDecision(false, false, 0)
  }

  function CommitPaint(s: Registry, xid: nat, generation: nat, seqNo: nat): (Registry, bool) {
    if PaintGate(s, xid, generation, seqNo)
    then (s.(entries := s.entries[xid := s.entries[xid].(shown := true, lastPaintSeq := seqNo)]), true)
    else (s, false)
  }

  // ---- transitions as the backends perform them, each under one lock ----

  datatype Op =
    | Bind(xid: nat, surface: nat)
    | Unbind(xid: nat, surface: nat)
    | Register(xid: nat, generation: nat, role: string, title: string, geometry: Geometry,
               isPopup: bool, owner: nat, popupKind: nat)
    | Update(xid: nat, generation: nat, role: string, geometry: Geometry, zOrder: ZOrder)
    | Show(xid: nat, generation: nat, state: Visibility)
    | Unregister(xid: nat, generation: nat)   // with the popup cascade, when it applied
    | Paint(xid: nat, generation: nat, seqNo: nat)

  predicate IsAppOp(op: Op) {
    op.Bind? || op.Unbind?
  }

  predicate IsSidecarOp(op: Op) {
    op.Register? || op.Update? || op.Show? || op.Unregister?
  }

  function Step(s: Registry, op: Op): (Registry, seq<Effect>) {
    match op
    case Bind(x, surface) => var (s', eff) := BindSurface(s, x, surface); (s', [eff])
    case Unbind(x, surface) => var (s', eff) := UnbindSurface(s, x, surface); (s', [eff])
    case Register(x, g, role, title, geom, popup, owner, pk) =>
      var (s', eff) := RegisterToplevel(s, x, g, role, title, geom, popup, owner, pk);
      (s', [eff])
    case Update(x, g, role, geom, z) =>
      var (s', eff) := UpdateToplevel(s, x, g, role, geom, z);
      (s', [eff])
    case Show(x, g, state) => var (s', eff) := SetVisibility(s, x, g, state); (s', [eff])
    case Unregister(x, g) =>
      var (s', eff) := UnregisterToplevel(s, x, g);
      if eff.applied then
        var (s'', effs) := TakeOrphanedPopups(s', x);
        (s'', [eff] + effs)
      else
        (s', [eff])
    case Paint(x, g, n) => (CommitPaint(s, x, g, n).0, [])
  }

  function Next(s: Registry, op: Op): Registry {
    Step(s, op).0
  }

  /** The state after a run of transitions. */
  function Run(s: Registry, ops: seq<Op>): Registry {
    if ops == [] then s else Next(Run(s, ops[..|ops| - 1]), ops[|ops| - 1])
  }

  lemma RunOneMore(s: Registry, ops: seq<Op>, op: Op)
    ensures Run(s, ops + [op]) == Next(Run(s, ops), op)
  {
    assert (ops + [op])[..|ops|] == ops;
  }

  /** Surface handles are minted from 1 upwards, so an unbind never names handle 0. */
  predicate NonzeroHandles(op: Op) {
    (op.Bind? || op.Unbind?) ==> op.surface != 0
  }

  predicate AllNonzero(ops: seq<Op>) {
    forall op | op in ops :: NonzeroHandles(op)
  }
}
