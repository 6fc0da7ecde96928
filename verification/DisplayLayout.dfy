/** Monitors on a virtual desktop: rectangles over signed 32-bit coordinates, the order of
    preference between monitors, and what makes a layout valid. */
module DisplayLayout {
  import opened Basics
  import opened Bytes
  import opened Grid

  const I32_MIN: int := -0x8000_0000
  const I32_MAX: int := 0x7FFF_FFFF
  const U64_MAX: int := 0xFFFF_FFFF_FFFF_FFFF

  const SCHEMA_VERSION := 1
  const MAX_MONITORS := 32
  const MAX_AXIS := 16384
  const MAX_PIXELS := 64 * 1024 * 1024
  const MAX_SNAPSHOT_ID := 128
  const MAX_MONITOR_ID := 256
  const MAX_DEVICE_NAME := 512

  datatype Point = Point(x: i32, y: i32)
  datatype Rect = Rect(x: i32, y: i32, width: i32, height: i32)
  datatype Rotation = Identity | Rotate90 | Rotate180 | Rotate270
  datatype Monitor = Monitor(id: bytes, device: bytes, bounds: Rect, work: Rect, dpiX: u32, dpiY: u32,
                             rotation: Rotation, primary: bool)
  datatype Layout = Layout(schema: u32, snapshot: bytes, desktop: Rect, primaryId: bytes, monitors: seq<Monitor>)

  function Right(r: Rect): int { r.x + r.width }

  function Bottom(r: Rect): int { r.y + r.height }

  /** A rectangle with area whose far edges are 32-bit coordinates too. */
  predicate Proper(r: Rect) {
    r.width > 0 && r.height > 0 && Right(r) <= I32_MAX && Bottom(r) <= I32_MAX
  }

  predicate Contains(outer: Rect, inner: Rect) {
    && Proper(outer) && Proper(inner)
    && outer.x <= inner.x && outer.y <= inner.y && Right(inner) <= Right(outer) && Bottom(inner) <= Bottom(outer)
  }

  predicate ContainsPoint(r: Rect, p: Point) {
    Proper(r) && r.x <= p.x < Right(r) && r.y <= p.y < Bottom(r)
  }

  function OverlapWidth(a: Rect, b: Rect): int { Min(Right(a), Right(b)) - Max(a.x, b.x) }

  function OverlapHeight(a: Rect, b: Rect): int { Min(Bottom(a), Bottom(b)) - Max(a.y, b.y) }

  function IntersectionArea(a: Rect, b: Rect): (area: nat) {
    if Proper(a) && Proper(b) && OverlapWidth(a, b) > 0 && OverlapHeight(a, b) > 0
    then OverlapWidth(a, b) * OverlapHeight(a, b)
    else 0
  }

  function AxisGap(aLow: int, aHigh: int, bLow: int, bHigh: int): (gap: int)
    requires aLow <= aHigh && bLow <= bHigh
    ensures gap >= 0
  {
    if aHigh < bLow then bLow - aHigh else if bHigh < aLow then aLow - bHigh else 0
  }

  /** How far apart two rectangles are along the axes together. */
  function Gap(a: Rect, b: Rect): (gap: nat) {
    if Proper(a) && Proper(b)
    then AxisGap(a.x, Right(a), b.x, Right(b)) + AxisGap(a.y, Bottom(a), b.y, Bottom(b))
    else U64_MAX
  }

  lemma PositiveArea(a: Rect, b: Rect)
    ensures IntersectionArea(a, b) > 0
            <==> Proper(a) && Proper(b) && OverlapWidth(a, b) > 0 && OverlapHeight(a, b) > 0
  {
  }

  /** Two rectangles overlap exactly when they share a point. */
  lemma OverlapIsSharedPoint(a: Rect, b: Rect)
    ensures IntersectionArea(a, b) > 0 <==> exists p :: ContainsPoint(a, p) && ContainsPoint(b, p)
  {
    PositiveArea(a, b);
    if IntersectionArea(a, b) > 0 {
      var p := Point(Max(a.x, b.x), Max(a.y, b.y));
      assert ContainsPoint(a, p) && ContainsPoint(b, p);
    }
  }

  // ---- what areas and gaps measure ----

  function Pixels(r: Rect): set<(int, int)> {
    Box(r.x, Right(r), r.y, Bottom(r))
  }

  /** The intersection area of two rectangles is the number of pixels they share. */
  lemma AreaCountsPixels(a: Rect, b: Rect)
    requires Proper(a) && Proper(b)
    ensures IntersectionArea(a, b) == |Pixels(a) * Pixels(b)|
  {
    var x0, x1, y0, y1 := Max(a.x, b.x), Min(Right(a), Right(b)), Max(a.y, b.y), Min(Bottom(a), Bottom(b));
    assert Pixels(a) * Pixels(b) == Box(x0, x1, y0, y1);
    if x0 < x1 && y0 < y1 {
      BoxSize(x0, x1, y0, y1);
    } else {
      assert Box(x0, x1, y0, y1) == {};
    }
  }

  function Distance(a: int, b: int): nat {
    if a < b then b - a else a - b
  }

  /** A point of the rectangle or of its edges. */
  predicate Touches(r: Rect, x: int, y: int) {
    r.x <= x <= Right(r) && r.y <= y <= Bottom(r)
  }

  /** The gap between two rectangles is how far apart their nearest points are, along the axes. */
  lemma GapIsDistance(a: Rect, b: Rect) returns (x: int, y: int, x': int, y': int)
    requires Proper(a) && Proper(b)
    ensures forall u, v, u', v' | Touches(a, u, v) && Touches(b, u', v') ::
              Gap(a, b) <= Distance(u, u') + Distance(v, v')
    ensures Touches(a, x, y) && Touches(b, x', y') && Gap(a, b) == Distance(x, x') + Distance(y, y')
  {
    x, x' := Closest(a.x, Right(a), b.x, Right(b));
    y, y' := Closest(a.y, Bottom(a), b.y, Bottom(b));
  }

  lemma Closest(aLow: int, aHigh: int, bLow: int, bHigh: int) returns (p: int, q: int)
    requires aLow <= aHigh && bLow <= bHigh
    ensures aLow <= p <= aHigh && bLow <= q <= bHigh && AxisGap(aLow, aHigh, bLow, bHigh) == Distance(p, q)
    ensures forall u, v | aLow <= u <= aHigh && bLow <= v <= bHigh ::
              AxisGap(aLow, aHigh, bLow, bHigh) <= Distance(u, v)
  {
    p := if aHigh < bLow then aHigh else if bHigh < aLow then aLow else Max(aLow, bLow);
    q := if aHigh < bLow then bLow else if bHigh < aLow then bHigh else Max(aLow, bLow);
  }

  // ---- preference ----

  /** The primary monitor first, then the smaller id. */
  predicate Preferred(candidate: Monitor, current: Monitor) {
    if candidate.primary != current.primary then candidate.primary else Less(candidate.id, current.id)
  }

  predicate DistinctIds(ms: seq<Monitor>) {
    forall i, j | 0 <= i < j < |ms| :: ms[i].id != ms[j].id
  }

  predicate DistinctBounds(ms: seq<Monitor>) {
    forall i, j | 0 <= i < j < |ms| :: ms[i].bounds != ms[j].bounds
  }

  // ---- validity ----

  predicate Bounded(s: bytes, cap: nat, allowEmpty: bool) {
    (allowEmpty || s != []) && |s| <= cap && 0 !in s
  }

  predicate ValidMonitor(m: Monitor, primaryId: bytes) {
    && Bounded(m.id, MAX_MONITOR_ID, false)
    && Bounded(m.device, MAX_DEVICE_NAME, true)
    && Contains(m.bounds, m.work)
    && m.dpiX > 0 && m.dpiY > 0
    && (m.primary ==> m.id == primaryId)
  }

  /** The desktop is the smallest rectangle around all monitors: it contains each, and each of its
      edges is the edge of one. */
  predicate IsUnion(desktop: Rect, ms: seq<Monitor>) {
    && (forall i | 0 <= i < |ms| :: Contains(desktop, ms[i].bounds))
    && (exists i | 0 <= i < |ms| :: ms[i].bounds.x == desktop.x)
    && (exists i | 0 <= i < |ms| :: ms[i].bounds.y == desktop.y)
    && (exists i | 0 <= i < |ms| :: Right(ms[i].bounds) == Right(desktop))
    && (exists i | 0 <= i < |ms| :: Bottom(ms[i].bounds) == Bottom(desktop))
  }

  predicate ValidLayout(l: Layout) {
    && l.schema == SCHEMA_VERSION
    && Bounded(l.snapshot, MAX_SNAPSHOT_ID, false)
    && 0 < |l.monitors| <= MAX_MONITORS
    && Proper(l.desktop)
    && l.desktop.width <= MAX_AXIS && l.desktop.height <= MAX_AXIS
    && l.desktop.width * l.desktop.height <= MAX_PIXELS
    && Bounded(l.primaryId, MAX_MONITOR_ID, false)
    && (forall i | 0 <= i < |l.monitors| :: ValidMonitor(l.monitors[i], l.primaryId))
    && DistinctIds(l.monitors) && DistinctBounds(l.monitors)
    && (exists i | 0 <= i < |l.monitors| :: l.monitors[i].primary)
    && IsUnion(l.desktop, l.monitors)
  }

  /** The edges of the union of the monitors seen so far. */
  datatype Union = Union(left: int, top: int, right: int, bottom: int)

  function Widened(u: Union, r: Rect): Union {
    Union(Min(u.left, r.x), Min(u.top, r.y), Max(u.right, Right(r)), Max(u.bottom, Bottom(r)))
  }

  const INT64_MIN: int := -0x8000_0000_0000_0000
  const INT64_MAX: int := 0x7FFF_FFFF_FFFF_FFFF
  const NOTHING: Union := Union(INT64_MAX, INT64_MAX, INT64_MIN, INT64_MIN)

  function UnionOf(ms: seq<Monitor>): Union {
    if ms == [] then NOTHING else Widened(UnionOf(ms[..|ms| - 1]), ms[|ms| - 1].bounds)
  }

  predicate Encloses(u: Union, r: Rect) {
    u.left <= r.x && u.top <= r.y && Right(r) <= u.right && Bottom(r) <= u.bottom
  }

  lemma {:induction false} UnionEncloses(ms: seq<Monitor>, i: nat)
    requires i < |ms|
    ensures Encloses(UnionOf(ms), ms[i].bounds)
  {
    if i < |ms| - 1 {
      UnionEncloses(ms[..|ms| - 1], i);
    }
  }

  lemma {:induction false} UnionIsTight(ms: seq<Monitor>)
    requires ms != []
    ensures exists i | 0 <= i < |ms| :: ms[i].bounds.x == UnionOf(ms).left
    ensures exists i | 0 <= i < |ms| :: ms[i].bounds.y == UnionOf(ms).top
    ensures exists i | 0 <= i < |ms| :: Right(ms[i].bounds) == UnionOf(ms).right
    ensures exists i | 0 <= i < |ms| :: Bottom(ms[i].bounds) == UnionOf(ms).bottom
  {
    var n := |ms| - 1;
    assert ms[n].bounds.x == ms[n].bounds.x && Right(ms[n].bounds) == Right(ms[n].bounds);
    if n == 0 {
      assert ms[..0] == [];
      assert UnionOf(ms[..0]) == NOTHING;
      var r := ms[0].bounds;
      assert UnionOf(ms) == Union(r.x, r.y, Right(r), Bottom(r));
      assert ms[0].bounds.x == UnionOf(ms).left && Right(ms[0].bounds) == UnionOf(ms).right;
    } else {
      var front := ms[..n];
      UnionIsTight(front);
      assert forall i | 0 <= i < n :: front[i] == ms[i];
      var l :| 0 <= l < n && front[l].bounds.x == UnionOf(front).left;
      var t :| 0 <= t < n && front[t].bounds.y == UnionOf(front).top;
      var r :| 0 <= r < n && Right(front[r].bounds) == UnionOf(front).right;
      var b :| 0 <= b < n && Bottom(front[b].bounds) == UnionOf(front).bottom;
      assert ms[l].bounds.x == UnionOf(front).left && ms[t].bounds.y == UnionOf(front).top;
      assert Right(ms[r].bounds) == UnionOf(front).right && Bottom(ms[b].bounds) == UnionOf(front).bottom;
    }
  }

  /** Comparing the desktop with the computed edges decides whether it is the union. */
  lemma UnionDecided(desktop: Rect, ms: seq<Monitor>)
    requires ms != [] && Proper(desktop) && forall i | 0 <= i < |ms| :: Proper(ms[i].bounds)
    ensures UnionOf(ms) == Union(desktop.x, desktop.y, Right(desktop), Bottom(desktop)) <==> IsUnion(desktop, ms)
  {
    UnionIsTight(ms);
    forall i | 0 <= i < |ms|
      ensures Encloses(UnionOf(ms), ms[i].bounds)
    {
      UnionEncloses(ms, i);
    }
  }

  predicate ValidMonitors(ms: seq<Monitor>, primaryId: bytes) {
    (forall i | 0 <= i < |ms| :: ValidMonitor(ms[i], primaryId)) && DistinctIds(ms) && DistinctBounds(ms)
  }

  /** One more monitor keeps the list valid exactly when it is valid itself and new. */
  lemma OneMoreValid(ms: seq<Monitor>, m: Monitor, primaryId: bytes)
    requires ValidMonitors(ms, primaryId)
    ensures ValidMonitors(ms + [m], primaryId)
            <==> && ValidMonitor(m, primaryId)
                 && (forall j | 0 <= j < |ms| :: ms[j].id != m.id && ms[j].bounds != m.bounds)
  {
    var s := ms + [m];
    assert s[|ms|] == m;
    assert forall j | 0 <= j < |ms| :: s[j] == ms[j];
    if ValidMonitors(s, primaryId) {
      assert ValidMonitor(s[|ms|], primaryId);
      forall j | 0 <= j < |ms| ensures ms[j].id != m.id && ms[j].bounds != m.bounds {
        assert s[j].id != s[|ms|].id && s[j].bounds != s[|ms|].bounds;
      }
    }
  }

  lemma PrefixValid(ms: seq<Monitor>, k: nat, primaryId: bytes)
    requires k <= |ms| && ValidMonitors(ms, primaryId)
    ensures ValidMonitors(ms[..k], primaryId)
  {
  }

  function IdSet(ms: seq<Monitor>): set<bytes> {
    if ms == [] then {} else IdSet(ms[..|ms| - 1]) + {ms[|ms| - 1].id}
  }

  function BoundsSet(ms: seq<Monitor>): set<Rect> {
    if ms == [] then {} else BoundsSet(ms[..|ms| - 1]) + {ms[|ms| - 1].bounds}
  }

  function PrimaryCount(ms: seq<Monitor>): nat {
    if ms == [] then 0 else PrimaryCount(ms[..|ms| - 1]) + (if ms[|ms| - 1].primary then 1 else 0)
  }

  lemma {:induction false} SeenBefore(ms: seq<Monitor>, m: Monitor)
    ensures m.id in IdSet(ms) <==> exists j | 0 <= j < |ms| :: ms[j].id == m.id
    ensures m.bounds in BoundsSet(ms) <==> exists j | 0 <= j < |ms| :: ms[j].bounds == m.bounds
  {
    if ms != [] {
      var n := |ms| - 1;
      SeenBefore(ms[..n], m);
      assert forall j | 0 <= j < n :: ms[..n][j] == ms[j];
    }
  }

  /** Two primaries would share the primary id. */
  lemma {:induction false} AtMostOnePrimary(ms: seq<Monitor>, primaryId: bytes)
    requires ValidMonitors(ms, primaryId)
    ensures PrimaryCount(ms) <= 1
    ensures PrimaryCount(ms) == 1 <==> exists i | 0 <= i < |ms| :: ms[i].primary
    ensures PrimaryCount(ms) == 1 ==> primaryId in IdSet(ms)
  {
    if ms != [] {
      var n := |ms| - 1;
      var front := ms[..n];
      PrefixValid(ms, n, primaryId);
      AtMostOnePrimary(front, primaryId);
      assert forall j | 0 <= j < n :: front[j] == ms[j];
      assert ValidMonitor(ms[n], primaryId);
    }
  }

  lemma OneMoreMonitor(ms: seq<Monitor>, m: Monitor)
    ensures IdSet(ms + [m]) == IdSet(ms) + {m.id} && BoundsSet(ms + [m]) == BoundsSet(ms) + {m.bounds}
    ensures PrimaryCount(ms + [m]) == PrimaryCount(ms) + (if m.primary then 1 else 0)
    ensures UnionOf(ms + [m]) == Widened(UnionOf(ms), m.bounds)
  {
    assert (ms + [m])[..|ms|] == ms;
  }

  /** Goes through the monitors once, keeping the ids and bounds seen so far, the number of primaries
      and the union. */
  method CheckMonitors(ms: seq<Monitor>, primaryId: bytes)
    returns (ok: bool, ids: set<bytes>, primaries: nat, union: Union)
    ensures ok == ValidMonitors(ms, primaryId)
    ensures ok ==> ids == IdSet(ms) && primaries == PrimaryCount(ms) && union == UnionOf(ms)
  {
    ok, ids, primaries, union := true, {}, 0, NOTHING;
    var seen: set<Rect> := {};
    for i := 0 to |ms|
      invariant ok && ValidMonitors(ms[..i], primaryId)
      invariant ids == IdSet(ms[..i]) && seen == BoundsSet(ms[..i])
      invariant primaries == PrimaryCount(ms[..i]) && union == UnionOf(ms[..i])
    {
      var m := ms[i];
      assert ms[..i + 1] == ms[..i] + [m];
      OneMoreValid(ms[..i], m, primaryId);
      SeenBefore(ms[..i], m);
      if !ValidMonitor(m, primaryId) || m.id in ids || m.bounds in seen {
        assert !ValidMonitors(ms, primaryId) by {
          if ValidMonitors(ms, primaryId) {
            PrefixValid(ms, i + 1, primaryId);
          }
        }
        ok := false;
        return;
      }
      OneMoreMonitor(ms[..i], m);
      ids := ids + {m.id};
      seen := seen + {m.bounds};
      primaries := if m.primary then primaries + 1 else primaries;
      union := Widened(union, m.bounds);
    }
    assert ms[..|ms|] == ms;
  }

  method Validate(l: Layout) returns (ok: bool)
    ensures ok == ValidLayout(l)
  {
    if l.schema != SCHEMA_VERSION || !Bounded(l.snapshot, MAX_SNAPSHOT_ID, false) {
      return false;
    }
    if l.monitors == [] || |l.monitors| > MAX_MONITORS || !Proper(l.desktop) {
      return false;
    }
    if l.desktop.width > MAX_AXIS || l.desktop.height > MAX_AXIS || l.desktop.width * l.desktop.height > MAX_PIXELS {
      return false;
    }
    if !Bounded(l.primaryId, MAX_MONITOR_ID, false) {
      return false;
    }
    var valid, ids, primaries, union := CheckMonitors(l.monitors, l.primaryId);
    if !valid {
      return false;
    }
    AtMostOnePrimary(l.monitors, l.primaryId);
    UnionDecided(l.desktop, l.monitors);
    if primaries != 1 || l.primaryId !in ids {
      return false;
    }
    return union == Union(l.desktop.x, l.desktop.y, Right(l.desktop), Bottom(l.desktop));
  }
}
