/** Choosing a monitor for a point or rectangle, and keeping one monitor of each mirrored group. */
module MonitorChoice {
  import opened Basics
  import opened Bytes
  import opened DisplayLayout
  import opened Sequences

  datatype Query =
    | Containing(point: Point)
    | Overlapping(rect: Rect)
    | WorkOverlapping(rect: Rect)
    | Nearest(rect: Rect)

  /** Which monitors answer a query at all. */
  predicate Eligible(q: Query, m: Monitor) {
    match q
    case Containing(p) => ContainsPoint(m.bounds, p)
    case Overlapping(r) => IntersectionArea(m.bounds, r) > 0
    case WorkOverlapping(r) => IntersectionArea(m.work, r) > 0
    case Nearest(_) => true
  }

  /** How well a monitor answers a query. */
  function Score(q: Query, m: Monitor): int {
    match q
    case Containing(_) => 0
    case Overlapping(r) => IntersectionArea(m.bounds, r)
    case WorkOverlapping(r) => IntersectionArea(m.work, r)
    case Nearest(r) => -(Gap(m.bounds, r) as int)
  }

  predicate Beats(q: Query, a: Monitor, b: Monitor) {
    Score(q, a) > Score(q, b) || (Score(q, a) == Score(q, b) && Preferred(a, b))
  }

  function Better(q: Query, m: Monitor, best: Option<Monitor>): Option<Monitor> {
    if Eligible(q, m) && (best == None || Beats(q, m, best.value)) then Some(m) else best
  }

  /** The monitor a scan of the list ends with. */
  function Best(q: Query, ms: seq<Monitor>): Option<Monitor> {
    if ms == [] then None else Better(q, ms[|ms| - 1], Best(q, ms[..|ms| - 1]))
  }

  /** The answer to a query: an eligible monitor that none beats, or none if none is eligible. */
  predicate Optimal(q: Query, ms: seq<Monitor>, r: Option<Monitor>) {
    match r
    case None => forall m | m in ms :: !Eligible(q, m)
    case Some(m) => m in ms && Eligible(q, m) && forall o | o in ms && Eligible(q, o) :: !Beats(q, o, m)
  }

  lemma PreferredChains(a: Monitor, b: Monitor, c: Monitor)
    requires !Preferred(b, a) && !Preferred(c, b)
    ensures !Preferred(c, a)
  {
    LessIsStrict(a.id, b.id);
    LessIsStrict(b.id, c.id);
    LessIsStrict(a.id, c.id);
    if Less(a.id, b.id) && Less(b.id, c.id) {
      LessChains(a.id, b.id, c.id);
    }
  }

  lemma PreferredIsStrict(a: Monitor, b: Monitor)
    ensures !(Preferred(a, b) && Preferred(b, a))
    ensures a.id != b.id ==> Preferred(a, b) || Preferred(b, a)
  {
    LessIsStrict(a.id, b.id);
  }

  /** A monitor that beats the best so far is beaten by none of those before. */
  lemma BeatsChains(q: Query, o: Monitor, best: Monitor, m: Monitor)
    requires !Beats(q, o, best) && Beats(q, m, best)
    ensures !Beats(q, o, m)
  {
    PreferredIsStrict(m, best);
    if Score(q, m) == Score(q, best) == Score(q, o) {
      PreferredChains(m, best, o);
    }
  }

  /** The scan finds the optimum, whatever the list. */
  lemma {:induction false} BestIsOptimal(q: Query, ms: seq<Monitor>)
    ensures Optimal(q, ms, Best(q, ms))
  {
    if ms != [] {
      var front, last := ms[..|ms| - 1], ms[|ms| - 1];
      assert ms == front + [last];
      BestIsOptimal(q, front);
      var best := Best(q, front);
      PreferredIsStrict(last, last);
      if best != None && Eligible(q, last) && Beats(q, last, best.value) {
        forall o | o in front && Eligible(q, o) ensures !Beats(q, o, last) {
          BeatsChains(q, o, best.value, last);
        }
      }
    }
  }

  /** Among monitors that answer equally well, a primary one is returned if there is one, and else the one
      with the smallest id. */
  lemma TiesGoToPrimary(q: Query, ms: seq<Monitor>, o: Monitor)
    requires o in ms && Eligible(q, o) && Best(q, ms) != None && Score(q, Best(q, ms).value) == Score(q, o)
    ensures var m := Best(q, ms).value;
            && (o.primary ==> m.primary)
            && (o.primary == m.primary ==> o.id == m.id || Less(m.id, o.id))
  {
    BestIsOptimal(q, ms);
    LessIsStrict(o.id, Best(q, ms).value.id);
  }

  /** The monitor that a rectangle overlaps most is the one that shows most of its pixels. */
  lemma MostPixelsWins(ms: seq<Monitor>, r: Rect, o: Monitor)
    requires Proper(r) && o in ms && forall m | m in ms :: Proper(m.bounds)
    ensures var best := Best(Overlapping(r), ms);
            if best == None then Pixels(o.bounds) * Pixels(r) == {}
            else |Pixels(best.value.bounds) * Pixels(r)| > 0 &&
                 |Pixels(o.bounds) * Pixels(r)| <= |Pixels(best.value.bounds) * Pixels(r)|
  {
    BestIsOptimal(Overlapping(r), ms);
    AreaCountsPixels(o.bounds, r);
    if Best(Overlapping(r), ms) != None {
      AreaCountsPixels(Best(Overlapping(r), ms).value.bounds, r);
    }
  }

  /** Likewise for the work areas. */
  lemma MostWorkPixelsWins(ms: seq<Monitor>, r: Rect, o: Monitor)
    requires Proper(r) && o in ms && forall m | m in ms :: Proper(m.work)
    ensures var best := Best(WorkOverlapping(r), ms);
            if best == None then Pixels(o.work) * Pixels(r) == {}
            else |Pixels(best.value.work) * Pixels(r)| > 0 &&
                 |Pixels(o.work) * Pixels(r)| <= |Pixels(best.value.work) * Pixels(r)|
  {
    BestIsOptimal(WorkOverlapping(r), ms);
    AreaCountsPixels(o.work, r);
    if Best(WorkOverlapping(r), ms) != None {
      AreaCountsPixels(Best(WorkOverlapping(r), ms).value.work, r);
    }
  }

  /** No point of any monitor is nearer to a rectangle than the nearest point of the monitor returned. */
  lemma NearestIsNearest(ms: seq<Monitor>, r: Rect, o: Monitor, x: int, y: int, x': int, y': int)
    returns (u: int, v: int, u': int, v': int)
    requires Proper(r) && o in ms && (forall m | m in ms :: Proper(m.bounds))
    requires Touches(o.bounds, x, y) && Touches(r, x', y')
    ensures Best(Nearest(r), ms) != None
    ensures Touches(Best(Nearest(r), ms).value.bounds, u, v) && Touches(r, u', v')
    ensures Distance(u, u') + Distance(v, v') <= Distance(x, x') + Distance(y, y')
  {
    BestIsOptimal(Nearest(r), ms);
    var m := Best(Nearest(r), ms).value;
    u, v, u', v' := GapIsDistance(m.bounds, r);
    var _, _, _, _ := GapIsDistance(o.bounds, r);
  }

  lemma SameIdSameMonitor(ms: seq<Monitor>, a: Monitor, b: Monitor)
    requires DistinctIds(ms) && a in ms && b in ms && a.id == b.id
    ensures a == b
  {
    var i :| 0 <= i < |ms| && ms[i] == a;
    var j :| 0 <= j < |ms| && ms[j] == b;
  }

  /** With distinct ids there is only one optimum. */
  lemma OptimalIsUnique(q: Query, ms: seq<Monitor>, a: Option<Monitor>, b: Option<Monitor>)
    requires DistinctIds(ms) && Optimal(q, ms, a) && Optimal(q, ms, b)
    ensures a == b
  {
    if a != None && b != None {
      PreferredIsStrict(a.value, b.value);
      if a.value.id == b.value.id {
        SameIdSameMonitor(ms, a.value, b.value);
      }
    }
  }

  /** The choice does not depend on the order of the list. */
  lemma ChoiceIgnoresOrder(q: Query, ms: seq<Monitor>, ns: seq<Monitor>)
    requires DistinctIds(ms) && multiset(ms) == multiset(ns)
    ensures Best(q, ms) == Best(q, ns)
  {
    BestIsOptimal(q, ms);
    BestIsOptimal(q, ns);
    assert forall m :: m in ms <==> m in multiset(ms);
    assert forall m :: m in ns <==> m in multiset(ns);
    OptimalIsUnique(q, ms, Best(q, ms), Best(q, ns));
  }

  // ---- the searches ----

  method FindContaining(ms: seq<Monitor>, p: Point) returns (best: Option<Monitor>)
    ensures best == Best(Containing(p), ms) && Optimal(Containing(p), ms, best)
  {
    best := None;
    for i := 0 to |ms|
      invariant best == Best(Containing(p), ms[..i])
    {
      if ContainsPoint(ms[i].bounds, p) && (best == None || Preferred(ms[i], best.value)) {
        best := Some(ms[i]);
      }
      assert ms[..i + 1][..i] == ms[..i];
    }
    assert ms[..|ms|] == ms;
    BestIsOptimal(Containing(p), ms);
  }

  method FindLargestIntersection(ms: seq<Monitor>, r: Rect) returns (best: Option<Monitor>)
    ensures best == Best(Overlapping(r), ms) && Optimal(Overlapping(r), ms, best)
  {
    best := None;
    var bestArea := 0;
    for i := 0 to |ms|
      invariant best == Best(Overlapping(r), ms[..i])
      invariant bestArea == (if best == None then 0 else IntersectionArea(best.value.bounds, r))
      invariant best != None ==> bestArea > 0
    {
      var area := IntersectionArea(ms[i].bounds, r);
      if area > bestArea || (area == bestArea && area > 0 && (best == None || Preferred(ms[i], best.value))) {
        best := Some(ms[i]);
        bestArea := area;
      }
      assert ms[..i + 1][..i] == ms[..i];
    }
    assert ms[..|ms|] == ms;
    BestIsOptimal(Overlapping(r), ms);
    if bestArea == 0 {
      best := None;
    }
  }

  method FindWorkLargestIntersection(ms: seq<Monitor>, r: Rect) returns (best: Option<Monitor>)
    ensures best == Best(WorkOverlapping(r), ms) && Optimal(WorkOverlapping(r), ms, best)
  {
    best := None;
    var bestArea := 0;
    for i := 0 to |ms|
      invariant best == Best(WorkOverlapping(r), ms[..i])
      invariant bestArea == (if best == None then 0 else IntersectionArea(best.value.work, r))
      invariant best != None ==> bestArea > 0
    {
      var area := IntersectionArea(ms[i].work, r);
      if area > bestArea || (area == bestArea && area > 0 && (best == None || Preferred(ms[i], best.value))) {
        best := Some(ms[i]);
        bestArea := area;
      }
      assert ms[..i + 1][..i] == ms[..i];
    }
    assert ms[..|ms|] == ms;
    BestIsOptimal(WorkOverlapping(r), ms);
    if bestArea == 0 {
      best := None;
    }
  }

  lemma GapIsBounded(a: Rect, b: Rect)
    ensures Gap(a, b) <= U64_MAX
  {
  }

  method FindNearest(ms: seq<Monitor>, r: Rect) returns (best: Option<Monitor>)
    ensures best == Best(Nearest(r), ms) && Optimal(Nearest(r), ms, best)
    ensures best == None <==> ms == []
  {
    best := None;
    var bestGap := U64_MAX;
    for i := 0 to |ms|
      invariant best == Best(Nearest(r), ms[..i]) && (best == None <==> i == 0)
      invariant bestGap == (if best == None then U64_MAX else Gap(best.value.bounds, r))
    {
      var gap := Gap(ms[i].bounds, r);
      GapIsBounded(ms[i].bounds, r);
      if gap < bestGap || (gap == bestGap && (best == None || Preferred(ms[i], best.value))) {
        best := Some(ms[i]);
        bestGap := gap;
      }
      assert ms[..i + 1][..i] == ms[..i];
    }
    assert ms[..|ms|] == ms;
    BestIsOptimal(Nearest(r), ms);
  }

  method FindById(ms: seq<Monitor>, id: bytes) returns (r: Option<Monitor>)
    ensures r == None <==> forall m | m in ms :: m.id != id
    ensures r != None ==> r.value in ms && r.value.id == id
    ensures r == ById(ms, id)
  {
    for i := 0 to |ms|
      invariant forall j | 0 <= j < i :: ms[j].id != id
      invariant ById(ms, id) == ById(ms[i..], id)
    {
      if ms[i].id == id {
        return Some(ms[i]);
      }
      assert ms[i..][1..] == ms[i + 1..];
    }
    return None;
  }

  /** The first monitor with this id. */
  function ById(ms: seq<Monitor>, id: bytes): Option<Monitor> {
    if ms == [] then None else if ms[0].id == id then Some(ms[0]) else ById(ms[1..], id)
  }

  // ---- mirrored monitors ----

  function FirstWithBounds(ms: seq<Monitor>, r: Rect): (i: nat)
    ensures i <= |ms| && (i < |ms| ==> ms[i].bounds == r)
    ensures forall j | 0 <= j < i :: ms[j].bounds != r
  {
    if ms == [] || ms[0].bounds == r then 0 else 1 + FirstWithBounds(ms[1..], r)
  }

  /** One more monitor taken into a list with one monitor for each bounds. */
  function Merged(result: seq<Monitor>, m: Monitor): seq<Monitor> {
    var i := FirstWithBounds(result, m.bounds);
    if i == |result| then result + [m]
    else if Preferred(m, result[i]) then result[i := m]
    else result
  }

  function MergeAll(ms: seq<Monitor>): seq<Monitor> {
    if ms == [] then [] else Merged(MergeAll(ms[..|ms| - 1]), ms[|ms| - 1])
  }

  /** The monitor kept of those with its bounds: the preferred one. */
  predicate Represents(ms: seq<Monitor>, m: Monitor) {
    m in ms && forall o | o in ms && o.bounds == m.bounds && o != m :: Preferred(m, o)
  }

  predicate StrictlySorted(ms: seq<Monitor>) {
    forall i, j | 0 <= i < j < |ms| :: Less(ms[i].id, ms[j].id)
  }

  function Insert(m: Monitor, ms: seq<Monitor>): seq<Monitor> {
    if ms == [] || !Less(ms[0].id, m.id) then [m] + ms else [ms[0]] + Insert(m, ms[1..])
  }

  function Sorted(ms: seq<Monitor>): seq<Monitor> {
    if ms == [] then [] else Insert(ms[|ms| - 1], Sorted(ms[..|ms| - 1]))
  }

  function Deduplicated(ms: seq<Monitor>): seq<Monitor> {
    Sorted(MergeAll(ms))
  }

  method MergeMonitor(result: seq<Monitor>, m: Monitor) returns (r: seq<Monitor>)
    ensures r == Merged(result, m)
  {
    var i := 0;
    while i < |result| && result[i].bounds != m.bounds
      invariant 0 <= i <= |result|
      invariant forall j | 0 <= j < i :: result[j].bounds != m.bounds
    {
      i := i + 1;
    }
    if i == |result| {
      r := result + [m];
    } else if Preferred(m, result[i]) {
      r := result[i := m];
    } else {
      r := result;
    }
  }

  method InsertMonitor(m: Monitor, ms: seq<Monitor>) returns (r: seq<Monitor>)
    ensures r == Insert(m, ms)
  {
    var i := 0;
    while i < |ms| && Less(ms[i].id, m.id)
      invariant 0 <= i <= |ms|
      invariant Insert(m, ms) == ms[..i] + Insert(m, ms[i..])
    {
      DropOneMore(ms, i);
      SliceOneMore(ms, 0, i);
      Assoc(ms[..i], [ms[i]], Insert(m, ms[i + 1..]));
      i := i + 1;
    }
    r := ms[..i] + [m] + ms[i..];
  }

  method MergeMonitors(ms: seq<Monitor>) returns (r: seq<Monitor>)
    ensures r == MergeAll(ms)
  {
    r := [];
    for i := 0 to |ms|
      invariant r == MergeAll(ms[..i])
    {
      r := MergeMonitor(r, ms[i]);
      assert ms[..i + 1][..i] == ms[..i];
    }
    assert ms[..|ms|] == ms;
  }

  method SortMonitors(ms: seq<Monitor>) returns (r: seq<Monitor>)
    ensures r == Sorted(ms)
  {
    r := [];
    for i := 0 to |ms|
      invariant r == Sorted(ms[..i])
    {
      r := InsertMonitor(ms[i], r);
      assert ms[..i + 1][..i] == ms[..i];
    }
    assert ms[..|ms|] == ms;
  }

  method Deduplicate(ms: seq<Monitor>) returns (r: seq<Monitor>)
    ensures r == Deduplicated(ms)
  {
    r := MergeMonitors(ms);
    r := SortMonitors(r);
  }

  // ---- what deduplication keeps ----

  predicate HasBounds(ms: seq<Monitor>, r: Rect) {
    exists i | 0 <= i < |ms| :: ms[i].bounds == r
  }

  /** The list holds the representative of every bounds, once. */
  predicate Represented(ms: seq<Monitor>, result: seq<Monitor>) {
    && DistinctBounds(result)
    && (forall i | 0 <= i < |result| :: Represents(ms, result[i]))
    && (forall i | 0 <= i < |ms| :: HasBounds(result, ms[i].bounds))
  }

  lemma PreferredTransitive(a: Monitor, b: Monitor, c: Monitor)
    requires Preferred(a, b) && Preferred(b, c)
    ensures Preferred(a, c)
  {
    if Less(a.id, b.id) && Less(b.id, c.id) {
      LessChains(a.id, b.id, c.id);
    }
  }

  /** A representative stays one when a monitor is added that has other bounds or is less preferred. */
  lemma StillRepresents(ms: seq<Monitor>, last: Monitor, m: Monitor)
    requires Represents(ms, m) && (m.bounds != last.bounds || Preferred(m, last))
    ensures Represents(ms + [last], m)
  {
  }

  lemma LastDiffers(ms: seq<Monitor>, last: Monitor, m: Monitor)
    requires DistinctIds(ms + [last]) && m in ms
    ensures m.id != last.id
  {
    var i :| 0 <= i < |ms| && ms[i] == m;
    var s := ms + [last];
    assert s[i] == m && s[|ms|] == last;
  }

  lemma NewRepresents(ms: seq<Monitor>, result: seq<Monitor>, last: Monitor)
    requires Represented(ms, result) && FirstWithBounds(result, last.bounds) == |result|
    ensures Represents(ms + [last], last)
  {
    forall o | o in ms
      ensures o.bounds != last.bounds
    {
      var i :| 0 <= i < |ms| && ms[i] == o;
      assert HasBounds(result, ms[i].bounds);
    }
  }

  lemma PreferredRepresents(ms: seq<Monitor>, old': Monitor, last: Monitor)
    requires Represents(ms, old') && old'.bounds == last.bounds && Preferred(last, old')
    ensures Represents(ms + [last], last)
  {
    forall o | o in ms && o.bounds == last.bounds && o != last
      ensures Preferred(last, o)
    {
      if o != old' {
        PreferredTransitive(last, old', o);
      }
    }
  }

  lemma MergeAppends(ms: seq<Monitor>, result: seq<Monitor>, last: Monitor)
    requires Represented(ms, result) && FirstWithBounds(result, last.bounds) == |result|
    ensures Represented(ms + [last], result + [last])
  {
    var ms', r := ms + [last], result + [last];
    NewRepresents(ms, result, last);
    forall i | 0 <= i < |r| ensures Represents(ms', r[i]) {
      if i < |result| {
        assert r[i] == result[i];
        StillRepresents(ms, last, result[i]);
      }
    }
    forall i | 0 <= i < |ms'| ensures HasBounds(r, ms'[i].bounds) {
      if i < |ms| {
        assert HasBounds(result, ms[i].bounds);
        var j :| 0 <= j < |result| && result[j].bounds == ms[i].bounds;
        assert r[j].bounds == ms'[i].bounds;
      } else {
        assert r[|result|].bounds == ms'[i].bounds;
      }
    }
  }

  lemma MergeReplaces(ms: seq<Monitor>, result: seq<Monitor>, last: Monitor, k: nat)
    requires Represented(ms, result) && k < |result| && result[k].bounds == last.bounds
    requires Preferred(last, result[k])
    ensures Represented(ms + [last], result[k := last])
  {
    var ms', r := ms + [last], result[k := last];
    PreferredRepresents(ms, result[k], last);
    forall i | 0 <= i < |r| ensures Represents(ms', r[i]) {
      if i != k {
        assert result[i].bounds != result[k].bounds;
        StillRepresents(ms, last, result[i]);
      }
    }
    forall i | 0 <= i < |ms'| ensures HasBounds(r, ms'[i].bounds) {
      if i < |ms| {
        assert HasBounds(result, ms[i].bounds);
        var j :| 0 <= j < |result| && result[j].bounds == ms[i].bounds;
        assert r[j].bounds == ms'[i].bounds;
      } else {
        assert r[k].bounds == ms'[i].bounds;
      }
    }
  }

  lemma MergeKeeps(ms: seq<Monitor>, result: seq<Monitor>, last: Monitor, k: nat)
    requires Represented(ms, result) && k < |result| && result[k].bounds == last.bounds
    requires Preferred(result[k], last)
    ensures Represented(ms + [last], result)
  {
    var ms' := ms + [last];
    forall i | 0 <= i < |result| ensures Represents(ms', result[i]) {
      StillRepresents(ms, last, result[i]);
    }
    forall i | 0 <= i < |ms'| ensures HasBounds(result, ms'[i].bounds) {
      if i < |ms| {
        assert HasBounds(result, ms[i].bounds);
      }
    }
  }

  lemma {:induction false} MergeAllRepresents(ms: seq<Monitor>)
    requires DistinctIds(ms)
    ensures Represented(ms, MergeAll(ms))
  {
    if ms != [] {
      var front, last := ms[..|ms| - 1], ms[|ms| - 1];
      assert ms == front + [last];
      MergeAllRepresents(front);
      var result := MergeAll(front);
      var k := FirstWithBounds(result, last.bounds);
      if k == |result| {
        MergeAppends(front, result, last);
      } else if Preferred(last, result[k]) {
        MergeReplaces(front, result, last, k);
      } else {
        assert Represents(front, result[k]);
        LastDiffers(front, last, result[k]);
        PreferredIsStrict(last, result[k]);
        MergeKeeps(front, result, last, k);
      }
    }
  }

  /** Of each bounds exactly the representative is in the list. */
  lemma RepresentedMembers(ms: seq<Monitor>, result: seq<Monitor>, m: Monitor)
    requires Represented(ms, result)
    ensures m in result <==> Represents(ms, m)
  {
    if Represents(ms, m) {
      var i :| 0 <= i < |ms| && ms[i] == m;
      assert HasBounds(result, ms[i].bounds);
      var j :| 0 <= j < |result| && result[j].bounds == m.bounds;
      assert Represents(ms, result[j]);
      PreferredIsStrict(m, result[j]);
    }
  }
}
