/** Where a guest window is first placed on the host's monitors. */
module Placement {
  import opened Basics
  import opened Bytes
  import opened DisplayLayout
  import opened MonitorChoice

  // ---- host and guest coordinates ----

  predicate InI32(n: int) {
    I32_MIN <= n <= I32_MAX
  }

  function HostToGuest(desktop: Rect, p: Point): Option<Point> {
    if InI32(p.x - desktop.x) && InI32(p.y - desktop.y) then Some(Point(p.x - desktop.x, p.y - desktop.y)) else None
  }

  function GuestToHost(desktop: Rect, p: Point): Option<Point> {
    if InI32(p.x + desktop.x) && InI32(p.y + desktop.y) then Some(Point(p.x + desktop.x, p.y + desktop.y)) else None
  }

  function MovedTo(origin: Option<Point>, r: Rect): Option<Rect> {
    match origin
    case None => None
    case Some(p) => var moved := Rect(p.x, p.y, r.width, r.height); if Proper(moved) then Some(moved) else None
  }

  function HostToGuestRect(desktop: Rect, r: Rect): Option<Rect> {
    MovedTo(HostToGuest(desktop, Point(r.x, r.y)), r)
  }

  function GuestToHostRect(desktop: Rect, r: Rect): Option<Rect> {
    MovedTo(GuestToHost(desktop, Point(r.x, r.y)), r)
  }

  /** Mapping there and back is the identity, for every point that maps. */
  lemma PointsMapBack(desktop: Rect, p: Point)
    ensures GuestToHost(desktop, p) != None ==> HostToGuest(desktop, GuestToHost(desktop, p).value) == Some(p)
    ensures HostToGuest(desktop, p) != None ==> GuestToHost(desktop, HostToGuest(desktop, p).value) == Some(p)
  {
  }

  /** A rectangle that maps comes back exactly when it was proper to begin with. */
  lemma RectsMapBack(desktop: Rect, r: Rect)
    requires GuestToHostRect(desktop, r) != None
    ensures HostToGuestRect(desktop, GuestToHostRect(desktop, r).value) == if Proper(r) then Some(r) else None
  {
  }

  // ---- clamping ----

  function ClampAxis(origin: int, size: int, low: int, high: int): int {
    if size >= high - low then low else Max(low, Min(origin, high - size))
  }

  /** The interval an axis is clamped to: the work area's, or the desktop's if the window is larger. */
  function AxisLow(size: int, work: int, workEnd: int, desktop: int): int {
    if size > workEnd - work then desktop else work
  }

  function AxisHigh(size: int, work: int, workEnd: int, desktopEnd: int): int {
    if size > workEnd - work then desktopEnd else workEnd
  }

  function Clamp(r: Rect, m: Monitor, desktop: Rect): Rect {
    if !Proper(m.work) || !Proper(desktop) || r.width <= 0 || r.height <= 0 then r
    else
      Rect(ClampAxis(r.x, r.width, AxisLow(r.width, m.work.x, Right(m.work), desktop.x),
                     AxisHigh(r.width, m.work.x, Right(m.work), Right(desktop))),
           ClampAxis(r.y, r.height, AxisLow(r.height, m.work.y, Bottom(m.work), desktop.y),
                     AxisHigh(r.height, m.work.y, Bottom(m.work), Bottom(desktop))),
           r.width, r.height)
  }

  // ---- placing ----

  datatype Mode = Preserve | CenterPrimary | CenterOwner
  datatype Placed = Placed(rect: Rect, monitor: Monitor)

  /** Half, rounded towards zero. */
  function Half(n: int): int {
    if n >= 0 then n / 2 else -((-n) / 2)
  }

  predicate CentersInRange(anchor: Rect, r: Rect) {
    InI32(anchor.x + Half(anchor.width - r.width)) && InI32(anchor.y + Half(anchor.height - r.height))
  }

  function Centered(anchor: Rect, r: Rect): Option<Rect> {
    if CentersInRange(anchor, r)
    then Some(Rect(anchor.x + Half(anchor.width - r.width), anchor.y + Half(anchor.height - r.height),
                   r.width, r.height))
    else None
  }

  function OverlappingOrNearest(l: Layout, r: Rect): Option<Monitor> {
    if Best(Overlapping(r), l.monitors) != None then Best(Overlapping(r), l.monitors) else Best(Nearest(r), l.monitors)
  }

  /** The monitor a window is brought to; rectangles in host coordinates from here on. */
  function Chosen(l: Layout, mode: Mode, desired: Rect, owner: Option<Rect>): Option<Monitor>
    requires mode == CenterOwner ==> owner != None
  {
    match mode
    case CenterPrimary => ById(l.monitors, l.primaryId)
    case CenterOwner => OverlappingOrNearest(l, owner.value)
    case Preserve => OverlappingOrNearest(l, desired)
  }

  function Candidate(mode: Mode, desired: Rect, owner: Option<Rect>, m: Monitor): Option<Rect>
    requires mode == CenterOwner ==> owner != None
  {
    match mode
    case Preserve => Some(desired)
    case CenterOwner => Centered(owner.value, desired)
    case CenterPrimary => Centered(m.work, desired)
  }

  function Recovered(l: Layout, mode: Mode, desired: Rect, owner: Option<Rect>): Option<Placed>
    requires mode == CenterOwner ==> owner != None
  {
    match Chosen(l, mode, desired, owner)
    case None => None
    case Some(m) =>
      match Candidate(mode, desired, owner, m)
      case None => None
      case Some(c) =>
        match HostToGuestRect(l.desktop, Clamp(c, m, l.desktop))
        case None => None
        case Some(r) => Some(Placed(r, m))
  }

  function TopRow(r: Rect): Rect {
    Rect(r.x, r.y, r.width, 1)
  }

  function Reachable(l: Layout, r: Rect): Option<Monitor> {
    Best(WorkOverlapping(TopRow(r)), l.monitors)
  }

  predicate OwnerOk(l: Layout, mode: Mode, owner: Option<Rect>) {
    && (mode == CenterOwner ==> owner != None)
    && (owner != None ==> GuestToHostRect(l.desktop, owner.value) != None)
  }

  function OwnerHost(l: Layout, owner: Option<Rect>): (host: Option<Rect>)
    ensures owner == None ==> host == None
  {
    if owner == None then None else GuestToHostRect(l.desktop, owner.value)
  }

  function Place(l: Layout, desired: Rect, mode: Mode, owner: Option<Rect>): Option<Placed> {
    if desired.width <= 0 || desired.height <= 0 || !OwnerOk(l, mode, owner) then None
    else
      match GuestToHostRect(l.desktop, desired)
      case None => None
      case Some(host) =>
        if mode == Preserve && Reachable(l, host) != None then Some(Placed(desired, Reachable(l, host).value))
        else Recovered(l, mode, host, OwnerHost(l, owner))
  }

  method ChooseMonitor(l: Layout, mode: Mode, desired: Rect, owner: Option<Rect>) returns (m: Option<Monitor>)
    requires mode == CenterOwner ==> owner != None
    ensures m == Chosen(l, mode, desired, owner)
  {
    if mode == CenterPrimary {
      m := FindById(l.monitors, l.primaryId);
    } else if mode == CenterOwner {
      m := FindLargestIntersection(l.monitors, owner.value);
      if m == None {
        m := FindNearest(l.monitors, owner.value);
      }
    } else {
      m := FindLargestIntersection(l.monitors, desired);
      if m == None {
        m := FindNearest(l.monitors, desired);
      }
    }
  }

  method PlaceGuestWindow(l: Layout, desired: Rect, mode: Mode, owner: Option<Rect>) returns (r: Option<Placed>)
    ensures r == Place(l, desired, mode, owner)
  {
    if desired.width <= 0 || desired.height <= 0 || (mode == CenterOwner && owner == None) {
      return None;
    }
    var host := GuestToHostRect(l.desktop, desired);
    if host == None {
      return None;
    }
    var ownerHost: Option<Rect> := None;
    if owner != None {
      ownerHost := GuestToHostRect(l.desktop, owner.value);
      if ownerHost == None {
        return None;
      }
    }
    if mode == Preserve {
      var reachable := FindWorkLargestIntersection(l.monitors, TopRow(host.value));
      if reachable != None {
        return Some(Placed(desired, reachable.value));
      }
    }
    var m := ChooseMonitor(l, mode, host.value, ownerHost);
    if m == None {
      return None;
    }
    var candidate := Candidate(mode, host.value, ownerHost, m.value);
    if candidate == None {
      return None;
    }
    var guest := HostToGuestRect(l.desktop, Clamp(candidate.value, m.value, l.desktop));
    return if guest == None then None else Some(Placed(guest.value, m.value));
  }

  // ---- guarantees on valid layouts ----

  lemma {:induction false} ByIdFinds(ms: seq<Monitor>, id: bytes, i: nat)
    requires i < |ms| && ms[i].id == id
    ensures ById(ms, id) != None && ById(ms, id).value in ms
  {
    if ms[0].id != id {
      ByIdFinds(ms[1..], id, i - 1);
    }
  }

  lemma AlwaysNearest(l: Layout, r: Rect)
    requires l.monitors != []
    ensures OverlappingOrNearest(l, r) != None && OverlappingOrNearest(l, r).value in l.monitors
  {
    BestIsOptimal(Overlapping(r), l.monitors);
    BestIsOptimal(Nearest(r), l.monitors);
    assert l.monitors[0] in l.monitors && Eligible(Nearest(r), l.monitors[0]);
  }

  /** A valid layout always has a monitor to bring a window to. */
  lemma AlwaysChosen(l: Layout, mode: Mode, desired: Rect, owner: Option<Rect>)
    requires ValidLayout(l) && (mode == CenterOwner ==> owner != None)
    ensures Chosen(l, mode, desired, owner) != None && Chosen(l, mode, desired, owner).value in l.monitors
  {
    if mode == CenterPrimary {
      var i :| 0 <= i < |l.monitors| && l.monitors[i].primary;
      assert ValidMonitor(l.monitors[i], l.primaryId);
      ByIdFinds(l.monitors, l.primaryId, i);
    } else {
      AlwaysNearest(l, if mode == CenterOwner then owner.value else desired);
    }
  }

  lemma MonitorInLayout(l: Layout, m: Monitor)
    requires ValidLayout(l) && m in l.monitors
    ensures Contains(m.bounds, m.work) && Contains(l.desktop, m.bounds)
  {
    var i :| 0 <= i < |l.monitors| && l.monitors[i] == m;
    assert ValidMonitor(l.monitors[i], l.primaryId);
  }

  /** The axis of a clamped window starts on the desktop, and ends on it unless it is larger. */
  lemma ClampedAxis(origin: int, size: int, work: int, workEnd: int, desktop: int, desktopEnd: int)
    requires size > 0 && desktop <= work < workEnd <= desktopEnd
    ensures var low, high := AxisLow(size, work, workEnd, desktop), AxisHigh(size, work, workEnd, desktopEnd);
            var c := ClampAxis(origin, size, low, high);
            && desktop <= c < desktopEnd
            && (c + size <= desktopEnd || c == desktop)
            && (size <= workEnd - work ==> work <= c && c + size <= workEnd)
  {
  }

  /** A window clamped on a valid layout always maps back to guest coordinates. */
  lemma ClampedMaps(l: Layout, r: Rect, m: Monitor)
    requires ValidLayout(l) && m in l.monitors && r.width > 0 && r.height > 0
    ensures HostToGuestRect(l.desktop, Clamp(r, m, l.desktop)) != None
  {
    MonitorInLayout(l, m);
    ClampedAxis(r.x, r.width, m.work.x, Right(m.work), l.desktop.x, Right(l.desktop));
    ClampedAxis(r.y, r.height, m.work.y, Bottom(m.work), l.desktop.y, Bottom(l.desktop));
  }

  predicate CentersOn(anchor: Option<Rect>, r: Rect) {
    anchor != None && CentersInRange(anchor.value, r)
  }

  function WorkOf(m: Option<Monitor>): Option<Rect> {
    if m == None then None else Some(m.value.work)
  }

  /** Whether centring stays within 32 bits, for the modes that centre. */
  predicate CentringFits(l: Layout, mode: Mode, r: Rect, owner: Option<Rect>) {
    match mode
    case Preserve => true
    case CenterPrimary => CentersOn(WorkOf(ById(l.monitors, l.primaryId)), r)
    case CenterOwner => CentersOn(owner, r)
  }

  lemma RecoveredExactlyWhen(l: Layout, mode: Mode, desired: Rect, owner: Option<Rect>)
    requires ValidLayout(l) && (mode == CenterOwner ==> owner != None) && desired.width > 0 && desired.height > 0
    ensures Recovered(l, mode, desired, owner) != None <==> CentringFits(l, mode, desired, owner)
  {
    AlwaysChosen(l, mode, desired, owner);
    var m := Chosen(l, mode, desired, owner).value;
    var c := Candidate(mode, desired, owner, m);
    if c != None {
      ClampedMaps(l, c.value, m);
    }
  }

  lemma CentringIgnoresOrigin(l: Layout, mode: Mode, a: Rect, b: Rect, owner: Option<Rect>)
    requires a.width == b.width && a.height == b.height
    ensures CentringFits(l, mode, a, owner) == CentringFits(l, mode, b, owner)
  {
  }

  /** Exactly when a window is placed: it and its owner map to the host, an owner is there if it is
      to be centred on one, and centring stays within 32 bits. */
  lemma PlacedExactlyWhen(l: Layout, desired: Rect, mode: Mode, owner: Option<Rect>)
    requires ValidLayout(l)
    ensures Place(l, desired, mode, owner) != None <==>
            && desired.width > 0 && desired.height > 0 && OwnerOk(l, mode, owner)
            && GuestToHostRect(l.desktop, desired) != None
            && CentringFits(l, mode, desired, OwnerHost(l, owner))
  {
    var host := GuestToHostRect(l.desktop, desired);
    if host != None && OwnerOk(l, mode, owner) && desired.width > 0 && desired.height > 0 {
      RecoveredExactlyWhen(l, mode, host.value, OwnerHost(l, owner));
      CentringIgnoresOrigin(l, mode, host.value, desired, OwnerHost(l, owner));
    }
  }

  /** A window that asks for no centring and has no owner is always placed if it maps to the host. */
  lemma PreserveAlwaysPlaces(l: Layout, desired: Rect)
    requires ValidLayout(l) && desired.width > 0 && desired.height > 0
    requires GuestToHostRect(l.desktop, desired) != None
    ensures Place(l, desired, Preserve, None) != None
  {
    PlacedExactlyWhen(l, desired, Preserve, None);
  }

  /** A window whose top row touches a work area stays where it is, on the monitor it touches most. */
  lemma ReachableStays(l: Layout, desired: Rect, owner: Option<Rect>, m: Monitor)
    requires desired.width > 0 && desired.height > 0 && OwnerOk(l, Preserve, owner)
    requires GuestToHostRect(l.desktop, desired) != None && m in l.monitors
    requires IntersectionArea(m.work, TopRow(GuestToHostRect(l.desktop, desired).value)) > 0
    ensures var p := Place(l, desired, Preserve, owner);
            && p != None && p.value.rect == desired
            && IntersectionArea(p.value.monitor.work, TopRow(GuestToHostRect(l.desktop, desired).value))
               >= IntersectionArea(m.work, TopRow(GuestToHostRect(l.desktop, desired).value))
  {
    var q := WorkOverlapping(TopRow(GuestToHostRect(l.desktop, desired).value));
    BestIsOptimal(q, l.monitors);
    assert Eligible(q, m);
  }

  /** The size is never changed. */
  lemma SizeIsKept(l: Layout, desired: Rect, mode: Mode, owner: Option<Rect>)
    ensures var p := Place(l, desired, mode, owner);
            p != None ==> p.value.rect.width == desired.width && p.value.rect.height == desired.height
  {
  }

  // ---- where a recovered window lands ----

  /** A guest window, seen in host coordinates, shares a pixel with a host rectangle. */
  predicate Meets(desktop: Rect, guest: Rect, host: Rect) {
    && guest.x + desktop.x < Right(host) && host.x < guest.x + desktop.x + guest.width
    && guest.y + desktop.y < Bottom(host) && host.y < guest.y + desktop.y + guest.height
  }

  predicate Within(desktop: Rect, guest: Rect, host: Rect) {
    && host.x <= guest.x + desktop.x && guest.x + desktop.x + guest.width <= Right(host)
    && host.y <= guest.y + desktop.y && guest.y + desktop.y + guest.height <= Bottom(host)
  }

  lemma RecoveredIsClamped(l: Layout, mode: Mode, desired: Rect, owner: Option<Rect>)
    requires (mode == CenterOwner ==> owner != None) && Recovered(l, mode, desired, owner) != None
    ensures var p := Recovered(l, mode, desired, owner).value;
            var c := Candidate(mode, desired, owner, p.monitor);
            && Chosen(l, mode, desired, owner) == Some(p.monitor) && c != None
            && c.value.width == desired.width && c.value.height == desired.height
            && p.rect.width == desired.width && p.rect.height == desired.height
            && p.rect.x + l.desktop.x == Clamp(c.value, p.monitor, l.desktop).x
            && p.rect.y + l.desktop.y == Clamp(c.value, p.monitor, l.desktop).y
  {
  }

  /** A window that fits the chosen monitor's work area ends up inside it. */
  lemma FittingLandsInside(l: Layout, mode: Mode, desired: Rect, owner: Option<Rect>)
    requires ValidLayout(l) && (mode == CenterOwner ==> owner != None) && desired.width > 0 && desired.height > 0
    requires Recovered(l, mode, desired, owner) != None
    ensures var p := Recovered(l, mode, desired, owner).value;
            desired.width <= p.monitor.work.width && desired.height <= p.monitor.work.height
            ==> Within(l.desktop, p.rect, p.monitor.work)
  {
    var p := Recovered(l, mode, desired, owner).value;
    RecoveredIsClamped(l, mode, desired, owner);
    AlwaysChosen(l, mode, desired, owner);
    MonitorInLayout(l, p.monitor);
    var c := Candidate(mode, desired, owner, p.monitor).value;
    ClampedAxis(c.x, c.width, p.monitor.work.x, Right(p.monitor.work), l.desktop.x, Right(l.desktop));
    ClampedAxis(c.y, c.height, p.monitor.work.y, Bottom(p.monitor.work), l.desktop.y, Bottom(l.desktop));
  }

  // ---- centred, and no further from there than need be ----

  /** The margins on the two sides of the anchor are equal, but for the pixel that cannot be halved: a
      smaller window has it after itself, a larger one before. */
  predicate Balanced(before: int, after: int) {
    || before == after
    || (before + 1 == after && before + after > 0)
    || (before == after + 1 && before + after < 0)
  }

  /** A window of the same size, in the middle of the anchor. */
  predicate CentredOn(c: Rect, anchor: Rect, r: Rect) {
    && c.width == r.width && c.height == r.height
    && Balanced(c.x - anchor.x, Right(anchor) - Right(c)) && Balanced(c.y - anchor.y, Bottom(anchor) - Bottom(c))
  }

  lemma HalfBalances(origin: int, anchor: int, size: int)
    ensures var c := origin + Half(anchor - size); Balanced(c - origin, origin + anchor - (c + size))
  {
  }

  lemma CenteredIsCentred(anchor: Rect, r: Rect)
    requires Centered(anchor, r) != None
    ensures CentredOn(Centered(anchor, r).value, anchor, r)
  {
    HalfBalances(anchor.x, anchor.width, r.width);
    HalfBalances(anchor.y, anchor.height, r.height);
  }

  /** An interval of `size` at `at` lies in [low, high). */
  predicate FitsAt(at: int, size: int, low: int, high: int) {
    low <= at && at + size <= high
  }

  predicate RectFits(r: Rect, area: Rect) {
    FitsAt(r.x, r.width, area.x, Right(area)) && FitsAt(r.y, r.height, area.y, Bottom(area))
  }

  /** What an axis is brought to: the nearest place in the interval, or its start if nothing fits. */
  ghost predicate NearestPlace(c: int, origin: int, size: int, low: int, high: int) {
    if size <= high - low
    then FitsAt(c, size, low, high) &&
         forall other | FitsAt(other, size, low, high) :: Distance(c, origin) <= Distance(other, origin)
    else c == low
  }

  lemma ClampIsNearest(origin: int, size: int, low: int, high: int)
    requires low < high && size > 0
    ensures NearestPlace(ClampAxis(origin, size, low, high), origin, size, low, high)
  {
  }

  /** Along each axis the window is brought into the monitor's work area, or onto the desktop if it is larger
      than that, by the shortest way. */
  ghost predicate BroughtNearest(k: Rect, c: Rect, m: Monitor, desktop: Rect) {
    && k.width == c.width && k.height == c.height
    && (if c.width <= m.work.width then NearestPlace(k.x, c.x, c.width, m.work.x, Right(m.work))
        else NearestPlace(k.x, c.x, c.width, desktop.x, Right(desktop)))
    && (if c.height <= m.work.height then NearestPlace(k.y, c.y, c.height, m.work.y, Bottom(m.work))
        else NearestPlace(k.y, c.y, c.height, desktop.y, Bottom(desktop)))
  }

  lemma ClampBringsNearest(c: Rect, m: Monitor, desktop: Rect)
    requires Proper(m.work) && Proper(desktop) && c.width > 0 && c.height > 0
    ensures BroughtNearest(Clamp(c, m, desktop), c, m, desktop)
  {
    ClampIsNearest(c.x, c.width, AxisLow(c.width, m.work.x, Right(m.work), desktop.x),
                   AxisHigh(c.width, m.work.x, Right(m.work), Right(desktop)));
    ClampIsNearest(c.y, c.height, AxisLow(c.height, m.work.y, Bottom(m.work), desktop.y),
                   AxisHigh(c.height, m.work.y, Bottom(m.work), Bottom(desktop)));
  }

  /** Where a window that is to be recovered starts from: where it is, or centred on its anchor. */
  predicate StartsFrom(c: Rect, mode: Mode, desired: Rect, owner: Option<Rect>, m: Monitor) {
    match mode
    case Preserve => c == desired
    case CenterPrimary => CentredOn(c, m.work, desired)
    case CenterOwner => owner != None && CentredOn(c, owner.value, desired)
  }

  lemma CandidateStarts(mode: Mode, desired: Rect, owner: Option<Rect>, m: Monitor)
    requires (mode == CenterOwner ==> owner != None) && Candidate(mode, desired, owner, m) != None
    ensures StartsFrom(Candidate(mode, desired, owner, m).value, mode, desired, owner, m)
  {
    if mode == CenterOwner {
      CenteredIsCentred(owner.value, desired);
    } else if mode == CenterPrimary {
      CenteredIsCentred(m.work, desired);
    }
  }

  /** In host coordinates. */
  predicate OnHost(desktop: Rect, guest: Rect, host: Rect) {
    && guest.x + desktop.x == host.x && guest.y + desktop.y == host.y
    && guest.width == host.width && guest.height == host.height
  }

  lemma RecoveredNearest(l: Layout, mode: Mode, desired: Rect, owner: Option<Rect>) returns (c: Rect, k: Rect)
    requires ValidLayout(l) && (mode == CenterOwner ==> owner != None) && desired.width > 0 && desired.height > 0
    requires Recovered(l, mode, desired, owner) != None
    ensures var p := Recovered(l, mode, desired, owner).value;
            && Chosen(l, mode, desired, owner) == Some(p.monitor) && StartsFrom(c, mode, desired, owner, p.monitor)
            && BroughtNearest(k, c, p.monitor, l.desktop) && OnHost(l.desktop, p.rect, k)
  {
    var p := Recovered(l, mode, desired, owner).value;
    RecoveredIsClamped(l, mode, desired, owner);
    AlwaysChosen(l, mode, desired, owner);
    MonitorInLayout(l, p.monitor);
    c := Candidate(mode, desired, owner, p.monitor).value;
    k := Clamp(c, p.monitor, l.desktop);
    CandidateStarts(mode, desired, owner, p.monitor);
    ClampBringsNearest(c, p.monitor, l.desktop);
  }

  /** A window that is not left where it is starts from its place or from the middle of its anchor, and is
      brought from there to the monitor chosen for it by the shortest way. */
  lemma PlacedNearest(l: Layout, desired: Rect, mode: Mode, owner: Option<Rect>) returns (c: Rect, k: Rect)
    requires ValidLayout(l) && Place(l, desired, mode, owner) != None
    requires mode == Preserve ==> Reachable(l, GuestToHostRect(l.desktop, desired).value) == None
    ensures var p, host := Place(l, desired, mode, owner).value, GuestToHostRect(l.desktop, desired).value;
            && Chosen(l, mode, host, OwnerHost(l, owner)) == Some(p.monitor)
            && StartsFrom(c, mode, host, OwnerHost(l, owner), p.monitor)
            && BroughtNearest(k, c, p.monitor, l.desktop) && OnHost(l.desktop, p.rect, k)
  {
    c, k := RecoveredNearest(l, mode, GuestToHostRect(l.desktop, desired).value, OwnerHost(l, owner));
  }

  /** So a window that is in the work area when centred is placed exactly there. */
  lemma CentredInWorkIsPlacedThere(l: Layout, desired: Rect, mode: Mode, owner: Option<Rect>) returns (c: Rect)
    requires ValidLayout(l) && Place(l, desired, mode, owner) != None && mode != Preserve
    ensures var p, host := Place(l, desired, mode, owner).value, GuestToHostRect(l.desktop, desired).value;
            && StartsFrom(c, mode, host, OwnerHost(l, owner), p.monitor)
            && (RectFits(c, p.monitor.work) ==> OnHost(l.desktop, p.rect, c))
  {
    var k;
    c, k := PlacedNearest(l, desired, mode, owner);
    var m := Place(l, desired, mode, owner).value.monitor;
    if RectFits(c, m.work) {
      assert Distance(k.x, c.x) <= Distance(c.x, c.x) && Distance(k.y, c.y) <= Distance(c.y, c.y);
    }
  }

  /** A window that fits the primary's work area is placed in the middle of it. */
  lemma FittingIsCentredOnPrimary(l: Layout, desired: Rect, owner: Option<Rect>) returns (c: Rect)
    requires ValidLayout(l) && Place(l, desired, CenterPrimary, owner) != None
    ensures var p := Place(l, desired, CenterPrimary, owner).value;
            desired.width <= p.monitor.work.width && desired.height <= p.monitor.work.height ==>
              CentredOn(c, p.monitor.work, desired) && OnHost(l.desktop, p.rect, c)
  {
    c := CentredInWorkIsPlacedThere(l, desired, CenterPrimary, owner);
  }

  // ---- when a window is left where it is ----

  /** A pixel of the window's top row is in a monitor's work area. */
  predicate ShowsTopRow(m: Monitor, host: Rect, x: int) {
    host.x <= x < Right(host) && m.work.x <= x < Right(m.work) && m.work.y <= host.y < Bottom(m.work)
  }

  /** A window is left where it is exactly when some pixel of its top row is in a work area. */
  lemma ReachableExactly(l: Layout, host: Rect)
    requires ValidLayout(l) && Proper(host)
    ensures Reachable(l, host) != None <==> exists m, x :: m in l.monitors && ShowsTopRow(m, host, x)
  {
    BestIsOptimal(WorkOverlapping(TopRow(host)), l.monitors);
    if Reachable(l, host) != None {
      var m := Reachable(l, host).value;
      PositiveArea(m.work, TopRow(host));
      assert ShowsTopRow(m, host, Max(m.work.x, host.x));
    }
    if m, x :| m in l.monitors && ShowsTopRow(m, host, x) {
      MonitorInLayout(l, m);
      PositiveArea(m.work, TopRow(host));
      assert Eligible(WorkOverlapping(TopRow(host)), m);
    }
  }

  /** On the side of [a, b) where the window starts there is room for it before the end of [low, high). */
  predicate HasRoom(origin: int, size: int, low: int, high: int, a: int, b: int) {
    (b <= origin && size <= high - b) || (origin + size <= a && size <= a - low)
  }

  /** Too large for the monitor's work area along an axis, and beside the monitor with room on the
      desktop to stay there. */
  predicate StaysBeside(c: Rect, m: Monitor, desktop: Rect) {
    || (c.width > m.work.width && HasRoom(c.x, c.width, desktop.x, Right(desktop), m.bounds.x, Right(m.bounds)))
    || (c.height > m.work.height && HasRoom(c.y, c.height, desktop.y, Bottom(desktop), m.bounds.y, Bottom(m.bounds)))
  }

  predicate AxisClear(origin: int, size: int, low: int, high: int, a: int, b: int) {
    b <= low || high <= a || HasRoom(origin, size, low, high, a, b)
  }

  /** Along an axis the rectangle is outside what the window is brought into, or the window starts
      beside it with room to stay there. */
  predicate ClearOf(c: Rect, m: Monitor, desktop: Rect, r: Rect) {
    || AxisClear(c.x, c.width, AxisLow(c.width, m.work.x, Right(m.work), desktop.x),
                 AxisHigh(c.width, m.work.x, Right(m.work), Right(desktop)), r.x, Right(r))
    || AxisClear(c.y, c.height, AxisLow(c.height, m.work.y, Bottom(m.work), desktop.y),
                 AxisHigh(c.height, m.work.y, Bottom(m.work), Bottom(desktop)), r.y, Bottom(r))
  }

  lemma AxisClearExactly(origin: int, size: int, low: int, high: int, a: int, b: int)
    requires size > 0 && low < high && a < b && (size <= high - low || low <= a < b <= high)
    ensures var c := ClampAxis(origin, size, low, high);
            (b <= c || c + size <= a) <==> AxisClear(origin, size, low, high, a, b)
  {
  }

  /** On the monitor that a window is brought to, an axis is clear only if the window is too large for
      the work area. */
  lemma ClearOfChosen(c: Rect, m: Monitor, desktop: Rect)
    requires Contains(m.bounds, m.work) && Contains(desktop, m.bounds) && c.width > 0 && c.height > 0
    ensures ClearOf(c, m, desktop, m.bounds) <==> StaysBeside(c, m, desktop)
  {
  }

  lemma ClampMissesExactly(c: Rect, m: Monitor, desktop: Rect, r: Rect)
    requires Contains(m.bounds, m.work) && Contains(desktop, m.bounds) && Contains(desktop, r)
    requires c.width > 0 && c.height > 0
    ensures var k := Clamp(c, m, desktop);
            !(k.x < Right(r) && r.x < Right(k) && k.y < Bottom(r) && r.y < Bottom(k)) <==> ClearOf(c, m, desktop, r)
  {
    AxisClearExactly(c.x, c.width, AxisLow(c.width, m.work.x, Right(m.work), desktop.x),
                     AxisHigh(c.width, m.work.x, Right(m.work), Right(desktop)), r.x, Right(r));
    AxisClearExactly(c.y, c.height, AxisLow(c.height, m.work.y, Bottom(m.work), desktop.y),
                     AxisHigh(c.height, m.work.y, Bottom(m.work), Bottom(desktop)), r.y, Bottom(r));
  }

  lemma RecoveredMissesExactly(l: Layout, mode: Mode, desired: Rect, owner: Option<Rect>, m: Monitor)
    requires ValidLayout(l) && (mode == CenterOwner ==> owner != None) && desired.width > 0 && desired.height > 0
    requires Recovered(l, mode, desired, owner) != None && m in l.monitors
    ensures var p := Recovered(l, mode, desired, owner).value;
            var c := Candidate(mode, desired, owner, p.monitor).value;
            && Chosen(l, mode, desired, owner) == Some(p.monitor) && p.monitor in l.monitors
            && (!Meets(l.desktop, p.rect, m.bounds) <==> ClearOf(c, p.monitor, l.desktop, m.bounds))
            && (ClearOf(c, p.monitor, l.desktop, p.monitor.bounds) <==> StaysBeside(c, p.monitor, l.desktop))
  {
    var p := Recovered(l, mode, desired, owner).value;
    RecoveredIsClamped(l, mode, desired, owner);
    AlwaysChosen(l, mode, desired, owner);
    MonitorInLayout(l, p.monitor);
    MonitorInLayout(l, m);
    var c := Candidate(mode, desired, owner, p.monitor).value;
    ClampMissesExactly(c, p.monitor, l.desktop, m.bounds);
    ClearOfChosen(c, p.monitor, l.desktop);
  }

  /** Where the window starts from stays beside the monitor it would be brought to. */
  predicate LeftBeside(l: Layout, mode: Mode, desired: Rect, owner: Option<Rect>)
    requires mode == CenterOwner ==> owner != None
  {
    match Chosen(l, mode, desired, owner)
    case None => false
    case Some(m) =>
      match Candidate(mode, desired, owner, m)
      case None => false
      case Some(c) => StaysBeside(c, m, l.desktop)
  }

  /** And is clear of every other monitor. */
  ghost predicate ClearOfOthers(l: Layout, mode: Mode, desired: Rect, owner: Option<Rect>)
    requires mode == CenterOwner ==> owner != None
  {
    match Chosen(l, mode, desired, owner)
    case None => true
    case Some(m) =>
      match Candidate(mode, desired, owner, m)
      case None => true
      case Some(c) => forall other | other in l.monitors && other != m :: ClearOf(c, m, l.desktop, other.bounds)
  }

  lemma ReachableMeets(l: Layout, guest: Rect, host: Rect)
    requires ValidLayout(l) && GuestToHostRect(l.desktop, guest) == Some(host) && Reachable(l, host) != None
    ensures Meets(l.desktop, guest, Reachable(l, host).value.bounds)
  {
    var m := Reachable(l, host).value;
    BestIsOptimal(WorkOverlapping(TopRow(host)), l.monitors);
    MonitorInLayout(l, m);
    PositiveArea(m.work, TopRow(host));
  }

  /** A rectangle that overlaps a monitor gets one that it overlaps. */
  lemma OverlappedIsChosen(l: Layout, r: Rect, m: Monitor)
    requires m in l.monitors && IntersectionArea(m.bounds, r) > 0
    ensures OverlappingOrNearest(l, r) != None
    ensures var b := OverlappingOrNearest(l, r).value.bounds; OverlapWidth(b, r) > 0 && OverlapHeight(b, r) > 0
  {
    BestIsOptimal(Overlapping(r), l.monitors);
    assert Eligible(Overlapping(r), m);
    PositiveArea(Best(Overlapping(r), l.monitors).value.bounds, r);
  }

  /** A preserved window that overlaps a monitor is not beside the one it is brought to. */
  lemma OverlappingIsNotBeside(l: Layout, host: Rect, owner: Option<Rect>, m: Monitor)
    requires m in l.monitors && IntersectionArea(m.bounds, host) > 0
    ensures !LeftBeside(l, Preserve, host, owner)
  {
    OverlappedIsChosen(l, host, m);
  }

  lemma SeparateGetsNearest(l: Layout, r: Rect)
    requires forall m | m in l.monitors :: IntersectionArea(m.bounds, r) == 0
    ensures OverlappingOrNearest(l, r) == Best(Nearest(r), l.monitors)
  {
    BestIsOptimal(Overlapping(r), l.monitors);
  }

  lemma ReachableIsNotBeside(l: Layout, host: Rect, owner: Option<Rect>)
    requires ValidLayout(l) && Proper(host) && Reachable(l, host) != None
    ensures !LeftBeside(l, Preserve, host, owner)
  {
    var m := Reachable(l, host).value;
    BestIsOptimal(WorkOverlapping(TopRow(host)), l.monitors);
    MonitorInLayout(l, m);
    PositiveArea(m.work, TopRow(host));
    PositiveArea(m.bounds, host);
    OverlappingIsNotBeside(l, host, owner, m);
  }

  /** A placed window misses the monitor it is given if and only if it starts beside the monitor that
      it is to be brought to, too large for the work area there but with room beside it. */
  lemma OffMonitorExactlyWhen(l: Layout, desired: Rect, mode: Mode, owner: Option<Rect>)
    requires ValidLayout(l) && Place(l, desired, mode, owner) != None
    ensures var p := Place(l, desired, mode, owner).value;
            var host := GuestToHostRect(l.desktop, desired).value;
            !Meets(l.desktop, p.rect, p.monitor.bounds) <==> LeftBeside(l, mode, host, OwnerHost(l, owner))
  {
    var host := GuestToHostRect(l.desktop, desired).value;
    if mode == Preserve && Reachable(l, host) != None {
      ReachableMeets(l, desired, host);
      ReachableIsNotBeside(l, host, OwnerHost(l, owner));
    } else {
      AlwaysChosen(l, mode, host, OwnerHost(l, owner));
      RecoveredMissesExactly(l, mode, host, OwnerHost(l, owner), Place(l, desired, mode, owner).value.monitor);
    }
  }

  /** A placed window lies over no monitor at all if and only if, besides, it is clear of the others. */
  lemma InAHoleExactlyWhen(l: Layout, desired: Rect, mode: Mode, owner: Option<Rect>)
    requires ValidLayout(l) && Place(l, desired, mode, owner) != None
    ensures var p := Place(l, desired, mode, owner).value;
            var host := GuestToHostRect(l.desktop, desired).value;
            (forall m | m in l.monitors :: !Meets(l.desktop, p.rect, m.bounds))
            <==> LeftBeside(l, mode, host, OwnerHost(l, owner)) && ClearOfOthers(l, mode, host, OwnerHost(l, owner))
  {
    var p := Place(l, desired, mode, owner).value;
    var host, ownerHost := GuestToHostRect(l.desktop, desired).value, OwnerHost(l, owner);
    OffMonitorExactlyWhen(l, desired, mode, owner);
    PlacedOnAMonitor(l, desired, mode, owner);
    if LeftBeside(l, mode, host, ownerHost) {
      if mode == Preserve && Reachable(l, host) != None {
        ReachableIsNotBeside(l, host, ownerHost);
      }
      forall m | m in l.monitors
        ensures !Meets(l.desktop, p.rect, m.bounds)
                <==> ClearOf(Candidate(mode, host, ownerHost, p.monitor).value, p.monitor, l.desktop, m.bounds)
      {
        RecoveredMissesExactly(l, mode, host, ownerHost, m);
      }
    }
  }

  lemma PlacedOnAMonitor(l: Layout, desired: Rect, mode: Mode, owner: Option<Rect>)
    requires ValidLayout(l) && Place(l, desired, mode, owner) != None
    ensures Place(l, desired, mode, owner).value.monitor in l.monitors
  {
    var host := GuestToHostRect(l.desktop, desired).value;
    BestIsOptimal(WorkOverlapping(TopRow(host)), l.monitors);
    AlwaysChosen(l, mode, host, OwnerHost(l, owner));
  }

  /** Preserving: exactly when the window overlaps no monitor and stays beside the nearest one. */
  lemma PreservedOffMonitorExactlyWhen(l: Layout, desired: Rect, owner: Option<Rect>)
    requires ValidLayout(l) && Place(l, desired, Preserve, owner) != None
    ensures var p := Place(l, desired, Preserve, owner).value;
            var host := GuestToHostRect(l.desktop, desired).value;
            var nearest := Best(Nearest(host), l.monitors);
            !Meets(l.desktop, p.rect, p.monitor.bounds)
            <==> && (forall m | m in l.monitors :: IntersectionArea(m.bounds, host) == 0)
                 && nearest != None && StaysBeside(host, nearest.value, l.desktop)
  {
    var host := GuestToHostRect(l.desktop, desired).value;
    OffMonitorExactlyWhen(l, desired, Preserve, owner);
    if m :| m in l.monitors && IntersectionArea(m.bounds, host) > 0 {
      OverlappingIsNotBeside(l, host, OwnerHost(l, owner), m);
    } else {
      SeparateGetsNearest(l, host);
    }
  }

  /** Preserving a window that overlaps a monitor leaves it overlapping the monitor it is given, however
      large it is. */
  lemma PreservedStaysOnMonitor(l: Layout, desired: Rect, owner: Option<Rect>, m: Monitor)
    requires ValidLayout(l) && Place(l, desired, Preserve, owner) != None && m in l.monitors
    requires IntersectionArea(m.bounds, GuestToHostRect(l.desktop, desired).value) > 0
    ensures var p := Place(l, desired, Preserve, owner).value; Meets(l.desktop, p.rect, p.monitor.bounds)
  {
    PreservedOffMonitorExactlyWhen(l, desired, owner);
  }

  /** Centring over a smaller interval covers it. */
  lemma HalfCovers(origin: int, anchor: int, size: int)
    requires size >= anchor
    ensures var c := origin + Half(anchor - size); c <= origin && origin + anchor <= c + size
  {
  }

  /** What is centred on an anchor that overlaps the monitor is not beside it, if along each axis it
      covers the anchor or fits the work area. */
  lemma CentredIsNotBeside(anchor: Rect, r: Rect, m: Monitor, desktop: Rect)
    requires CentersInRange(anchor, r) && OverlapWidth(m.bounds, anchor) > 0 && OverlapHeight(m.bounds, anchor) > 0
    requires r.width >= anchor.width || r.width <= m.work.width
    requires r.height >= anchor.height || r.height <= m.work.height
    ensures !StaysBeside(Centered(anchor, r).value, m, desktop)
  {
    if r.width >= anchor.width {
      HalfCovers(anchor.x, anchor.width, r.width);
    }
    if r.height >= anchor.height {
      HalfCovers(anchor.y, anchor.height, r.height);
    }
  }

  /** A window centred on the primary monitor overlaps it, however large it is. */
  lemma CentredMeetsPrimary(l: Layout, desired: Rect, owner: Option<Rect>)
    requires ValidLayout(l) && Place(l, desired, CenterPrimary, owner) != None
    ensures var p := Place(l, desired, CenterPrimary, owner).value;
            p.monitor.id == l.primaryId && Meets(l.desktop, p.rect, p.monitor.bounds)
  {
    var p := Place(l, desired, CenterPrimary, owner).value;
    ByIdHasId(l.monitors, l.primaryId);
    PlacedOnAMonitor(l, desired, CenterPrimary, owner);
    MonitorInLayout(l, p.monitor);
    OffMonitorExactlyWhen(l, desired, CenterPrimary, owner);
    CentredIsNotBeside(p.monitor.work, GuestToHostRect(l.desktop, desired).value, p.monitor, l.desktop);
  }

  /** Centring on the owner: exactly when the centred window stays beside the owner's monitor. */
  lemma CentredOnOwnerOffMonitorExactlyWhen(l: Layout, desired: Rect, owner: Rect)
    requires ValidLayout(l) && Place(l, desired, CenterOwner, Some(owner)) != None
    ensures var p := Place(l, desired, CenterOwner, Some(owner)).value;
            var anchor := GuestToHostRect(l.desktop, owner).value;
            var m, c := OverlappingOrNearest(l, anchor), Centered(anchor, GuestToHostRect(l.desktop, desired).value);
            && m != None && c != None
            && (!Meets(l.desktop, p.rect, p.monitor.bounds) <==> StaysBeside(c.value, m.value, l.desktop))
  {
    OffMonitorExactlyWhen(l, desired, CenterOwner, Some(owner));
  }

  /** So a window at least as large as an owner on a monitor is centred over that monitor. */
  lemma CentredOverOwnerMeets(l: Layout, desired: Rect, owner: Rect, m: Monitor)
    requires ValidLayout(l) && Place(l, desired, CenterOwner, Some(owner)) != None && m in l.monitors
    requires IntersectionArea(m.bounds, GuestToHostRect(l.desktop, owner).value) > 0
    requires desired.width >= owner.width && desired.height >= owner.height
    ensures var p := Place(l, desired, CenterOwner, Some(owner)).value; Meets(l.desktop, p.rect, p.monitor.bounds)
  {
    var anchor := GuestToHostRect(l.desktop, owner).value;
    CentredOnOwnerOffMonitorExactlyWhen(l, desired, owner);
    OverlappedIsChosen(l, anchor, m);
    CentredIsNotBeside(anchor, GuestToHostRect(l.desktop, desired).value,
                       OverlappingOrNearest(l, anchor).value, l.desktop);
  }

  lemma {:induction false} ByIdHasId(ms: seq<Monitor>, id: bytes)
    ensures ById(ms, id) != None ==> ById(ms, id).value.id == id
  {
    if ms != [] && ms[0].id != id {
      ByIdHasId(ms[1..], id);
    }
  }

  // ---- a recovered window can miss every monitor ----

  /** A small monitor at the desktop's first corner, a large one at the opposite corner. */
  predicate Gapped(l: Layout, small: Monitor, large: Monitor) {
    && l.monitors == [small, large] && small.work == small.bounds && large.work == large.bounds
    && Contains(l.desktop, small.bounds) && Contains(l.desktop, large.bounds)
    && Right(small.bounds) <= large.bounds.x && Bottom(small.bounds) <= large.bounds.y
  }

  /** A window in the gap: beside the small monitor, wider than it, reaching over the large one's
      columns, and nearer to the small one. */
  predicate Stray(small: Rect, large: Rect, r: Rect) {
    && Proper(r) && r.width > small.width
    && Right(small) <= r.x && small.y <= r.y && Bottom(r) <= Bottom(small)
    && large.x <= Right(r) <= Right(large)
    && r.x - Right(small) < large.y - Bottom(r)
  }

  lemma BestOfTwo(q: Query, a: Monitor, b: Monitor)
    ensures Best(q, [a, b]) == Better(q, b, Better(q, a, None))
  {
    assert [a, b][..1] == [a] && [a][..0] == [];
    assert Best(q, [a]) == Better(q, a, Best(q, [a][..0]));
  }

  lemma StrayOverlapsNone(l: Layout, small: Monitor, large: Monitor, r: Rect)
    requires Gapped(l, small, large) && Stray(small.bounds, large.bounds, r)
    ensures Best(WorkOverlapping(TopRow(r)), l.monitors) == None && Best(Overlapping(r), l.monitors) == None
  {
    assert OverlapWidth(small.bounds, r) <= 0 && OverlapHeight(large.bounds, r) <= 0;
    assert OverlapWidth(small.work, TopRow(r)) <= 0 && OverlapHeight(large.work, TopRow(r)) <= 0;
    BestOfTwo(WorkOverlapping(TopRow(r)), small, large);
    BestOfTwo(Overlapping(r), small, large);
  }

  lemma StrayIsNearSmall(l: Layout, small: Monitor, large: Monitor, r: Rect)
    requires Gapped(l, small, large) && Stray(small.bounds, large.bounds, r)
    ensures Best(Nearest(r), l.monitors) == Some(small)
  {
    assert Gap(small.bounds, r) == r.x - Right(small.bounds);
    assert Gap(large.bounds, r) >= large.bounds.y - Bottom(r);
    BestOfTwo(Nearest(r), small, large);
  }

  /** Every such window is recovered to where it was, over no monitor. */
  lemma StrayStaysInGap(l: Layout, small: Monitor, large: Monitor, guest: Rect)
    requires Gapped(l, small, large) && GuestToHostRect(l.desktop, guest) != None && Proper(guest)
    requires Stray(small.bounds, large.bounds, GuestToHostRect(l.desktop, guest).value)
    ensures Place(l, guest, Preserve, None) == Some(Placed(guest, small))
    ensures forall m | m in l.monitors :: !Meets(l.desktop, guest, m.bounds)
  {
    var host := GuestToHostRect(l.desktop, guest).value;
    StrayOverlapsNone(l, small, large, host);
    StrayIsNearSmall(l, small, large, host);
    assert Clamp(host, small, l.desktop) == host;
    RectsMapBack(l.desktop, guest);
    assert !Meets(l.desktop, guest, small.bounds) && !Meets(l.desktop, guest, large.bounds);
  }

  lemma TwoValid(l: Layout, a: Monitor, b: Monitor)
    requires l.monitors == [a, b] && a.id != b.id && a.bounds != b.bounds && a.primary
    requires l.schema == SCHEMA_VERSION && Bounded(l.snapshot, MAX_SNAPSHOT_ID, false)
    requires l.desktop.width <= MAX_AXIS && l.desktop.height <= MAX_AXIS
    requires l.desktop.width * l.desktop.height <= MAX_PIXELS && Bounded(l.primaryId, MAX_MONITOR_ID, false)
    requires ValidMonitor(a, l.primaryId) && ValidMonitor(b, l.primaryId)
    requires Contains(l.desktop, a.bounds) && Contains(l.desktop, b.bounds)
    requires a.bounds.x == l.desktop.x && a.bounds.y == l.desktop.y
    requires Right(b.bounds) == Right(l.desktop) && Bottom(b.bounds) == Bottom(l.desktop)
    ensures ValidLayout(l)
  {
    var ms := l.monitors;
    assert ms[0].primary && ms[0].bounds.x == l.desktop.x && ms[0].bounds.y == l.desktop.y;
    assert Right(ms[1].bounds) == Right(l.desktop) && Bottom(ms[1].bounds) == Bottom(l.desktop);
  }

  lemma MonitorAt(id: byte, primary: bool, r: Rect) returns (m: Monitor)
    requires Proper(r) && id != 0
    ensures m.id == [id] && m.bounds == r && m.work == r && m.primary == primary
    ensures !primary ==> forall p :: ValidMonitor(m, p)
    ensures primary ==> ValidMonitor(m, [id])
  {
    m := Monitor([id], [], r, r, 96, 96, Identity, primary);
  }

  lemma RectAt(x: i32, y: i32, width: i32, height: i32) returns (r: Rect)
    ensures r.x == x && r.y == y && r.width == width && r.height == height
  {
    r := Rect(x, y, width, height);
  }

  /** A host rectangle on the desktop has a place in guest coordinates. */
  lemma GuestOf(desktop: Rect, host: Rect) returns (guest: Rect)
    requires Contains(desktop, host)
    ensures Proper(guest) && GuestToHostRect(desktop, guest) == Some(host)
  {
    guest := Rect(host.x - desktop.x, host.y - desktop.y, host.width, host.height);
  }

  lemma GapExists() returns (desktop: Rect, small: Rect, large: Rect, stray: Rect)
    ensures Contains(desktop, small) && Contains(desktop, large) && small != large && Contains(desktop, stray)
    ensures small.x == desktop.x && small.y == desktop.y
    ensures Right(large) == Right(desktop) && Bottom(large) == Bottom(desktop)
    ensures desktop.width <= MAX_AXIS && desktop.height <= MAX_AXIS && desktop.width * desktop.height <= MAX_PIXELS
    ensures Right(small) <= large.x && Bottom(small) <= large.y && Stray(small, large, stray)
  {
    desktop := RectAt(7, 11, 1000, 900);
    small := RectAt(7, 11, 100, 90);
    large := RectAt(207, 511, 800, 400);
    stray := RectAt(127, 31, 150, 50);
  }

  /** A window wider than the nearest monitor's work area can be left beside it, over no monitor at
      all. */
  lemma RecoveredIntoAHole() returns (l: Layout, stray: Rect, p: Placed)
    ensures ValidLayout(l) && Place(l, stray, Preserve, None) == Some(p)
    ensures forall m | m in l.monitors :: !Meets(l.desktop, p.rect, m.bounds)
  {
    var desktop, corner, opposite, gap := GapExists();
    var small := MonitorAt(97, true, corner);
    var large := MonitorAt(98, false, opposite);
    l := Layout(1, [49], desktop, [97], [small, large]);
    assert small.id[0] != large.id[0];
    TwoValid(l, small, large);
    stray := GuestOf(desktop, gap);
    StrayStaysInGap(l, small, large, stray);
    p := Placed(stray, small);
  }
}
