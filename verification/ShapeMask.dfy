/** Blacking out the pixels of a captured frame that lie outside a window's bounding shape. */
module ShapeMask {
  import opened Basics
  import opened Bytes
  import opened Grid

  const SIZE_MAX: int := 0xFFFF_FFFF_FFFF_FFFF

  datatype ShapeRect = ShapeRect(x: int, y: int, width: u32, height: u32)

  predicate In(r: ShapeRect, x: int, y: int) {
    r.x <= x < r.x + r.width && r.y <= y < r.y + r.height
  }

  /** Whether a pixel is in the shape. */
  predicate Inside(rects: seq<ShapeRect>, x: int, y: int) {
    exists j | 0 <= j < |rects| :: In(rects[j], x, y)
  }

  function Left(r: ShapeRect): int { Max(0, r.x) }

  function Right(r: ShapeRect, w: u32): int { Min(w, r.x + r.width) }

  function Top(r: ShapeRect): int { Max(0, r.y) }

  function Bottom(r: ShapeRect, h: u32): int { Min(h, r.y + r.height) }

  predicate Misses(r: ShapeRect, w: u32, h: u32) {
    Right(r, w) <= Left(r) || Bottom(r, h) <= Top(r)
  }

  function Times(a: nat, b: nat): nat { a * b }

  /** The area of the part of a rectangle inside the frame. */
  function Area(r: ShapeRect, w: u32, h: u32): (a: nat) {
    if Misses(r, w, h) then 0 else Times(Right(r, w) - Left(r), Bottom(r, h) - Top(r))
  }

  function TotalArea(rects: seq<ShapeRect>, w: u32, h: u32): (a: nat) {
    if rects == [] then 0 else TotalArea(rects[..|rects| - 1], w, h) + Area(rects[|rects| - 1], w, h)
  }

  /** A buffer of four bytes for each pixel of a frame that is not empty. */
  predicate WellFormed(length: nat, w: u32, h: u32) {
    w > 0 && h > 0 && w * h <= SIZE_MAX / 4 && length == w * h * 4
  }

  function Column(i: nat, w: u32): nat
    requires w > 0
  {
    i % w
  }

  function Row(i: nat, w: u32): nat
    requires w > 0
  {
    i / w
  }

  /** The byte of the masked frame: unchanged inside the shape, opaque black outside. */
  function MaskedByte(frame: bytes, w: u32, rects: seq<ShapeRect>, k: nat): byte
    requires w > 0 && k < |frame|
  {
    if Inside(rects, Column(k / 4, w), Row(k / 4, w)) then frame[k] else if k % 4 == 3 then 255 else 0
  }

  predicate IsMasked(before: bytes, after: bytes, w: u32, rects: seq<ShapeRect>)
    requires w > 0
  {
    |after| == |before| && forall k | 0 <= k < |after| :: after[k] == MaskedByte(before, w, rects, k)
  }

  predicate InBox(i: nat, w: u32, x0: int, x1: int, y0: int, y1: int)
    requires w > 0
  {
    x0 <= Column(i, w) < x1 && y0 <= Row(i, w) < y1
  }

  // ---- the cells of a row ----

  lemma RowFits(w: u32, h: u32, y: int, x: int)
    requires 0 <= y < h && 0 <= x <= w
    ensures 0 <= y * w + x <= w * h
  {
    assert (y + 1) * w <= h * w;
  }

  lemma {:induction false} RowsApart(r: nat, y: nat, w: nat)
    requires r < y
    ensures r * w + w <= y * w
  {
    if r + 1 < y {
      RowsApart(r, y - 1, w);
    }
  }

  lemma RowAndColumn(i: nat, w: u32)
    requires w > 0
    ensures i == Row(i, w) * w + Column(i, w) && 0 <= Column(i, w) < w
  {
  }

  lemma RowCells(i: nat, w: u32, y: nat, x0: nat, x1: nat)
    requires w > 0 && x0 <= x1 <= w
    ensures y * w + x0 <= i < y * w + x1 <==> InBox(i, w, x0, x1, y, y + 1)
  {
    var r := Row(i, w);
    RowAndColumn(i, w);
    if r < y {
      RowsApart(r, y, w);
    } else if r > y {
      RowsApart(y, r, w);
    }
  }

  /** Clipping to the frame does not change which of the frame's pixels a rectangle covers. */
  lemma ClippedCovers(i: nat, w: u32, h: u32, r: ShapeRect)
    requires w > 0 && i < w * h
    ensures InBox(i, w, Left(r), Right(r, w), Top(r), Bottom(r, h)) <==> In(r, Column(i, w), Row(i, w))
  {
    PixelInFrame(i, w, h);
  }

  method FillRange(covered: array<bool>, from: nat, to: nat)
    requires from <= to <= covered.Length
    modifies covered
    ensures forall i | 0 <= i < covered.Length :: covered[i] == (old(covered[i]) || from <= i < to)
  {
    for k := from to to
      invariant forall i | 0 <= i < covered.Length :: covered[i] == (old(covered[i]) || from <= i < k)
    {
      covered[k] := true;
    }
  }

  /** Marks part of one row. */
  method FillRow(covered: array<bool>, w: u32, h: u32, x0: nat, x1: nat, y: nat)
    requires w > 0 && covered.Length == w * h && x0 <= x1 <= w && y < h
    modifies covered
    ensures forall i | 0 <= i < covered.Length :: covered[i] == (old(covered[i]) || InBox(i, w, x0, x1, y, y + 1))
  {
    RowFits(w, h, y, x0);
    RowFits(w, h, y, x1);
    FillRange(covered, y * w + x0, y * w + x1);
    forall i | 0 <= i < covered.Length
      ensures covered[i] == (old(covered[i]) || InBox(i, w, x0, x1, y, y + 1))
    {
      RowCells(i, w, y, x0, x1);
    }
  }

  /** Marks the cells of a box, row by row; `work` counts the cells written. */
  method FillBox(covered: array<bool>, w: u32, h: u32, x0: nat, x1: nat, y0: nat, y1: nat) returns (ghost work: nat)
    requires w > 0 && covered.Length == w * h && x0 <= x1 <= w && y0 <= y1 <= h
    modifies covered
    ensures forall i | 0 <= i < covered.Length :: covered[i] == (old(covered[i]) || InBox(i, w, x0, x1, y0, y1))
    ensures work == (x1 - x0) * (y1 - y0)
  {
    work := 0;
    ghost var width := x1 - x0;
    for y := y0 to y1
      invariant forall i | 0 <= i < covered.Length :: covered[i] == (old(covered[i]) || InBox(i, w, x0, x1, y0, y))
      invariant work == width * (y - y0)
    {
      FillRow(covered, w, h, x0, x1, y);
      OneMoreRow(width, y - y0);
      work := work + width;
    }
  }

  ghost predicate Covers(covered: array<bool>, w: u32, rects: seq<ShapeRect>)
    requires w > 0
    reads covered
  {
    forall i | 0 <= i < covered.Length :: covered[i] == Inside(rects, Column(i, w), Row(i, w))
  }

  lemma {:induction false} AreaGrows(rects: seq<ShapeRect>, k: nat, w: u32, h: u32)
    requires k <= |rects|
    ensures TotalArea(rects[..k], w, h) <= TotalArea(rects, w, h)
    decreases |rects|
  {
    if k < |rects| {
      AreaGrows(rects[..|rects| - 1], k, w, h);
      assert rects[..|rects| - 1][..k] == rects[..k];
    } else {
      assert rects[..k] == rects;
    }
  }

  lemma InsideOneMore(rects: seq<ShapeRect>, r: ShapeRect, x: int, y: int)
    ensures Inside(rects + [r], x, y) <==> Inside(rects, x, y) || In(r, x, y)
  {
    var s := rects + [r];
    if Inside(rects, x, y) {
      var j :| 0 <= j < |rects| && In(rects[j], x, y);
      assert In(s[j], x, y);
    }
    if In(r, x, y) {
      assert In(s[|rects|], x, y);
    }
  }

  /** Marks one rectangle's part of the frame. */
  method CoverRect(covered: array<bool>, w: u32, h: u32, ghost rects: seq<ShapeRect>, r: ShapeRect)
    returns (ghost work: nat)
    requires w > 0 && covered.Length == w * h && Covers(covered, w, rects) && !Misses(r, w, h)
    modifies covered
    ensures Covers(covered, w, rects + [r])
    ensures work == Area(r, w, h)
  {
    work := FillBox(covered, w, h, Left(r), Right(r, w), Top(r), Bottom(r, h));
    forall i | 0 <= i < covered.Length
      ensures covered[i] == Inside(rects + [r], Column(i, w), Row(i, w))
    {
      ClippedCovers(i, w, h, r);
      InsideOneMore(rects, r, Column(i, w), Row(i, w));
    }
  }

  /** Marks every rectangle, unless their areas add up to more than the frame. */
  method CoverAll(covered: array<bool>, w: u32, h: u32, rects: seq<ShapeRect>) returns (ok: bool, ghost work: nat)
    requires w > 0 && covered.Length == w * h && Covers(covered, w, [])
    modifies covered
    ensures ok <==> TotalArea(rects, w, h) <= w * h
    ensures ok ==> Covers(covered, w, rects)
    ensures work <= w * h
  {
    var pixels := w * h;
    var area: nat := 0;
    work := 0;
    for k := 0 to |rects|
      invariant Covers(covered, w, rects[..k])
      invariant work == area == TotalArea(rects[..k], w, h) <= pixels
    {
      var r := rects[k];
      assert rects[..k + 1] == rects[..k] + [r];
      assert rects[..k + 1][..k] == rects[..k];
      AreaGrows(rects, k + 1, w, h);
      if !Misses(r, w, h) {
        var a := (Right(r, w) - Left(r)) * (Bottom(r, h) - Top(r));
        if a > pixels - area {
          return false, work;
        }
        area := area + a;
        ghost var more := CoverRect(covered, w, h, rects[..k], r);
        work := work + more;
      } else {
        MissesCoverNothing(covered, w, h, rects[..k], r);
      }
    }
    assert rects[..|rects|] == rects;
    return true, work;
  }

  lemma MissesCoverNothing(covered: array<bool>, w: u32, h: u32, rects: seq<ShapeRect>, r: ShapeRect)
    requires w > 0 && covered.Length == w * h && Covers(covered, w, rects) && Misses(r, w, h)
    ensures Covers(covered, w, rects + [r])
  {
    forall i | 0 <= i < covered.Length
      ensures covered[i] == Inside(rects + [r], Column(i, w), Row(i, w))
    {
      ClippedCovers(i, w, h, r);
      InsideOneMore(rects, r, Column(i, w), Row(i, w));
    }
  }

  lemma PixelByte(i: nat, k: nat)
    requires i * 4 <= k < i * 4 + 4
    ensures k / 4 == i && k % 4 == k - i * 4
  {
  }

  method BlackPixel(bgra: array<byte>, i: nat)
    requires i * 4 + 4 <= bgra.Length
    modifies bgra
    ensures forall k | 0 <= k < bgra.Length && !(i * 4 <= k < i * 4 + 4) :: bgra[k] == old(bgra[k])
    ensures forall k | i * 4 <= k < i * 4 + 4 :: bgra[k] == if k == i * 4 + 3 then 255 else 0
  {
    bgra[i * 4] := 0;
    bgra[i * 4 + 1] := 0;
    bgra[i * 4 + 2] := 0;
    bgra[i * 4 + 3] := 255;
  }

  /** Overwrites the pixels that are not covered. */
  method BlackOut(bgra: array<byte>, covered: array<bool>, w: u32, rects: seq<ShapeRect>)
    requires w > 0 && bgra.Length == covered.Length * 4 && Covers(covered, w, rects)
    modifies bgra
    ensures IsMasked(old(bgra[..]), bgra[..], w, rects)
  {
    ghost var frame := bgra[..];
    for i := 0 to covered.Length
      invariant Covers(covered, w, rects)
      invariant forall k | 0 <= k < i * 4 :: bgra[k] == MaskedByte(frame, w, rects, k)
      invariant forall k | i * 4 <= k < bgra.Length :: bgra[k] == frame[k]
    {
      if !covered[i] {
        BlackPixel(bgra, i);
      }
      forall k | i * 4 <= k < i * 4 + 4
        ensures bgra[k] == MaskedByte(frame, w, rects, k)
      {
        PixelByte(i, k);
      }
    }
  }

  predicate Unshaped(rects: seq<ShapeRect>, w: u32, h: u32) {
    |rects| == 1 && rects[0] == ShapeRect(0, 0, w, h)
  }

  lemma PixelInFrame(i: nat, w: u32, h: u32)
    requires w > 0 && i < w * h
    ensures Row(i, w) < h && Column(i, w) < w
  {
  }

  lemma UnshapedChangesNothing(frame: bytes, w: u32, h: u32, rects: seq<ShapeRect>)
    requires WellFormed(|frame|, w, h) && Unshaped(rects, w, h)
    ensures IsMasked(frame, frame, w, rects) && TotalArea(rects, w, h) <= w * h
  {
    forall k | 0 <= k < |frame|
      ensures MaskedByte(frame, w, rects, k) == frame[k]
    {
      PixelInFrame(k / 4, w, h);
      assert In(rects[0], Column(k / 4, w), Row(k / 4, w));
    }
    assert rects[..0] == [];
    assert TotalArea(rects[..0], w, h) == 0 && Area(rects[0], w, h) == w * h;
  }

  /** A frame of 32-bit width and height has a 64-bit number of pixels. */
  lemma FrameIsCountable(w: u32, h: u32)
    requires h > 0
    ensures w <= SIZE_MAX / h
  {
    assert h * 0x1_0000_0000 <= SIZE_MAX + 1;
  }

  /** The buffer is accepted exactly when it fits the frame and the rectangles' areas add up to no
      more than the frame's. Then it is masked; otherwise it is left as it was. Never more cells are
      marked than the frame has. */
  method MaskOutsideShape(bgra: array?<byte>, w: u32, h: u32, rects: seq<ShapeRect>) returns (ok: bool, ghost work: nat)
    modifies bgra
    ensures ok <==> bgra != null && WellFormed(bgra.Length, w, h) && TotalArea(rects, w, h) <= w * h
    ensures ok ==> IsMasked(old(bgra[..]), bgra[..], w, rects)
    ensures !ok && bgra != null ==> bgra[..] == old(bgra[..])
    ensures work <= w * h
  {
    work := 0;
    if h > 0 {
      FrameIsCountable(w, h);
    }
    if bgra == null || w == 0 || h == 0 || w > SIZE_MAX / h {
      return false, work;
    }
    var pixels := w * h;
    if pixels > SIZE_MAX / 4 || bgra.Length != pixels * 4 {
      return false, work;
    }
    if Unshaped(rects, w, h) {
      UnshapedChangesNothing(bgra[..], w, h, rects);
      return true, work;
    }
    var covered := new bool[pixels](_ => false);
    ok, work := CoverAll(covered, w, h, rects);
    if ok {
      BlackOut(bgra, covered, w, rects);
    }
  }

  lemma IndexOf(w: u32, h: u32, x: nat, y: nat) returns (i: nat)
    requires x < w && y < h
    ensures i == y * w + x && i < w * h && Column(i, w) == x && Row(i, w) == y
  {
    i := y * w + x;
    RowFits(w, h, y, x + 1);
    RowCells(i, w, y, x, x + 1);
  }

  lemma BytesOfPixel(i: nat)
    ensures forall k | 4 * i <= k < 4 * i + 4 :: k / 4 == i && k % 4 == k - 4 * i
  {
  }

  /** Pixel by pixel: four bytes as they were inside the shape, and opaque black outside. */
  lemma PixelsAre(before: bytes, after: bytes, w: u32, h: u32, rects: seq<ShapeRect>, x: nat, y: nat)
    requires x < w && y < h && |before| == w * h * 4 && IsMasked(before, after, w, rects)
    ensures var at := 4 * (y * w + x);
            && 0 <= at <= |after| - 4
            && after[at..at + 4] == if Inside(rects, x, y) then before[at..at + 4] else [0, 0, 0, 255]
  {
    var i := IndexOf(w, h, x, y);
    BytesOfPixel(i);
    var at := 4 * i;
    assert at + 4 <= |after|;
    assert forall k | at <= k < at + 4 :: after[k] == MaskedByte(before, w, rects, k);
  }

  // ---- canonical regions are never refused ----

  predicate Disjoint(a: ShapeRect, b: ShapeRect, w: u32, h: u32) {
    forall x, y | 0 <= x < w && 0 <= y < h :: !(In(a, x, y) && In(b, x, y))
  }

  predicate PairwiseDisjoint(rects: seq<ShapeRect>, w: u32, h: u32) {
    forall i, j | 0 <= i < j < |rects| :: Disjoint(rects[i], rects[j], w, h)
  }

  function Cells(r: ShapeRect, w: u32, h: u32): set<(int, int)> {
    if Misses(r, w, h) then {} else Box(Left(r), Right(r, w), Top(r), Bottom(r, h))
  }

  function AllCells(rects: seq<ShapeRect>, w: u32, h: u32): set<(int, int)> {
    if rects == [] then {} else AllCells(rects[..|rects| - 1], w, h) + Cells(rects[|rects| - 1], w, h)
  }

  lemma CellsAre(r: ShapeRect, w: u32, h: u32, x: int, y: int)
    ensures (x, y) in Cells(r, w, h) <==> 0 <= x < w && 0 <= y < h && In(r, x, y)
  {
  }

  lemma {:induction false} AllCellsAre(rects: seq<ShapeRect>, w: u32, h: u32, x: int, y: int)
    ensures (x, y) in AllCells(rects, w, h) <==> 0 <= x < w && 0 <= y < h && Inside(rects, x, y)
  {
    if rects != [] {
      var front, last := rects[..|rects| - 1], rects[|rects| - 1];
      AllCellsAre(front, w, h, x, y);
      CellsAre(last, w, h, x, y);
      InsideOneMore(front, last, x, y);
      assert rects == front + [last];
    }
  }

  lemma CellsSize(r: ShapeRect, w: u32, h: u32)
    ensures |Cells(r, w, h)| == Area(r, w, h)
  {
    if !Misses(r, w, h) {
      BoxSize(Left(r), Right(r, w), Top(r), Bottom(r, h));
    }
  }

  lemma DisjointCells(rects: seq<ShapeRect>, r: ShapeRect, w: u32, h: u32)
    requires forall i | 0 <= i < |rects| :: Disjoint(rects[i], r, w, h)
    ensures AllCells(rects, w, h) !! Cells(r, w, h)
  {
    forall c | c in AllCells(rects, w, h)
      ensures c !in Cells(r, w, h)
    {
      AllCellsAre(rects, w, h, c.0, c.1);
      CellsAre(r, w, h, c.0, c.1);
    }
  }

  lemma CellsInFrame(rects: seq<ShapeRect>, w: u32, h: u32)
    ensures AllCells(rects, w, h) <= Box(0, w, 0, h)
  {
    forall c | c in AllCells(rects, w, h)
      ensures c in Box(0, w, 0, h)
    {
      AllCellsAre(rects, w, h, c.0, c.1);
    }
  }

  lemma {:induction false} DisjointAreasAddUp(rects: seq<ShapeRect>, w: u32, h: u32)
    requires PairwiseDisjoint(rects, w, h)
    ensures |AllCells(rects, w, h)| == TotalArea(rects, w, h)
  {
    if rects != [] {
      var front, last := rects[..|rects| - 1], rects[|rects| - 1];
      DisjointAreasAddUp(front, w, h);
      CellsSize(last, w, h);
      forall i | 0 <= i < |front|
        ensures Disjoint(front[i], last, w, h)
      {
        assert Disjoint(rects[i], rects[|rects| - 1], w, h);
      }
      DisjointCells(front, last, w, h);
    }
  }

  lemma {:induction false} SmallerSubset<T>(a: set<T>, b: set<T>)
    requires a <= b
    ensures |a| <= |b|
    decreases |a|
  {
    if a != {} {
      var x :| x in a;
      SmallerSubset(a - {x}, b - {x});
    }
  }

  /** The accounting of areas never refuses a region of rectangles that do not overlap. */
  lemma DisjointIsAccepted(rects: seq<ShapeRect>, w: u32, h: u32)
    requires PairwiseDisjoint(rects, w, h)
    ensures TotalArea(rects, w, h) <= w * h
  {
    DisjointAreasAddUp(rects, w, h);
    CellsInFrame(rects, w, h);
    SmallerSubset(AllCells(rects, w, h), Box(0, w, 0, h));
    BoxSize(0, w, 0, h);
  }
}
