/** Cells of a grid: boxes of them, and how many there are. */
module Grid {
  function Line(x0: int, x1: int, y: int): set<(int, int)> {
    set x | x0 <= x < x1 :: (x, y)
  }

  function Box(x0: int, x1: int, y0: int, y1: int): set<(int, int)> {
    set x, y | x0 <= x < x1 && y0 <= y < y1 :: (x, y)
  }

  lemma OneMoreRow(width: nat, rows: nat)
    ensures width * (rows + 1) == width * rows + width
  {
  }

  lemma {:induction false} LineSize(x0: int, x1: int, y: int)
    requires x0 <= x1
    ensures |Line(x0, x1, y)| == x1 - x0
    decreases x1 - x0
  {
    if x0 == x1 {
      assert Line(x0, x1, y) == {};
    } else {
      LineSize(x0, x1 - 1, y);
      assert Line(x0, x1, y) == Line(x0, x1 - 1, y) + {(x1 - 1, y)};
    }
  }

  lemma {:induction false} BoxSize(x0: int, x1: int, y0: int, y1: int)
    requires x0 <= x1 && y0 <= y1
    ensures |Box(x0, x1, y0, y1)| == (x1 - x0) * (y1 - y0)
    decreases y1 - y0
  {
    if y0 == y1 {
      assert Box(x0, x1, y0, y1) == {};
    } else {
      BoxSize(x0, x1, y0, y1 - 1);
      LineSize(x0, x1, y1 - 1);
      assert Box(x0, x1, y0, y1) == Box(x0, x1, y0, y1 - 1) + Line(x0, x1, y1 - 1);
      OneMoreRow(x1 - x0, y1 - 1 - y0);
    }
  }
}
