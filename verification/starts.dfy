/** Start placement for the robots (`default_starts`): the four corners, then a
    walk round the border. */
module Starts {
  import opened Grid

  /** A start cell and the heading the robot starts with. */
  datatype Start = Start(cell: Cell, heading: Heading)

  /** Python's `s[:n]`: a prefix of `s`; a non-negative bound keeps at most `n`
      elements, a negative bound drops up to `-n` elements from the end. */
  function PyPrefix<T>(s: seq<T>, n: int): (r: seq<T>)
    ensures r <= s
    ensures n >= 0 ==> |r| == (if n <= |s| then n else |s|)
    ensures n < 0 ==> |s| - |r| == (if -n <= |s| then -n else |s|)
  {
    if n >= 0 then s[..if n <= |s| then n else |s|]
    else s[..if |s| + n >= 0 then |s| + n else 0]
  }

  /** The four corner starts in the order the runner assigns them. */
  function Corners(size: int): (cs: seq<Start>)
    ensures |cs| == 4
    ensures forall i :: 0 <= i < 4 ==> IsCorner(size, cs[i].cell) && IsUnitAxis(cs[i].heading)
    ensures size >= 1 ==> forall i :: 0 <= i < 4 ==> InGrid(size, cs[i].cell)
    ensures size >= 2 ==> forall i, j :: 0 <= i < j < 4 ==> cs[i].cell != cs[j].cell
  {
    [ Start(Cell(0, 0), Heading(0, -1)),
      Start(Cell(size - 1, size - 1), Heading(0, 1)),
      Start(Cell(size - 1, 0), Heading(-1, 0)),
      Start(Cell(0, size - 1), Heading(1, 0)) ]
  }

  /** Length of `range(1, size-1)`, which is also that of `range(size-2, 0, -1)`. */
  function Span(size: int): nat {
    if size >= 2 then size - 2 else 0
  }

  /** The extra border starts: the top edge left to right, the right edge top to
      bottom, the bottom edge right to left, the left edge bottom to top, each
      without its corners. */
  function BorderWalk(size: int): seq<Start> {
    var m := Span(size);
    seq(m, k => Start(Cell(k + 1, 0), Heading(0, 1)))
    + seq(m, k => Start(Cell(size - 1, k + 1), Heading(-1, 0)))
    + seq(m, k => Start(Cell(size - 2 - k, size - 1), Heading(0, -1)))
    + seq(m, k => Start(Cell(0, size - 2 - k), Heading(1, 0)))
  }

  /** A corner of the grid. */
  predicate IsCorner(size: int, c: Cell) {
    (c.x == 0 || c.x == size - 1) && (c.y == 0 || c.y == size - 1)
  }

  /** A cell on the grid's outer ring. */
  predicate OnBorder(size: int, c: Cell) {
    InGrid(size, c) && (c.x == 0 || c.x == size - 1 || c.y == 0 || c.y == size - 1)
  }

  /** The k-th border start, written out segment by segment. */
  function BorderStartAt(size: int, k: int): (st: Start)
    requires 0 <= k < 4 * Span(size)
    ensures OnBorder(size, st.cell) && !IsCorner(size, st.cell) && IsUnitAxis(st.heading)
    ensures BorderRank(size, st.cell) == k
  {
    var m := Span(size);
    if k < m then Start(Cell(k + 1, 0), Heading(0, 1))
    else if k < 2 * m then Start(Cell(size - 1, k - m + 1), Heading(-1, 0))
    else if k < 3 * m then Start(Cell(size - 2 - (k - 2 * m), size - 1), Heading(0, -1))
    else Start(Cell(0, size - 2 - (k - 3 * m)), Heading(1, 0))
  }

  /** Inverse of the border walk: the walk position of a non-corner border cell. */
  function BorderRank(size: int, c: Cell): int {
    var m := Span(size);
    if c.y == 0 then c.x - 1
    else if c.x == size - 1 then m + c.y - 1
    else if c.y == size - 1 then 2 * m + (size - 2 - c.x)
    else 3 * m + (size - 2 - c.y)
  }

  /** The walk has four segments of `size - 2` cells and visits them in order. */
  lemma BorderWalkShape(size: int)
    ensures |BorderWalk(size)| == 4 * Span(size)
    ensures forall k :: 0 <= k < 4 * Span(size) ==> BorderWalk(size)[k] == BorderStartAt(size, k)
  {
    var m := Span(size);
    var w := BorderWalk(size);
    var s1 := seq(m, k => Start(Cell(k + 1, 0), Heading(0, 1)));
    var s2 := seq(m, k => Start(Cell(size - 1, k + 1), Heading(-1, 0)));
    var s3 := seq(m, k => Start(Cell(size - 2 - k, size - 1), Heading(0, -1)));
    var s4 := seq(m, k => Start(Cell(0, size - 2 - k), Heading(1, 0)));
    assert w == s1 + s2 + s3 + s4;
    forall k | 0 <= k < 4 * m
      ensures w[k] == BorderStartAt(size, k)
    {
      if k < m {
        assert w[k] == s1[k];
      } else if k < 2 * m {
        assert w[k] == s2[k - m];
      } else if k < 3 * m {
        assert w[k] == s3[k - 2 * m];
      } else {
        assert w[k] == s4[k - 3 * m];
      }
    }
  }

  /** The border walk lists every non-corner border cell exactly once: each of its
      cells is a non-corner border cell whose rank is its position, and each
      non-corner border cell sits in the walk at its rank. */
  lemma BorderWalkIsBijection(size: int)
    ensures forall k :: 0 <= k < |BorderWalk(size)| ==>
      && OnBorder(size, BorderWalk(size)[k].cell)
      && !IsCorner(size, BorderWalk(size)[k].cell)
      && BorderRank(size, BorderWalk(size)[k].cell) == k
    ensures forall c :: OnBorder(size, c) && !IsCorner(size, c) ==>
      0 <= BorderRank(size, c) < |BorderWalk(size)| && BorderWalk(size)[BorderRank(size, c)].cell == c
    ensures forall i, j :: 0 <= i < j < |BorderWalk(size)| ==> BorderWalk(size)[i].cell != BorderWalk(size)[j].cell
  {
    BorderWalkShape(size);
    var w := BorderWalk(size);
    forall k | 0 <= k < |w|
      ensures OnBorder(size, w[k].cell) && !IsCorner(size, w[k].cell) && BorderRank(size, w[k].cell) == k
    {
      assert w[k] == BorderStartAt(size, k);
    }
    forall c | OnBorder(size, c) && !IsCorner(size, c)
      ensures 0 <= BorderRank(size, c) < |w| && w[BorderRank(size, c)].cell == c
    {
      var k := BorderRank(size, c);
      assert w[k] == BorderStartAt(size, k);
    }
    forall i, j | 0 <= i < j < |w|
      ensures w[i].cell != w[j].cell
    {
      assert BorderRank(size, w[i].cell) == i && BorderRank(size, w[j].cell) == j;
    }
  }

  /** `default_starts(n, size)`: the corner starts cut to `n` (with Python's slice
      rule for `n <= 4`), or all four corners followed by the first `n - 4`
      border starts. */
  function DefaultStarts(n: int, size: int): (s: seq<Start>)
    ensures 0 <= n <= 4 ==> s == Corners(size)[..n]
    ensures n < 0 ==> s == Corners(size)[..if n >= -4 then 4 + n else 0]
    ensures n > 4 ==> |s| == 4 + (if n - 4 <= 4 * Span(size) then n - 4 else 4 * Span(size))
    ensures n > 4 ==> s[..4] == Corners(size) && s[4..] == BorderWalk(size)[..|s| - 4]
  {
    BorderWalkShape(size);
    if n <= 4 then PyPrefix(Corners(size), n)
    else Corners(size) + PyPrefix(BorderWalk(size), n - 4)
  }

  /** The i-th default start: a corner for the first four, then the border walk. */
  lemma {:induction false} DefaultStartsAt(n: int, size: int)
    ensures var s := DefaultStarts(n, size);
      forall i :: 0 <= i < |s| ==>
        s[i] == (if i < 4 then Corners(size)[i] else BorderStartAt(size, i - 4))
  {
    var s := DefaultStarts(n, size);
    BorderWalkShape(size);
    forall i | 0 <= i < |s|
      ensures s[i] == (if i < 4 then Corners(size)[i] else BorderStartAt(size, i - 4))
    {
      if i >= 4 {
        assert s[i] == BorderWalk(size)[i - 4];
      }
    }
  }

  /** Every start heading is a unit axis vector, and on a grid with at least one
      cell every start cell is on the grid. */
  lemma DefaultStartsOnGrid(n: int, size: int)
    ensures forall i :: 0 <= i < |DefaultStarts(n, size)| ==> IsUnitAxis(DefaultStarts(n, size)[i].heading)
    ensures size >= 1 ==> forall i :: 0 <= i < |DefaultStarts(n, size)| ==> InGrid(size, DefaultStarts(n, size)[i].cell)
  {
    DefaultStartsAt(n, size);
  }

  /** On a grid of side two or more no two robots share a start cell. */
  lemma DefaultStartsDistinct(n: int, size: int)
    requires size >= 2
    ensures forall i, j :: 0 <= i < j < |DefaultStarts(n, size)| ==>
      DefaultStarts(n, size)[i].cell != DefaultStarts(n, size)[j].cell
  {
    var s := DefaultStarts(n, size);
    var w := BorderWalk(size);
    DefaultStartsAt(n, size);
    BorderWalkShape(size);
    BorderWalkIsBijection(size);
    forall i, j | 0 <= i < j < |s|
      ensures s[i].cell != s[j].cell
    {
      if j < 4 {
      } else if i < 4 {
        assert IsCorner(size, s[i].cell);
        assert s[j] == w[j - 4];
      } else {
        assert s[i] == w[i - 4] && s[j] == w[j - 4];
      }
    }
  }
}
