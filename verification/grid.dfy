/** The discrete square grid: cells, heading vectors and the two 90-degree
    rotations of a heading. */
module Grid {

  /** A grid cell (x, y). */
  datatype Cell = Cell(x: int, y: int)

  /** A heading vector (dx, dy); robots face one of the four unit axis vectors. */
  datatype Heading = Heading(dx: int, dy: int)

  /** The cell lies in the square [0, size) x [0, size). */
  predicate InGrid(size: int, c: Cell) {
    0 <= c.x < size && 0 <= c.y < size
  }

  /** One of the four unit axis vectors (0,-1), (1,0), (0,1), (-1,0). */
  predicate IsUnitAxis(h: Heading) {
    h == Heading(0, -1) || h == Heading(1, 0) || h == Heading(0, 1) || h == Heading(-1, 0)
  }

  /** Squared length of a heading vector. */
  function Norm2(h: Heading): int {
    h.dx * h.dx + h.dy * h.dy
  }

  /** The cell `forward` steps along `h` from `c` (`forward` is +1 or -1 in practice). */
  function Ahead(c: Cell, h: Heading, forward: int): Cell {
    Cell(c.x + forward * h.dx, c.y + forward * h.dy)
  }

  /** Clockwise quarter turn (dx, dy) -> (dy, -dx). */
  function TurnRight(h: Heading): Heading {
    Heading(h.dy, -h.dx)
  }

  /** Counter-clockwise quarter turn (dx, dy) -> (-dy, dx). */
  function TurnLeft(h: Heading): Heading {
    Heading(-h.dy, h.dx)
  }

  /** The k-th unit axis vector, counting left turns from (0,-1); period four. */
  function Axis(k: int): (h: Heading)
    ensures IsUnitAxis(h)
  {
    var m := k % 4;
    if m == 0 then Heading(0, -1)
    else if m == 1 then Heading(1, 0)
    else if m == 2 then Heading(0, 1)
    else Heading(-1, 0)
  }

  /** The position of a unit axis vector in the cycle `Axis`. */
  function AxisIndex(h: Heading): (k: int)
    requires IsUnitAxis(h)
    ensures 0 <= k < 4 && Axis(k) == h
  {
    if h == Heading(0, -1) then 0
    else if h == Heading(1, 0) then 1
    else if h == Heading(0, 1) then 2
    else 3
  }

  /** Both turns keep the length of the heading and make a right angle with it;
      the sign of the cross product tells the left turn from the right turn. */
  lemma TurnGeometry(h: Heading)
    ensures Norm2(TurnLeft(h)) == Norm2(h) && Norm2(TurnRight(h)) == Norm2(h)
    ensures TurnLeft(h).dx * h.dx + TurnLeft(h).dy * h.dy == 0
    ensures TurnRight(h).dx * h.dx + TurnRight(h).dy * h.dy == 0
    ensures h.dx * TurnLeft(h).dy - h.dy * TurnLeft(h).dx == Norm2(h)
    ensures h.dx * TurnRight(h).dy - h.dy * TurnRight(h).dx == -Norm2(h)
  {
  }

  /** The two turns undo each other and four of either is the identity. */
  lemma RotationGroup(h: Heading)
    ensures TurnLeft(TurnRight(h)) == h
    ensures TurnRight(TurnLeft(h)) == h
    ensures TurnLeft(TurnLeft(TurnLeft(TurnLeft(h)))) == h
    ensures TurnRight(TurnRight(TurnRight(TurnRight(h)))) == h
    ensures TurnLeft(TurnLeft(h)) == TurnRight(TurnRight(h))
  {
  }

  /** On the unit axes a left turn adds one to the cycle index and a right
      turn subtracts one, modulo four. */
  lemma TurnsStepTheCycle(k: int)
    ensures TurnLeft(Axis(k)) == Axis(k + 1)
    ensures TurnRight(Axis(k)) == Axis(k - 1)
  {
  }

  /** Two cycle positions give the same axis exactly when they agree modulo four,
      so the four left-turn powers of a unit axis vector are four distinct axes. */
  lemma AxisPeriod(i: int, j: int)
    ensures Axis(i) == Axis(j) <==> i % 4 == j % 4
  {
  }

  /** The turns map the four unit axis vectors onto themselves and nothing else onto them. */
  lemma {:induction false} TurnsKeepUnitAxis(h: Heading)
    ensures IsUnitAxis(h) <==> IsUnitAxis(TurnLeft(h))
    ensures IsUnitAxis(h) <==> IsUnitAxis(TurnRight(h))
  {
    RotationGroup(h);
    if IsUnitAxis(h) {
      TurnsStepTheCycle(AxisIndex(h));
    }
    if IsUnitAxis(TurnLeft(h)) {
      TurnsStepTheCycle(AxisIndex(TurnLeft(h)));
    }
    if IsUnitAxis(TurnRight(h)) {
      TurnsStepTheCycle(AxisIndex(TurnRight(h)));
    }
  }
}
