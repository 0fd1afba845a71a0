/** The per-robot state of the shim (`RobotContext`) and the single-cell move
    rule (`SharedWorld._move_one`). */
module Robots {
  import opened Grid

  type RobotId = string

  /** One simulated robot: position, heading, last commanded wheel speeds, the
      time of its last tick-driven advance, and its visiting history. */
  datatype RobotContext = RobotContext(
    id: RobotId,
    pos: Cell,
    heading: Heading,
    leftSpeed: int,
    rightSpeed: int,
    lastMoveTime: int,
    visited: set<Cell>,
    path: seq<Cell>,
    revisits: nat)

  /** The outcome of advancing one robot: whether it changed cell, and its new state. */
  datatype Advance = Advance(moved: bool, robot: RobotContext)

  /** The set of cells occurring in a path. */
  function Cells(p: seq<Cell>): set<Cell> {
    set c | c in p
  }

  /** Reference count of revisits: the number of positions k > 0 of the path whose
      cell already occurs earlier in the path. Together with the distinct cells
      it makes up the whole path. */
  function Revisits(p: seq<Cell>): (n: nat)
    ensures n + |Cells(p)| == |p|
    decreases |p|
  {
    if |p| == 0 then 0
    else
      var init, last := p[..|p| - 1], p[|p| - 1];
      assert p == init + [last];
      assert Cells(p) == Cells(init) + {last};
      if last in init then
        assert Cells(p) == Cells(init);
        Revisits(init) + 1
      else
        assert last !in Cells(init);
        assert |Cells(p)| == |Cells(init)| + 1;
        Revisits(init)
  }

  /** The bookkeeping invariant of a robot: the path is non-empty and ends at the
      current position, `visited` is exactly the set of cells of the path, and
      `revisits` is the reference count of the path. */
  predicate Consistent(r: RobotContext) {
    && |r.path| >= 1
    && r.pos == r.path[|r.path| - 1]
    && r.visited == Cells(r.path)
    && r.revisits == Revisits(r.path)
  }

  /** Every cell the robot has occupied is on the grid. */
  predicate PathInGrid(size: int, r: RobotContext) {
    forall i :: 0 <= i < |r.path| ==> InGrid(size, r.path[i])
  }

  /** Full robot invariant on a grid of side `size`. */
  predicate WellFormed(size: int, r: RobotContext) {
    Consistent(r) && PathInGrid(size, r) && IsUnitAxis(r.heading)
  }

  /** `max(0, len(path) - 1)`: the number of cells moved so far. */
  function PathLen(r: RobotContext): nat {
    if |r.path| >= 1 then |r.path| - 1 else 0
  }

  /** A freshly constructed robot (`RobotContext.__init__`): at rest at its start
      cell, which is its whole history. */
  function NewRobot(id: RobotId, start: Cell, heading: Heading, now: int): (r: RobotContext)
    ensures Consistent(r)
    ensures r.id == id && r.pos == start && r.heading == heading && r.lastMoveTime == now
    ensures r.leftSpeed == 0 && r.rightSpeed == 0
    ensures r.path == [start] && r.revisits == 0 && PathLen(r) == 0
    ensures forall size :: InGrid(size, start) && IsUnitAxis(heading) ==> WellFormed(size, r)
  {
    assert Cells([start]) == {start};
    RobotContext(id, start, heading, 0, 0, now, {start}, [start], 0)
  }

  /** `set_speeds`: both speeds are overwritten and nothing else changes. */
  function SetSpeeds(r: RobotContext, left: int, right: int): (r': RobotContext)
    ensures r'.leftSpeed == left && r'.rightSpeed == right
    ensures r'.(leftSpeed := r.leftSpeed, rightSpeed := r.rightSpeed) == r
  {
    r.(leftSpeed := left, rightSpeed := right)
  }

  /** Commands issued between two samples are lost: only the last one counts. */
  lemma SetSpeedsLastWriteWins(r: RobotContext, l1: int, r1: int, l2: int, r2: int)
    ensures SetSpeeds(SetSpeeds(r, l1, r1), l2, r2) == SetSpeeds(r, l2, r2)
  {
  }

  /** `_move_one`: try to move `forward` cells along the heading (+1 forward,
      -1 backward). The move commits only when the target cell is on the grid;
      otherwise the robot is left exactly as it was. */
  function MoveOne(size: int, r: RobotContext, forward: int): (a: Advance)
    ensures var target := Ahead(r.pos, r.heading, forward);
      && (a.moved <==> InGrid(size, target))
      && (!a.moved ==> a.robot == r)
      && (a.moved ==>
            && a.robot.pos == target
            && a.robot.path == r.path + [target]
            && a.robot.visited == r.visited + {target}
            && (target in r.visited ==> a.robot.revisits == r.revisits + 1)
            && (target !in r.visited ==> a.robot.revisits == r.revisits))
    ensures a.robot.id == r.id && a.robot.heading == r.heading
    ensures a.robot.leftSpeed == r.leftSpeed && a.robot.rightSpeed == r.rightSpeed
    ensures a.robot.lastMoveTime == r.lastMoveTime
  {
    var target := Ahead(r.pos, r.heading, forward);
    if 0 <= target.x < size && 0 <= target.y < size then
      var revisits := if target in r.visited then r.revisits + 1 else r.revisits;
      Advance(true, r.(revisits := revisits, visited := r.visited + {target},
                       pos := target, path := r.path + [target]))
    else
      Advance(false, r)
  }

  /** A move keeps the robot invariant: the start cell stays first in the path,
      the path grows by exactly the cells moved, and the robot never leaves
      the grid. */
  lemma {:induction false} MoveOneKeepsInvariant(size: int, r: RobotContext, forward: int)
    requires WellFormed(size, r)
    ensures var a := MoveOne(size, r, forward);
      && WellFormed(size, a.robot)
      && a.robot.path[0] == r.path[0]
      && PathLen(a.robot) == PathLen(r) + (if a.moved then 1 else 0)
      && InGrid(size, a.robot.pos)
  {
    var a := MoveOne(size, r, forward);
    if a.moved {
      var p, c := r.path, a.robot.pos;
      var p' := a.robot.path;
      assert p'[..|p'| - 1] == p;
      assert Cells(p') == Cells(p) + {c};
      assert c in p <==> c in r.visited;
      assert forall i :: 0 <= i < |p'| ==> p'[i] == (if i < |p| then p[i] else c);
    }
  }
}
