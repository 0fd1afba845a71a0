/** The shared world (`SharedWorld`): grid size, per-robot throttle interval and
    target cell, and the tick algorithm that turns sampled wheel speeds into
    grid motion. Wall-clock time is an integer `now` supplied by the caller. */
module SharedWorld {
  import opened Grid
  import opened Robots

  /** Grid side, minimum time between two advances of the same robot, target cell. */
  datatype World = World(size: int, stepInterval: int, kid: Cell)

  /** What a sampled speed pair asks the robot to do. */
  datatype Action = Forward | Backward | RotateLeft | RotateRight | Hold

  /** Classification of a sampled (left, right) speed pair: both positive drives
      forward, both negative drives backward, otherwise the faster wheel side
      decides the turn, and a pair of zeros does nothing. */
  function Classify(ls: int, rs: int): (a: Action)
    ensures a == Forward <==> ls > 0 && rs > 0
    ensures a == Backward <==> ls < 0 && rs < 0
    ensures a == RotateLeft <==> rs <= 0 <= ls && rs < ls
    ensures a == RotateRight <==> ls <= 0 <= rs && ls < rs
    ensures a == Hold <==> ls == 0 && rs == 0
  {
    if (ls > 0 && rs > 0) || (ls < 0 && rs < 0) then
      (if ls > 0 then Forward else Backward)
    else if ls > rs then RotateLeft
    else if rs > ls then RotateRight
    else Hold
  }

  /** The robot's throttle interval has elapsed at time `now`. */
  predicate IsDue(w: World, now: int, r: RobotContext) {
    now - r.lastMoveTime >= w.stepInterval
  }

  /** One robot's share of `tick_all`. A robot that is not yet due is skipped
      untouched. A due robot records `now` as its last advance and then drives,
      turns or holds according to its sampled speeds; only a committed drive
      counts as moved. */
  function TickOne(w: World, now: int, r: RobotContext): (a: Advance)
    ensures !IsDue(w, now, r) ==> a == Advance(false, r)
    ensures IsDue(w, now, r) ==> a.robot.lastMoveTime == now
    ensures a.robot.id == r.id
    ensures a.robot.leftSpeed == r.leftSpeed && a.robot.rightSpeed == r.rightSpeed
    ensures IsDue(w, now, r) ==>
      match Classify(r.leftSpeed, r.rightSpeed)
      case Forward =>
        && a.robot.heading == r.heading
        && (a.moved <==> InGrid(w.size, Ahead(r.pos, r.heading, 1)))
        && (a.moved ==>
              var t := Ahead(r.pos, r.heading, 1);
              a.robot == r.(lastMoveTime := now, pos := t, path := r.path + [t], visited := r.visited + {t},
                            revisits := r.revisits + (if t in r.visited then 1 else 0)))
        && (!a.moved ==> a.robot == r.(lastMoveTime := now))
      case Backward =>
        && a.robot.heading == r.heading
        && (a.moved <==> InGrid(w.size, Ahead(r.pos, r.heading, -1)))
        && (a.moved ==>
              var t := Ahead(r.pos, r.heading, -1);
              a.robot == r.(lastMoveTime := now, pos := t, path := r.path + [t], visited := r.visited + {t},
                            revisits := r.revisits + (if t in r.visited then 1 else 0)))
        && (!a.moved ==> a.robot == r.(lastMoveTime := now))
      case RotateLeft =>
        !a.moved && a.robot == r.(lastMoveTime := now, heading := TurnLeft(r.heading))
      case RotateRight =>
        !a.moved && a.robot == r.(lastMoveTime := now, heading := TurnRight(r.heading))
      case Hold =>
        !a.moved && a.robot == r.(lastMoveTime := now)
  {
    if !IsDue(w, now, r) then Advance(false, r)
    else
      var r1 := r.(lastMoveTime := now);
      match Classify(r.leftSpeed, r.rightSpeed)
      case Forward => MoveOne(w.size, r1, 1)
      case Backward => MoveOne(w.size, r1, -1)
      case RotateLeft => Advance(false, r1.(heading := TurnLeft(r1.heading)))
      case RotateRight => Advance(false, r1.(heading := TurnRight(r1.heading)))
      case Hold => Advance(false, r1)
  }

  /** A tick keeps the robot invariant, and the robot's path grows by one cell
      exactly when it moved. */
  lemma TickOneKeepsInvariant(w: World, now: int, r: RobotContext)
    requires WellFormed(w.size, r)
    ensures var a := TickOne(w, now, r);
      && WellFormed(w.size, a.robot)
      && a.robot.path[0] == r.path[0]
      && PathLen(a.robot) == PathLen(r) + (if a.moved then 1 else 0)
  {
    if IsDue(w, now, r) {
      var r1 := r.(lastMoveTime := now);
      assert WellFormed(w.size, r1);
      match Classify(r.leftSpeed, r.rightSpeed)
      case Forward => MoveOneKeepsInvariant(w.size, r1, 1);
      case Backward => MoveOneKeepsInvariant(w.size, r1, -1);
      case RotateLeft => TurnsKeepUnitAxis(r.heading);
      case RotateRight => TurnsKeepUnitAxis(r.heading);
      case Hold =>
    }
  }

  /** A tick keeps the bookkeeping invariant of a Consistent robot: a committed
      move appends the new cell to the path and counts it as a revisit exactly
      when it was already visited. */
  lemma TickOneKeepsConsistent(w: World, now: int, r: RobotContext)
    requires Consistent(r)
    ensures Consistent(TickOne(w, now, r).robot)
  {
    var a := TickOne(w, now, r);
    if a.moved {
      var p, c := r.path, a.robot.pos;
      var p' := a.robot.path;
      assert p' == p + [c];
      assert p'[..|p'| - 1] == p;
      assert Cells(p') == Cells(p) + {c};
      assert c in p <==> c in r.visited;
    }
  }

  /** Only the path matters for the accounting: a robot that has a start cell
      keeps one, and its path grows by one cell exactly when it moved. */
  lemma TickOnePathGrowth(w: World, now: int, r: RobotContext)
    requires |r.path| > 0
    ensures var a := TickOne(w, now, r);
      && |a.robot.path| > 0
      && a.robot.path[0] == r.path[0]
      && PathLen(a.robot) == PathLen(r) + (if a.moved then 1 else 0)
  {
  }

  /** The result of one `tick_all` pass: how many robots moved, and the new states. */
  datatype TickPass = TickPass(moved: nat, robots: seq<RobotContext>)

  /** `tick_all`: one pass over the robots in registry order, each advanced on
      its own; returns the number of committed moves. */
  function TickAll(w: World, now: int, rs: seq<RobotContext>): (t: TickPass)
    ensures |t.robots| == |rs|
    ensures t.moved <= |rs|
    ensures forall i :: 0 <= i < |rs| ==> t.robots[i] == TickOne(w, now, rs[i]).robot
    ensures t.moved > 0 <==> exists i :: 0 <= i < |rs| && TickOne(w, now, rs[i]).moved
    decreases |rs|
  {
    if |rs| == 0 then TickPass(0, [])
    else
      var head := TickOne(w, now, rs[0]);
      var tail := TickAll(w, now, rs[1..]);
      TickPass(tail.moved + (if head.moved then 1 else 0), [head.robot] + tail.robots)
  }

  /** Every robot has a start cell on its path. */
  predicate AllStarted(rs: seq<RobotContext>) {
    forall i :: 0 <= i < |rs| ==> |rs[i].path| > 0
  }

  /** Positions of the robots that move in a tick pass. */
  function Movers(w: World, now: int, rs: seq<RobotContext>): set<nat> {
    set i: nat | i < |rs| && TickOne(w, now, rs[i]).moved
  }

  /** Positions holding `true`. */
  function Trues(bs: seq<bool>): set<nat> {
    set i: nat | i < |bs| && bs[i]
  }

  /** Counting the `true` positions one element at a time. */
  lemma TruesCons(bs: seq<bool>)
    requires |bs| > 0
    ensures |Trues(bs)| == (if bs[0] then 1 else 0) + |Trues(bs[1..])|
  {
    var tail := Trues(bs[1..]);
    var shifted := set i: nat | i in tail :: i + 1;
    var head: set<nat> := if bs[0] then {0} else {};
    assert Trues(bs) == head + shifted by {
      forall i: nat | i in Trues(bs) && i > 0
        ensures i in shifted
      {
        assert bs[1..][i - 1] == bs[i];
        assert (i - 1) as nat in tail;
      }
    }
    ShiftKeepsSize(tail);
  }

  /** Shifting a set of indices by one keeps its size. */
  lemma {:induction false} ShiftKeepsSize(s: set<nat>)
    ensures |set i: nat | i in s :: i + 1| == |s|
    decreases |s|
  {
    if s != {} {
      var x :| x in s;
      var rest := s - {x};
      ShiftKeepsSize(rest);
      var a := set i: nat | i in s :: i + 1;
      var b := set i: nat | i in rest :: i + 1;
      assert a == b + {x + 1} by {
        forall j | j in a
          ensures j in b + {x + 1}
        {
          var i: nat :| i in s && j == i + 1;
          if i != x {
            assert i in rest;
          }
        }
      }
      assert x + 1 !in b;
    }
  }

  /** The count `tick_all` returns is the number of robots that moved. */
  lemma {:induction false} TickAllCountsMovers(w: World, now: int, rs: seq<RobotContext>)
    ensures TickAll(w, now, rs).moved == |Movers(w, now, rs)|
    decreases |rs|
  {
    var flags := seq(|rs|, i requires 0 <= i < |rs| => TickOne(w, now, rs[i]).moved);
    assert Movers(w, now, rs) == Trues(flags);
    if |rs| > 0 {
      TickAllCountsMovers(w, now, rs[1..]);
      TruesCons(flags);
      assert Trues(flags[1..]) == Movers(w, now, rs[1..]) by {
        forall i: nat | i < |rs| - 1
          ensures flags[1..][i] == TickOne(w, now, rs[1..][i]).moved
        {
        }
      }
    }
  }

  /** Every robot satisfies the bookkeeping invariant. */
  predicate AllConsistent(rs: seq<RobotContext>) {
    forall i :: 0 <= i < |rs| ==> Consistent(rs[i])
  }

  /** Every robot satisfies the full invariant on a grid of side `size`. */
  predicate AllWellFormed(size: int, rs: seq<RobotContext>) {
    forall i :: 0 <= i < |rs| ==> WellFormed(size, rs[i])
  }

  /** Sum of the path lengths: the total number of cells moved by all robots. */
  function TotalPathLen(rs: seq<RobotContext>): nat
    decreases |rs|
  {
    if |rs| == 0 then 0 else PathLen(rs[0]) + TotalPathLen(rs[1..])
  }

  /** A tick pass keeps every robot's invariant, and never relocates a robot
      off the grid. */
  lemma TickAllKeepsInvariant(w: World, now: int, rs: seq<RobotContext>)
    requires AllWellFormed(w.size, rs)
    ensures AllWellFormed(w.size, TickAll(w, now, rs).robots)
    ensures forall i :: 0 <= i < |rs| ==> InGrid(w.size, TickAll(w, now, rs).robots[i].pos)
  {
    var t := TickAll(w, now, rs);
    forall i | 0 <= i < |rs|
      ensures WellFormed(w.size, t.robots[i])
    {
      TickOneKeepsInvariant(w, now, rs[i]);
    }
    forall i | 0 <= i < |rs|
      ensures InGrid(w.size, t.robots[i].pos)
    {
      var r := t.robots[i];
      assert r.path[|r.path| - 1] == r.pos;
    }
  }

  /** A tick pass keeps every robot's bookkeeping invariant. */
  lemma TickAllKeepsConsistent(w: World, now: int, rs: seq<RobotContext>)
    requires AllConsistent(rs)
    ensures AllConsistent(TickAll(w, now, rs).robots)
  {
    var t := TickAll(w, now, rs);
    forall i | 0 <= i < |rs|
      ensures Consistent(t.robots[i])
    {
      TickOneKeepsConsistent(w, now, rs[i]);
    }
  }

  /** A tick pass keeps every robot's start cell at the head of its path. */
  lemma TickAllKeepsStart(w: World, now: int, rs: seq<RobotContext>)
    requires AllStarted(rs)
    ensures AllStarted(TickAll(w, now, rs).robots)
    ensures forall i :: 0 <= i < |rs| ==> TickAll(w, now, rs).robots[i].path[0] == rs[i].path[0]
  {
    var t := TickAll(w, now, rs);
    forall i | 0 <= i < |rs|
      ensures |t.robots[i].path| > 0 && t.robots[i].path[0] == rs[i].path[0]
    {
      TickOnePathGrowth(w, now, rs[i]);
    }
  }

  /** Step accounting: the count `tick_all` returns is exactly the number of
      cells added to the robots' paths in that pass, so turns, skipped robots
      and rejected moves contribute nothing. */
  lemma {:induction false} TickAllAccounting(w: World, now: int, rs: seq<RobotContext>)
    requires AllStarted(rs)
    ensures AllStarted(TickAll(w, now, rs).robots)
    ensures TotalPathLen(TickAll(w, now, rs).robots) == TotalPathLen(rs) + TickAll(w, now, rs).moved
    decreases |rs|
  {
    if |rs| > 0 {
      var t := TickAll(w, now, rs);
      TickOnePathGrowth(w, now, rs[0]);
      TickAllAccounting(w, now, rs[1..]);
      assert t.robots[1..] == TickAll(w, now, rs[1..]).robots;
      forall i | 0 <= i < |rs|
        ensures |t.robots[i].path| > 0
      {
        TickOnePathGrowth(w, now, rs[i]);
      }
    }
  }
}
