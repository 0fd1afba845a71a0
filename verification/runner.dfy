/** The worker's simulation loop (`run_worker`): tick the world, add the moves
    to the step counter, stop when a robot stands on the target or the step
    budget is used up, and assemble the result record.

    The control programs run outside this core; their effect between two passes
    is a list of `set_speeds` calls, and the clock reading of each pass is
    given. The Python loop has no bound of its own (with a positive budget it
    spins for ever when no robot ever moves and none stands on the target), so
    the model runs over a finite trace of passes and reports whether the real
    loop would have stopped within it. */
module Runner {
  import opened Results
  import opened Robots
  import opened SharedWorld
  import opened Shim

  /** A `set_speeds` call made by a control thread. */
  datatype Command = Command(thread: ThreadId, left: int, right: int)

  /** What happens before one loop iteration's tick: the clock reading used by
      the tick and the speed commands issued since the previous pass. */
  datatype Pass = Pass(now: int, commands: seq<Command>)

  /** The state when the loop ends (or the trace runs out). `stopped` is false
      only when the trace ended while the real loop would have kept going. */
  datatype LoopEnd = LoopEnd(steps: nat, foundBy: Option<RobotId>, robots: Registry, stopped: bool)

  /** The step budget `grid * grid * 5`. */
  function MaxSteps(grid: int): int {
    grid * grid * 5
  }

  /** A command from `c.thread` resolves to robot `i` of the registry. */
  predicate Targets(b: Binding, reg: Registry, c: Command, i: nat) {
    ResolveCurrent(b, reg, c.thread) == Ok(i)
  }

  /** One control thread's `set_speeds` call. A call from a thread that does not
      resolve raises inside that thread's program and changes nothing. */
  function ApplyCommand(b: Binding, reg: Registry, c: Command): (reg': Registry)
    ensures |reg'| == |reg|
    ensures forall i: nat :: i < |reg| && Targets(b, reg, c, i) ==> reg'[i] == SetSpeeds(reg[i], c.left, c.right)
    ensures forall i: nat :: i < |reg| && !Targets(b, reg, c, i) ==> reg'[i] == reg[i]
  {
    match MotorsSetSpeeds(b, reg, c.thread, c.left, c.right)
    case Ok(r) => r
    case Err(_) => reg
  }

  /** The control threads' speed commands, applied in order. Only speeds change. */
  function ApplyCommands(b: Binding, reg: Registry, cmds: seq<Command>): (reg': Registry)
    ensures |reg'| == |reg|
    ensures forall i :: 0 <= i < |reg| ==>
      reg'[i] == reg[i].(leftSpeed := reg'[i].leftSpeed, rightSpeed := reg'[i].rightSpeed)
    decreases |cmds|
  {
    if |cmds| == 0 then reg
    else ApplyCommands(b, ApplyCommand(b, reg, cmds[0]), cmds[1..])
  }

  /** Lookups see only the ids, so changing speeds never changes where an id is found. */
  lemma {:induction false} IndexOfSeesOnlyIds(a: Registry, c: Registry, id: RobotId)
    requires |a| == |c|
    requires forall i :: 0 <= i < |a| ==> a[i].id == c[i].id
    ensures IndexOf(a, id) == IndexOf(c, id)
    decreases |a|
  {
    if |a| > 0 {
      IndexOfSeesOnlyIds(a[1..], c[1..], id);
    }
  }

  /** A command does not change which robot any later command reaches. */
  lemma ApplyCommandKeepsTargets(b: Binding, reg: Registry, c: Command, x: Command, i: nat)
    ensures Targets(b, ApplyCommand(b, reg, c), x, i) == Targets(b, reg, x, i)
  {
    if x.thread in b {
      IndexOfSeesOnlyIds(ApplyCommand(b, reg, c), reg, b[x.thread]);
    }
  }

  /** Command `k` is the last of `cmds` that reaches robot `i`. */
  predicate LastTargets(b: Binding, reg: Registry, cmds: seq<Command>, k: int, i: nat) {
    && 0 <= k < |cmds|
    && Targets(b, reg, cmds[k], i)
    && forall k' :: k < k' < |cmds| ==> !Targets(b, reg, cmds[k'], i)
  }

  /** A robot that no command reaches keeps its whole state. Commands from
      unbound threads, or threads bound to an unknown id, reach no robot. */
  lemma {:induction false} ApplyCommandsUntouched(b: Binding, reg: Registry, cmds: seq<Command>, i: nat)
    requires i < |reg|
    requires forall k :: 0 <= k < |cmds| ==> !Targets(b, reg, cmds[k], i)
    ensures ApplyCommands(b, reg, cmds)[i] == reg[i]
    decreases |cmds|
  {
    if |cmds| > 0 {
      var next, rest := ApplyCommand(b, reg, cmds[0]), cmds[1..];
      assert !Targets(b, reg, cmds[0], i);
      forall k | 0 <= k < |rest|
        ensures !Targets(b, next, rest[k], i)
      {
        assert rest[k] == cmds[k + 1];
        ApplyCommandKeepsTargets(b, reg, cmds[0], rest[k], i);
      }
      ApplyCommandsUntouched(b, next, rest, i);
    }
  }

  /** Last write wins: a robot that some command reaches ends with the speeds of
      the last such command, and nothing else about it changes. */
  lemma {:induction false} ApplyCommandsLastWriteWins(b: Binding, reg: Registry, cmds: seq<Command>, k: int, i: nat)
    requires i < |reg|
    requires LastTargets(b, reg, cmds, k, i)
    ensures ApplyCommands(b, reg, cmds)[i] == SetSpeeds(reg[i], cmds[k].left, cmds[k].right)
    decreases |cmds|
  {
    var next, rest := ApplyCommand(b, reg, cmds[0]), cmds[1..];
    if k == 0 {
      forall k' | 0 <= k' < |rest|
        ensures !Targets(b, next, rest[k'], i)
      {
        assert rest[k'] == cmds[k' + 1];
        ApplyCommandKeepsTargets(b, reg, cmds[0], rest[k'], i);
      }
      ApplyCommandsUntouched(b, next, rest, i);
    } else {
      assert rest[k - 1] == cmds[k];
      ApplyCommandKeepsTargets(b, reg, cmds[0], cmds[k], i);
      forall k' | k - 1 < k' < |rest|
        ensures !Targets(b, next, rest[k'], i)
      {
        assert rest[k'] == cmds[k' + 1];
        ApplyCommandKeepsTargets(b, reg, cmds[0], rest[k'], i);
      }
      ApplyCommandsLastWriteWins(b, next, rest, k - 1, i);
    }
  }

  /** Robots that differ at most in their speeds have moved the same total distance. */
  lemma {:induction false} TotalPathLenIgnoresSpeeds(a: Registry, b: Registry)
    requires |a| == |b|
    requires forall i :: 0 <= i < |a| ==> a[i].path == b[i].path
    ensures TotalPathLen(a) == TotalPathLen(b)
    decreases |a|
  {
    if |a| > 0 {
      TotalPathLenIgnoresSpeeds(a[1..], b[1..]);
    }
  }

  /** What a tick pass keeps for robots that start with intact bookkeeping, the
      full invariant, or just a start cell. */
  lemma TickAllFacts(w: World, now: int, rs: seq<RobotContext>)
    ensures var t := TickAll(w, now, rs);
      AllConsistent(rs) ==> AllConsistent(t.robots) && TotalPathLen(t.robots) == TotalPathLen(rs) + t.moved
    ensures AllWellFormed(w.size, rs) ==> AllWellFormed(w.size, TickAll(w, now, rs).robots)
    ensures AllStarted(rs) ==>
      && AllStarted(TickAll(w, now, rs).robots)
      && forall i :: 0 <= i < |rs| ==> TickAll(w, now, rs).robots[i].path[0] == rs[i].path[0]
  {
    if AllConsistent(rs) {
      TickAllKeepsConsistent(w, now, rs);
      TickAllAccounting(w, now, rs);
    }
    if AllWellFormed(w.size, rs) {
      TickAllKeepsInvariant(w, now, rs);
    }
    if AllStarted(rs) {
      TickAllKeepsStart(w, now, rs);
    }
  }

  /** Speed commands keep ids, paths and every robot invariant. */
  lemma ApplyCommandsKeeps(w: World, b: Binding, reg: Registry, cmds: seq<Command>)
    ensures var c := ApplyCommands(b, reg, cmds);
      && TotalPathLen(c) == TotalPathLen(reg)
      && (AllConsistent(reg) ==> AllConsistent(c))
      && (AllWellFormed(w.size, reg) ==> AllWellFormed(w.size, c))
      && (AllStarted(reg) ==> AllStarted(c))
      && forall i :: 0 <= i < |reg| ==> c[i].id == reg[i].id && c[i].path == reg[i].path
  {
    var c := ApplyCommands(b, reg, cmds);
    TotalPathLenIgnoresSpeeds(reg, c);
    assert AllConsistent(reg) ==> AllConsistent(c);
  }

  /** One loop iteration's world change: the control threads' commands, then
      `tick_all`. Ids, start cells and robot invariants survive it, and the
      returned count is the number of cells the robots moved. */
  function RunPass(w: World, b: Binding, reg: Registry, p: Pass): (t: TickPass)
    ensures |t.robots| == |reg|
    ensures forall i :: 0 <= i < |reg| ==> t.robots[i].id == reg[i].id
    ensures AllConsistent(reg) ==>
      AllConsistent(t.robots) && TotalPathLen(t.robots) == TotalPathLen(reg) + t.moved
    ensures AllWellFormed(w.size, reg) ==> AllWellFormed(w.size, t.robots)
    ensures AllStarted(reg) ==>
      && AllStarted(t.robots)
      && forall i :: 0 <= i < |reg| ==> t.robots[i].path[0] == reg[i].path[0]
  {
    var commanded := ApplyCommands(b, reg, p.commands);
    ApplyCommandsKeeps(w, b, reg, p.commands);
    TickAllFacts(w, p.now, commanded);
    TickAll(w, p.now, commanded)
  }

  /** What the loop keeps about the robots after some passes that moved them
      `steps` cells in all: same ids in the same order, start cells kept,
      invariants intact, and the step counter equal to the distance travelled. */
  predicate Tracks(w: World, reg0: Registry, reg: Registry, steps: nat) {
    && |reg| == |reg0|
    && (forall k :: 0 <= k < |reg0| ==> reg[k].id == reg0[k].id)
    && (AllStarted(reg0) ==>
          AllStarted(reg) && forall k :: 0 <= k < |reg0| ==> reg[k].path[0] == reg0[k].path[0])
    && (AllConsistent(reg0) ==> AllConsistent(reg) && steps == TotalPathLen(reg) - TotalPathLen(reg0))
    && (AllWellFormed(w.size, reg0) ==> AllWellFormed(w.size, reg))
  }

  /** A pass extends what the loop keeps by the count it returns. */
  lemma TracksStep(w: World, b: Binding, reg0: Registry, reg: Registry, steps: nat, p: Pass)
    requires Tracks(w, reg0, reg, steps)
    ensures Tracks(w, reg0, RunPass(w, b, reg, p).robots, steps + RunPass(w, b, reg, p).moved)
  {
  }

  /** A sequence of counter readings that never goes down. */
  predicate NonDecreasing(h: seq<nat>) {
    forall i, j :: 0 <= i < j < |h| ==> h[i] <= h[j]
  }

  /** `history` is a non-decreasing record of a counter that started at zero
      and now reads `steps`. */
  predicate Records(history: seq<nat>, steps: nat) {
    && NonDecreasing(history)
    && (|history| > 0 ==> history[|history| - 1] == steps)
    && (|history| == 0 ==> steps == 0)
  }

  /** Recording a reading no smaller than the last keeps the record non-decreasing. */
  lemma RecordsGrow(history: seq<nat>, steps: nat, next: nat)
    requires Records(history, steps)
    requires steps <= next
    ensures Records(history + [next], next)
  {
    var h := history + [next];
    forall i, j | 0 <= i < j < |h|
      ensures h[i] <= h[j]
    {
      if j == |history| && i < |history| {
        assert history[i] <= history[|history| - 1];
      }
    }
  }

  /** The step counter and the robots after some passes, and the counter
      after each of them in order. */
  datatype Progress = Progress(steps: nat, robots: Registry, counters: seq<nat>)

  /** The progress after one more pass: its count is added to the counter,
      which is then recorded. */
  function Extend(prev: Progress, pass: TickPass): Progress {
    var next := prev.steps + pass.moved;
    Progress(next, pass.robots, prev.counters + [next])
  }

  /** Extending known progress records the new counter after the old ones. */
  lemma ExtendBy(prev: Progress, pass: TickPass, steps: nat, reg: Registry, history: seq<nat>, next: nat)
    requires prev == Progress(steps, reg, history) && next == steps + pass.moved
    ensures Extend(prev, pass) == Progress(next, pass.robots, history + [next])
  {
  }

  /** Running the passes `ps` one after the other from `reg0`: each pass adds
      the count `tick_all` returns to the step counter, which is recorded after
      every pass. */
  function Replay(w: World, b: Binding, reg0: Registry, ps: seq<Pass>): Progress
    decreases |ps|
  {
    if |ps| == 0 then Progress(0, reg0, [])
    else
      var prev := Replay(w, b, reg0, ps[..|ps| - 1]);
      Extend(prev, RunPass(w, b, prev.robots, ps[|ps| - 1]))
  }

  /** Replaying passes keeps ids, start cells and invariants, and counts the
      cells moved. */
  lemma {:induction false} ReplayTracks(w: World, b: Binding, reg0: Registry, ps: seq<Pass>)
    ensures Tracks(w, reg0, Replay(w, b, reg0, ps).robots, Replay(w, b, reg0, ps).steps)
    decreases |ps|
  {
    if |ps| > 0 {
      var prev := Replay(w, b, reg0, ps[..|ps| - 1]);
      ReplayTracks(w, b, reg0, ps[..|ps| - 1]);
      TracksStep(w, b, reg0, prev.robots, prev.steps, ps[|ps| - 1]);
    }
  }

  /** Extending progress appends one entry to its record, and a record that
      never went down still never goes down. */
  lemma ExtendRecords(prev: Progress, pass: TickPass)
    requires Records(prev.counters, prev.steps)
    ensures |Extend(prev, pass).counters| == |prev.counters| + 1
    ensures Records(Extend(prev, pass).counters, Extend(prev, pass).steps)
  {
    RecordsGrow(prev.counters, prev.steps, prev.steps + pass.moved);
  }

  /** Extending progress keeps the earlier entries of its record. */
  lemma ExtendKeeps(prev: Progress, pass: TickPass, k: nat)
    requires k < |prev.counters|
    ensures k < |Extend(prev, pass).counters| && Extend(prev, pass).counters[k] == prev.counters[k]
  {
  }

  /** A replay records the counter once after each pass, and the record never
      goes down and ends at the final counter. */
  lemma {:induction false} ReplayCounters(w: World, b: Binding, reg0: Registry, ps: seq<Pass>)
    ensures |Replay(w, b, reg0, ps).counters| == |ps|
    ensures Records(Replay(w, b, reg0, ps).counters, Replay(w, b, reg0, ps).steps)
    decreases |ps|
  {
    if |ps| > 0 {
      var prev := Replay(w, b, reg0, ps[..|ps| - 1]);
      ReplayCounters(w, b, reg0, ps[..|ps| - 1]);
      ExtendRecords(prev, RunPass(w, b, prev.robots, ps[|ps| - 1]));
    }
  }

  /** The last entry of a replay's record is its final counter. */
  lemma ReplayCountersEnd(w: World, b: Binding, reg0: Registry, ps: seq<Pass>)
    ensures |Replay(w, b, reg0, ps).counters| == |ps|
    ensures |ps| > 0 ==> Replay(w, b, reg0, ps).counters[|ps| - 1] == Replay(w, b, reg0, ps).steps
  {
    ReplayCounters(w, b, reg0, ps);
  }

  /** An entry of the record before the last pass survives that pass. */
  lemma ReplayCountersEarlier(w: World, b: Binding, reg0: Registry, ps: seq<Pass>, k: nat)
    requires k < |ps| - 1
    requires k < |Replay(w, b, reg0, ps[..|ps| - 1]).counters|
    requires Replay(w, b, reg0, ps[..|ps| - 1]).counters[k] == Replay(w, b, reg0, ps[..|ps| - 1][..k + 1]).steps
    ensures k < |Replay(w, b, reg0, ps).counters|
    ensures Replay(w, b, reg0, ps).counters[k] == Replay(w, b, reg0, ps[..k + 1]).steps
  {
    var shorter := ps[..|ps| - 1];
    var prev := Replay(w, b, reg0, shorter);
    ExtendKeeps(prev, RunPass(w, b, prev.robots, ps[|ps| - 1]), k);
    PrefixOfPrefix(ps, |ps| - 1, k + 1);
  }

  /** A prefix of a prefix is a prefix. */
  lemma PrefixOfPrefix<T>(s: seq<T>, n: nat, m: nat)
    requires m <= n <= |s|
    ensures s[..n][..m] == s[..m]
  {
  }

  /** Entry `k` of a replay's record is the counter once passes `0..k` have run. */
  lemma {:induction false} ReplayCountersAt(w: World, b: Binding, reg0: Registry, ps: seq<Pass>, k: nat)
    requires k < |ps|
    ensures k < |Replay(w, b, reg0, ps).counters|
    ensures Replay(w, b, reg0, ps).counters[k] == Replay(w, b, reg0, ps[..k + 1]).steps
    decreases |ps|
  {
    if k < |ps| - 1 {
      ReplayCountersAt(w, b, reg0, ps[..|ps| - 1], k);
      ReplayCountersEarlier(w, b, reg0, ps, k);
    } else {
      ReplayCountersEnd(w, b, reg0, ps);
      assert ps[..k + 1] == ps;
    }
  }

  /** Replaying one more pass of a trace. */
  lemma ReplayStep(w: World, b: Binding, reg0: Registry, passes: seq<Pass>, i: nat)
    requires i < |passes|
    ensures var prev := Replay(w, b, reg0, passes[..i]);
      var pass := RunPass(w, b, prev.robots, passes[i]);
      Replay(w, b, reg0, passes[..i + 1]) == Extend(prev, pass)
  {
    var longer := passes[..i + 1];
    assert longer[..|longer| - 1] == passes[..i];
    assert longer[|longer| - 1] == passes[i];
  }

  /** A replay's counter never goes down as more passes run. */
  lemma {:induction false} ReplayGrows(w: World, b: Binding, reg0: Registry, ps: seq<Pass>, j: nat)
    requires j <= |ps|
    ensures Replay(w, b, reg0, ps[..j]).steps <= Replay(w, b, reg0, ps).steps
    decreases |ps|
  {
    if j < |ps| {
      var shorter := ps[..|ps| - 1];
      assert shorter[..j] == ps[..j];
      ReplayGrows(w, b, reg0, shorter, j);
    } else {
      assert ps[..j] == ps;
    }
  }

  /** The loop goes on after the passes `ps`: the budget is not used up, and
      once a pass has run no robot stands on the target. */
  predicate Continues(w: World, b: Binding, reg0: Registry, ps: seq<Pass>) {
    var s := Replay(w, b, reg0, ps);
    && s.steps < MaxSteps(w.size)
    && (|ps| > 0 ==> KidFoundRobot(s.robots, w.kid).None?)
  }

  /** The loop went on before each of the first `n` passes, so it ran all of them. */
  predicate RanThrough(w: World, b: Binding, reg0: Registry, passes: seq<Pass>, n: nat) {
    forall k {:trigger Continues(w, b, reg0, passes[..k])} :: 0 <= k < n && k <= |passes| ==> Continues(w, b, reg0, passes[..k])
  }

  /** Running one more pass after the loop went on extends the record. */
  lemma RanOneMore(w: World, b: Binding, reg0: Registry, passes: seq<Pass>, i: nat)
    requires i < |passes|
    requires RanThrough(w, b, reg0, passes, i)
    requires Continues(w, b, reg0, passes[..i])
    ensures RanThrough(w, b, reg0, passes, i + 1)
  {
  }

  /** What the loop knows after `i` passes: the counter and the robots are
      those of replaying them, the loop went on before each of them, the
      history of the counter never went down, and `found` is the scan after
      the last pass. */
  predicate LoopState(w: World, b: Binding, reg0: Registry, passes: seq<Pass>, i: nat,
                      steps: nat, reg: Registry, history: seq<nat>, found: Option<RobotId>)
  {
    && i <= |passes|
    && |history| == i
    && Progress(steps, reg, history) == Replay(w, b, reg0, passes[..i])
    && RanThrough(w, b, reg0, passes, i)
    && Records(history, steps)
    && found == (if i == 0 then None else KidFoundRobot(reg, w.kid))
  }

  /** One iteration of the loop body, taken when the loop condition holds:
      `pass` is the tick and `next` the counter after it. */
  lemma LoopStep(w: World, b: Binding, reg0: Registry, passes: seq<Pass>, i: nat,
                 steps: nat, reg: Registry, history: seq<nat>, found: Option<RobotId>,
                 pass: TickPass, next: nat)
    requires LoopState(w, b, reg0, passes, i, steps, reg, history, found)
    requires steps < MaxSteps(w.size) && i < |passes| && found.None?
    requires pass == RunPass(w, b, reg, passes[i]) && next == steps + pass.moved
    ensures LoopState(w, b, reg0, passes, i + 1, next, pass.robots, history + [next],
                      KidFoundRobot(pass.robots, w.kid))
  {
    ReplayOneMore(w, b, reg0, passes, i, steps, reg, history, found, pass, next);
    RecordsGrow(history, steps, next);
  }

  /** The replay half of a loop iteration: the loop went on before this pass,
      and the new counter and robots are those of replaying one pass more. */
  lemma ReplayOneMore(w: World, b: Binding, reg0: Registry, passes: seq<Pass>, i: nat,
                      steps: nat, reg: Registry, history: seq<nat>, found: Option<RobotId>,
                      pass: TickPass, next: nat)
    requires i < |passes|
    requires Progress(steps, reg, history) == Replay(w, b, reg0, passes[..i])
    requires RanThrough(w, b, reg0, passes, i)
    requires found == (if i == 0 then None else KidFoundRobot(reg, w.kid))
    requires steps < MaxSteps(w.size) && found.None?
    requires pass == RunPass(w, b, reg, passes[i]) && next == steps + pass.moved
    ensures Progress(next, pass.robots, history + [next]) == Replay(w, b, reg0, passes[..i + 1])
    ensures RanThrough(w, b, reg0, passes, i + 1)
  {
    assert Continues(w, b, reg0, passes[..i]);
    ReplayNext(w, b, reg0, passes, i, steps, reg, history, pass, next);
    RanOneMore(w, b, reg0, passes, i);
  }

  /** The loop's counter, robots and history after one more pass are those of
      replaying it. */
  lemma ReplayNext(w: World, b: Binding, reg0: Registry, passes: seq<Pass>, i: nat,
                   steps: nat, reg: Registry, history: seq<nat>, pass: TickPass, next: nat)
    requires i < |passes|
    requires Progress(steps, reg, history) == Replay(w, b, reg0, passes[..i])
    requires pass == RunPass(w, b, reg, passes[i]) && next == steps + pass.moved
    ensures Progress(next, pass.robots, history + [next]) == Replay(w, b, reg0, passes[..i + 1])
  {
    ReplayStep(w, b, reg0, passes, i);
    ExtendBy(Replay(w, b, reg0, passes[..i]), pass, steps, reg, history, next);
  }

  /** What a run of the loop over `passes` delivers: the end state and the
      counter after each completed pass. */
  predicate LoopOutcome(w: World, b: Binding, reg0: Registry, passes: seq<Pass>, end: LoopEnd, history: seq<nat>) {
    && |history| <= |passes|
    // the loop ran exactly the first |history| passes: it went on before each
    // of them, and the counters and robots are those of replaying them
    && RanThrough(w, b, reg0, passes, |history|)
    && Progress(end.steps, end.robots, history) == Replay(w, b, reg0, passes[..|history|])
    // it stopped exactly when the loop would stop there, and reports the robot it found
    && (end.stopped <==> !Continues(w, b, reg0, passes[..|history|]))
    && (!end.stopped ==> |history| == |passes|)
    && end.foundBy == (if |history| == 0 then None else KidFoundRobot(end.robots, w.kid))
    // same robots, invariants intact, and the counter equals the cells moved
    && Tracks(w, reg0, end.robots, end.steps)
    // the history, the counter after each pass run, never decreases and ends
    // at the final value
    && Records(history, end.steps)
    // the two exits, and the end of the trace
    && (end.foundBy.Some? ==> end.stopped && KidFoundRobot(end.robots, w.kid) == end.foundBy)
    && (end.stopped && end.foundBy.None? ==> end.steps >= MaxSteps(w.size))
    && (!end.stopped ==> end.foundBy.None? && end.steps < MaxSteps(w.size))
  }

  /** Entry `k` of the loop's history is the step counter once passes `0..k`
      have run. */
  lemma LoopHistory(w: World, b: Binding, reg0: Registry, passes: seq<Pass>, end: LoopEnd, history: seq<nat>)
    requires LoopOutcome(w, b, reg0, passes, end, history)
    ensures forall k :: 0 <= k < |history| ==> history[k] == Replay(w, b, reg0, passes[..k + 1]).steps
  {
    forall k | 0 <= k < |history|
      ensures history[k] == Replay(w, b, reg0, passes[..k + 1]).steps
    {
      ReplayHistoryAt(w, b, reg0, passes, history, k);
    }
  }

  /** One entry of a replay's record, read off a prefix of the trace. */
  lemma ReplayHistoryAt(w: World, b: Binding, reg0: Registry, passes: seq<Pass>, history: seq<nat>, k: nat)
    requires |history| <= |passes| && history == Replay(w, b, reg0, passes[..|history|]).counters
    requires k < |history|
    ensures history[k] == Replay(w, b, reg0, passes[..k + 1]).steps
  {
    ReplayCountersAt(w, b, reg0, passes[..|history|], k);
    PrefixOfPrefix(passes, |history|, k + 1);
  }

  /** Leaving the loop: its state, once the loop condition fails, is the outcome. */
  lemma LoopExit(w: World, b: Binding, reg0: Registry, passes: seq<Pass>, i: nat,
                 steps: nat, reg: Registry, history: seq<nat>, found: Option<RobotId>)
    requires LoopState(w, b, reg0, passes, i, steps, reg, history, found)
    requires !(steps < MaxSteps(w.size) && i < |passes| && found.None?)
    ensures LoopOutcome(w, b, reg0, passes,
                        LoopEnd(steps, found, reg, found.Some? || steps >= MaxSteps(w.size)), history)
  {
    ReplayTracks(w, b, reg0, passes[..i]);
  }

  /** The loop of `run_worker` over a trace of passes. `history` holds the step
      counter after each completed pass. */
  method SimulationLoop(w: World, b: Binding, reg0: Registry, passes: seq<Pass>)
    returns (end: LoopEnd, history: seq<nat>)
    ensures LoopOutcome(w, b, reg0, passes, end, history)
  {
    var steps: nat := 0;
    var reg := reg0;
    var i := 0;
    var found: Option<RobotId> := None;
    history := [];
    while steps < MaxSteps(w.size) && i < |passes| && found.None?
      invariant LoopState(w, b, reg0, passes, i, steps, reg, history, found)
      decreases |passes| - i
    {
      var pass := RunPass(w, b, reg, passes[i]);
      var next := steps;
      if pass.moved > 0 {
        next := steps + pass.moved;
      }
      LoopStep(w, b, reg0, passes, i, steps, reg, history, found, pass, next);
      reg, steps := pass.robots, next;
      history := history + [steps];
      i := i + 1;
      found := KidFoundRobot(reg, w.kid);
    }
    LoopExit(w, b, reg0, passes, i, steps, reg, history, found);
    end := LoopEnd(steps, found, reg, found.Some? || steps >= MaxSteps(w.size));
  }

  /** Per-robot entry of the result record. */
  datatype RobotReport = RobotReport(id: RobotId, metrics: Metrics)

  /** The result record: `found`, `found_by`, `steps` and per-robot metrics. */
  datatype Report = Report(found: bool, foundBy: string, steps: nat, robots: seq<RobotReport>)

  /** Result assembly: `found` is Python's truth value of `found_by` (an empty id
      counts as not found) and `found_by` is reported as "" when absent; the
      metrics follow the registration order. */
  function AssembleReport(end: LoopEnd): (r: Report)
    ensures r.found <==> r.foundBy != ""
    ensures end.foundBy.None? ==> !r.found && r.foundBy == ""
    ensures end.foundBy.Some? ==> r.foundBy == end.foundBy.value
    ensures (end.foundBy.Some? ==> end.foundBy.value != "") ==> (r.found <==> end.foundBy.Some?)
    ensures r.steps == end.steps
    ensures |r.robots| == |end.robots|
    ensures forall i :: 0 <= i < |end.robots| ==>
      && r.robots[i].id == end.robots[i].id
      && r.robots[i].metrics == MetricsOf(end.robots[i])
  {
    var foundBy := match end.foundBy case Some(id) => id case None => "";
    Report(foundBy != "", foundBy, end.steps,
           seq(|end.robots|, i requires 0 <= i < |end.robots| =>
             RobotReport(end.robots[i].id, MetricsOf(end.robots[i]))))
  }

  /** With the runner's non-empty robot ids, a run reports `found` exactly when
      the loop found a robot on the target, and then that robot really is there. */
  lemma FoundIffFoundBy(w: World, reg0: Registry, end: LoopEnd)
    requires forall i :: 0 <= i < |reg0| ==> reg0[i].id != ""
    requires |end.robots| == |reg0|
    requires forall i :: 0 <= i < |reg0| ==> end.robots[i].id == reg0[i].id
    requires end.foundBy.Some? ==> KidFoundRobot(end.robots, w.kid) == end.foundBy
    ensures AssembleReport(end).found <==> end.foundBy.Some?
    ensures AssembleReport(end).found ==>
      exists i :: 0 <= i < |end.robots| && end.robots[i].id == AssembleReport(end).foundBy && end.robots[i].pos == w.kid
  {
  }
}
