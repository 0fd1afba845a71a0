# Multi-robot grid simulator core, modelled in Dafny

This project models the discrete motion core of a multi-robot simulator. Several
robots, each driven by its own control program, move on a shared square grid and
search for a fixed target cell (the "kid"). The model covers:

- the per-robot state (`RobotContext`) with its position, heading, wheel speeds,
  visited set, path and revisit counter;
- the move rule, the quarter-turn rotations and the tick pass (`tick_all`), which
  turns sampled wheel speeds into a forward or backward move, a left or right turn,
  or nothing;
- the shim glue: the registry, the thread-to-robot binding and its failing lookup,
  the target scan, per-robot metrics, and the motor and bump calls;
- start placement (`default_starts`) and the worker loop with its step budget and
  result record.

Everything is immutable values and pure functions. The one loop is
`Runner.SimulationLoop`. Its reference definition is `Runner.Replay`, which runs
a sequence of passes one after the other and records the step counter after
each. `Runner.Continues` says whether the Python loop goes on after some
passes: budget left, and no robot on the target once a pass has run. The loop's contract ties its result to both. The lemmas that only split the
loop's proof into steps (`LoopStep`, `LoopExit`, `ReplayOneMore`, `ReplayNext`,
`ReplayStep`, `RanOneMore`, `ExtendBy`, `ExtendKeeps`, `ReplayCountersEnd`,
`ReplayCountersEarlier`) have no row in the table below.

Files and modules:

- `results.dfy` (`Results`): `Option` and `Result` types, and the error kinds the
  shim raises.
- `grid.dfy` (`Grid`): cells, headings, `TurnLeft`/`TurnRight` and the rotation
  group laws.
- `robots.dfy` (`Robots`): `RobotContext`, `SetSpeeds`, `MoveOne`, and the
  reference revisit count `Revisits`.
- `world.dfy` (`SharedWorld`): speed classification, `TickOne`, `TickAll`, and the
  step accounting.
- `shim.dfy` (`Shim`): the registry, the binding, `ResolveCurrent`,
  `KidFoundRobot`, the metrics, and the motor and bump calls.
- `starts.dfy` (`Starts`): `DefaultStarts` and the border walk.
- `runner.dfy` (`Runner`): the worker loop and the result record.

Each robot keeps a bookkeeping invariant (`Robots.Consistent`):

- the path is non-empty and ends at the current position;
- `visited` is exactly the set of cells on the path;
- `revisits` equals `Revisits(path)`, the number of path positions whose cell
  already appears earlier in the path.

`Robots.WellFormed` adds two things: every path cell lies on the grid, and the
heading is one of the four unit axis vectors.

A few behaviours of the code are easy to miss; the model follows the code:

- `found` is Python's truth value of `found_by`, so an empty robot id would count
  as not found. Ids are never empty in the runner, and `Runner.FoundIffFoundBy`
  proves that for non-empty ids `found` holds exactly when a robot was found.
- The metric `path_len` is `max(0, len(path) - 1)`, not `len(path) - 1`.
- Binding a thread a second time overwrites the old binding. Nothing prevents
  rebinding.
- The budget is checked before each tick. The step counter can therefore end
  above `grid * grid * 5` when several robots move in the last pass.
- A due robot uses up its throttle interval whatever its speeds are, even when it
  only holds or its move is rejected: `last_move_time` is set before the speeds
  are classified.
- The target scan reads positions without taking any lock.

## Model

| member | source | states |
|---|---|---|
| `Robots.NewRobot` | pololu_hw_shim_multi.py:12-21 | a new robot stands on its start cell, which is its whole path and visited set, with zero speeds and zero revisits, and satisfies the bookkeeping invariant (and the full invariant when the start is on the grid and the heading is a unit axis) |
| `Robots.SetSpeeds` | pololu_hw_shim_multi.py:23-25 | both speeds are replaced by the commanded values and no other field changes |
| `Robots.SetSpeedsLastWriteWins` | pololu_hw_shim_multi.py:23-25 | of two commands before a sample only the second one survives |
| `Robots.Revisits` | pololu_hw_shim_multi.py:19-21 | the reference revisit count plus the number of distinct cells equals the path length |
| `Robots.MoveOne` | pololu_hw_shim_multi.py:37-47 | the move commits exactly when the target cell is inside the grid; an off-grid target leaves the robot unchanged; a committed move puts the robot on the target, appends that cell to the path, adds it to `visited`, and adds one revisit exactly when the cell was already visited; heading, speeds and clock are untouched |
| `Robots.MoveOneKeepsInvariant` | pololu_hw_shim_multi.py:37-47 | a move keeps the robot on the grid and keeps its invariant (revisits still match the reference count); the start cell stays first in the path; the path grows by one exactly when the robot moved |
| `Grid.RotationGroup` | pololu_hw_shim_multi.py:33-36 | `TurnLeft` and `TurnRight` undo each other, four of either is the identity, and two lefts equal two rights |
| `Grid.TurnGeometry` | pololu_hw_shim_multi.py:33-36 | each of `TurnLeft` and `TurnRight` keeps the vector's length and is perpendicular to it; left turns have positive cross product and right turns negative |
| `Grid.TurnsStepTheCycle` | pololu_hw_shim_multi.py:33-36 | on the four unit axes a left turn advances the cycle index by one and a right turn moves it back by one, modulo four |
| `Grid.AxisPeriod` | pololu_hw_shim_multi.py:33-36 | two cycle indices give the same axis exactly when they agree modulo four, so the four turn powers of an axis are distinct |
| `Grid.TurnsKeepUnitAxis` | pololu_hw_shim_multi.py:33-36 | a heading is a unit axis vector exactly when its left turn is, and exactly when its right turn is |
| `SharedWorld.Classify` | pololu_hw_shim_multi.py:56-62 | both speeds positive drives forward; both negative drives backward; a non-negative left with a non-positive right, not both zero, turns left; the mirror case turns right; both zero holds still |
| `SharedWorld.TickOne` | pololu_hw_shim_multi.py:52-62 | a robot that is not due (`IsDue`: less than the step interval since its last advance) is skipped unchanged; a due robot records the tick time; a forward or backward drive commits exactly when the target cell is on the grid, and a committed drive moves onto that cell, appends it to the path, adds it to the visited set, counts one revisit exactly when it was already visited, and changes nothing else but the clock; a rejected drive changes only the clock; a turn changes only the heading and the clock; a hold changes only the clock; speeds and id never change |
| `SharedWorld.TickOneKeepsInvariant` | pololu_hw_shim_multi.py:52-62 | a tick keeps the full robot invariant and the start cell, and grows the path by one exactly when the robot moved |
| `SharedWorld.TickOneKeepsConsistent` | pololu_hw_shim_multi.py:52-62 | a tick keeps a robot's bookkeeping intact: the visited set is still the set of path cells and the revisit count still matches the path |
| `SharedWorld.TickOnePathGrowth` | pololu_hw_shim_multi.py:52-62 | for a robot with a start cell, the tick keeps that cell first in the path and grows the path by one exactly when it reports a move |
| `SharedWorld.TickAll` | pololu_hw_shim_multi.py:48-63 | a pass treats each robot independently, in order; the returned count is between 0 and the number of robots, and positive exactly when some robot moved |
| `SharedWorld.TickAllCountsMovers` | pololu_hw_shim_multi.py:48-63 | the returned count is the number of robots whose tick committed a move |
| `SharedWorld.TickAllKeepsInvariant` | pololu_hw_shim_multi.py:48-63 | after a pass every robot still satisfies its invariant and stands on the grid |
| `SharedWorld.TickAllKeepsConsistent` | pololu_hw_shim_multi.py:48-63 | after a pass every robot's bookkeeping is still intact |
| `SharedWorld.TickAllKeepsStart` | pololu_hw_shim_multi.py:48-63 | after a pass every robot still has a path, and it still begins at the robot's start cell |
| `SharedWorld.TickAllAccounting` | pololu_hw_shim_multi.py:48-63 | the count a pass returns equals the number of cells added to all paths, so turns, skips and rejected moves count for nothing |
| `Shim.IndexOf` | pololu_hw_shim_multi.py:76 | the registry lookup finds the first robot with the id, and fails exactly when no robot has it |
| `Shim.Register` | pololu_hw_shim_multi.py:68-69 | registration keeps ids unique and makes the id resolve to the new robot; a new id is appended; an existing id is replaced in place; other robots stay unchanged |
| `Shim.Bind` | pololu_hw_shim_multi.py:70-71 | the thread is bound to the id and every other thread keeps its binding |
| `Shim.ResolveCurrent` | pololu_hw_shim_multi.py:72-76 | an unbound thread fails with the not-bound error; a bound thread succeeds exactly when its id is registered, and then resolves to that robot; otherwise it fails with the unknown-robot error of the dictionary lookup |
| `Shim.BindThenResolve` | pololu_hw_shim_multi.py:70-76 | after binding a thread to a registered id, resolving that thread yields that robot |
| `Shim.ShimWorld` | pololu_hw_shim_multi.py:77-79 | the world lookup succeeds exactly when a world was installed, and fails with the not-set error otherwise |
| `Shim.MotorsSetSpeeds` | pololu_hw_shim_multi.py:92 | a motor command fails exactly when the thread does not resolve; otherwise it sets the calling robot's speeds and leaves every other robot alone |
| `Shim.MotorsStop` | pololu_hw_shim_multi.py:92-93 | stopping fails exactly when the thread does not resolve, with the same error; otherwise it zeroes the calling robot's speeds, which classify as holding still, and changes nothing else |
| `Shim.BumpRead` | pololu_hw_shim_multi.py:100-103 | the robot is resolved before the world; the reading succeeds whenever both exist; both bumpers agree, and they report a hit exactly when the calling robot stands on the target |
| `Shim.KidFoundRobot` | pololu_hw_shim_multi.py:80-83 | returns None exactly when no robot stands on the target; otherwise returns the id of the first robot in registry order that does |
| `Shim.MetricsOf` | pololu_hw_shim_multi.py:86-87 | reports the final position and revisits; the path length is `max(0, len(path) - 1)`: one less than the number of path cells, and zero for an empty path; for a robot with intact bookkeeping it equals the revisits plus the newly visited cells |
| `Shim.RobotMetrics` | pololu_hw_shim_multi.py:84-87 | metrics of a registered id are those of its robot; an unknown id fails like the dictionary lookup |
| `Starts.PyPrefix` | run_multi_on_sim.py:8 | Python's `s[:n]` is a prefix of `s`; a non-negative `n` keeps `min(n, len(s))` elements and a negative `n` drops `min(-n, len(s))` from the end |
| `Starts.Corners` | run_multi_on_sim.py:7 | four corner cells with unit axis headings; they lie on any grid of side at least one and are distinct when the side is at least two |
| `Starts.BorderStartAt` | run_multi_on_sim.py:10-13 | every border-walk start is a non-corner border cell with a unit axis heading, and its rank is its walk position |
| `Starts.BorderWalkShape` | run_multi_on_sim.py:9-13 | the border walk `BorderWalk` has `4*(size-2)` entries (none for a side below three) and matches the four edge segments in order |
| `Starts.BorderWalkIsBijection` | run_multi_on_sim.py:9-13 | the walk lists every non-corner border cell exactly once: its cells are pairwise distinct, none is a corner, and every non-corner border cell appears in it |
| `Starts.DefaultStarts` | run_multi_on_sim.py:6-14 | for `0 <= n <= 4` the first `n` corners; for negative `n` Python's slice from the end; for `n > 4` the four corners followed by the first `n-4` border starts, `4 + min(n-4, 4*max(0, size-2))` in all |
| `Starts.DefaultStartsAt` | run_multi_on_sim.py:7-14 | the i-th start is the i-th corner for i below four, and otherwise border start i-4 |
| `Starts.DefaultStartsOnGrid` | run_multi_on_sim.py:7-13 | every start heading is a unit axis vector, and every start cell is on a grid of side at least one |
| `Starts.DefaultStartsDistinct` | run_multi_on_sim.py:7-14 | on a grid of side at least two no two starts share a cell |
| `Runner.ApplyCommand` | pololu_hw_shim_multi.py:92 | a `set_speeds` call sets the speeds of exactly the robot its thread resolves to; a call from a thread that does not resolve changes nothing |
| `Runner.ApplyCommands` | pololu_hw_shim_multi.py:92 | the control threads' commands change nothing but robots' speeds |
| `Runner.ApplyCommandKeepsTargets` | pololu_hw_shim_multi.py:72-76 | a speed command never changes which robot a later command from any thread resolves to |
| `Runner.ApplyCommandsUntouched` | pololu_hw_shim_multi.py:92 | a robot that no command resolves to keeps its whole state, so commands from unbound threads or threads bound to an unknown id have no effect |
| `Runner.ApplyCommandsLastWriteWins` | pololu_hw_shim_multi.py:23-25 | a robot that some command reaches ends with the speeds of the last command that reaches it, and nothing else about it changes |
| `Runner.ApplyCommandsKeeps` | pololu_hw_shim_multi.py:23-25 | speed commands keep ids, paths, the total distance and every robot invariant |
| `Runner.RunPass` | run_multi_on_sim.py:71 | a pass keeps robot ids in order, start cells and the robot invariants; its returned count is the number of cells moved |
| `Runner.TracksStep` | run_multi_on_sim.py:71-72 | adding a pass's count to the step counter keeps the counter equal to the total distance travelled, with ids, start cells and invariants kept |
| `Runner.RecordsGrow` | run_multi_on_sim.py:72 | the step counter's history stays non-decreasing when a value no smaller than the current one is recorded |
| `Runner.ExtendRecords` | run_multi_on_sim.py:72 | recording the counter after one more pass adds one entry and keeps the record non-decreasing and ending at the counter |
| `Runner.ReplayCounters` | run_multi_on_sim.py:69-72 | a replay records the counter exactly once per pass; the record never decreases and ends at the final counter |
| `Runner.ReplayCountersAt` | run_multi_on_sim.py:69-72 | entry `k` of a replay's record is the counter after the first `k + 1` passes |
| `Runner.ReplayGrows` | run_multi_on_sim.py:71-72 | the counter after a prefix of a trace is never larger than after the whole trace |
| `Runner.ReplayHistoryAt` | run_multi_on_sim.py:69-72 | in a history that is the record of replaying a prefix of the trace, entry `k` is the counter after the first `k + 1` passes |
| `Runner.LoopHistory` | run_multi_on_sim.py:69-74 | entry `k` of the loop's history is the step counter after the first `k + 1` passes of the trace |
| `Runner.ReplayTracks` | run_multi_on_sim.py:69-72 | replaying any sequence of passes keeps ids, start cells and invariants, and its counter equals the cells moved |
| `Runner.SimulationLoop` | run_multi_on_sim.py:69-74 | the loop runs exactly the first passes of the trace, going on before each one because the budget was left and no robot was on the target; counter, robots and the history of the counter after each pass are those of replaying them; it stops exactly when the budget `MaxSteps` (`grid * grid * 5`) is used up or a robot is on the target, and reports the first such robot in registry order; the counter history never decreases; ids, start cells and invariants are kept, and the counter equals the cells moved |
| `Runner.AssembleReport` | run_multi_on_sim.py:77-78 | `found` holds exactly when the reported `found_by` is non-empty; with no robot found it is false and `found_by` is ""; steps are carried over; one metrics entry per robot in registration order |
| `Runner.FoundIffFoundBy` | run_multi_on_sim.py:74-77 | with non-empty robot ids the report says found exactly when the loop found a robot, and the reported robot stands on the target |

## Left out

- Threads and locks: the per-robot and world locks, the daemon control threads,
  and thread identities as a concurrency mechanism. A tick pass is a sequential
  function over the robots. The binding is a plain map from thread id to robot id.
- Wall-clock time. `time.time()` becomes an integer `now` per tick pass, and
  `step_seconds` becomes an integer interval. `sleep` is dropped.
- TickOne: it samples the clock once per pass. The source calls `_now()` once for
  each robot's check and again when it records the time, so those readings can
  differ slightly.
- SimulationLoop: the Python loop has no bound of its own. With a positive budget
  it spins for ever when no robot ever moves and none stands on the target. The
  model runs over a finite trace of passes and reports
  `stopped = false` when the trace ends first. The control programs are outside
  the model. Their effect is the list of `set_speeds` commands in each pass.
- The control programs themselves, which are loaded with `importlib` and are
  foreign code.
- The I/O-only hardware stubs: line sensors, display, buttons, LEDs and UART.
- `run_master` (subprocesses, JSON and CSV files, float averages) and `main`
  (argparse).
- Setting up the robots in `run_worker` (lines 52-59). This includes the two-digit
  id format and the `IndexError` raised when `n` exceeds the available start cells.
  Elapsed seconds and writing the JSON file are also left out.
- `int(left)` truncation of non-integer speeds: speeds are integers in the model.
- Shim.Register: it keys the registry by the robot's own id. The source takes a
  separate key argument, and the runner always passes the robot's id.
- Shim.KidFoundRobot: it takes the target cell as a parameter. The source reads
  `_world.kid`, which would fail if no world had been installed and the registry
  were non-empty. The runner always installs the world first.
- The order of the Python registry dictionary is fixed as registration order.
- The constructors' default arguments: the robot's start `(0,0)` and heading
  `(0,-1)`, and the world's side 10, interval 2.0 and target `(5,5)`. The runner
  always passes every one of them explicitly.
