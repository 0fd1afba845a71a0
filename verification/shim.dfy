/** The shim glue: the robot registry, the thread-to-robot binding, the
    target-found scan, per-robot metrics, and the two hardware calls that touch
    simulation state (motor speeds and the bump/target query). The Python
    dictionaries become a sequence in registration order and a map. */
module Shim {
  import opened Results
  import opened Grid
  import opened Robots
  import opened SharedWorld

  type ThreadId = int

  /** `_robots`: registered robots in registration order. */
  type Registry = seq<RobotContext>

  /** `_thread_to_robot`: which robot each control thread drives. */
  type Binding = map<ThreadId, RobotId>

  /** Dictionary keys are unique: no id is registered twice. */
  predicate UniqueIds(reg: Registry) {
    forall i, j :: 0 <= i < j < |reg| ==> reg[i].id != reg[j].id
  }

  /** Position of the robot with the given id in the registry, if any. */
  function IndexOf(reg: Registry, id: RobotId): (k: Option<nat>)
    ensures k.Some? ==> k.value < |reg| && reg[k.value].id == id
    ensures k.Some? ==> forall j :: 0 <= j < k.value ==> reg[j].id != id
    ensures k.None? <==> forall j :: 0 <= j < |reg| ==> reg[j].id != id
    decreases |reg|
  {
    if |reg| == 0 then None
    else if reg[0].id == id then Some(0)
    else match IndexOf(reg[1..], id)
      case None => None
      case Some(k) => Some(k + 1)
  }

  /** `_shim_register_robot`: a new id is appended, an existing id has its
      robot replaced in place (dictionary assignment keeps the key's position). */
  function Register(reg: Registry, ctx: RobotContext): (reg': Registry)
    requires UniqueIds(reg)
    ensures UniqueIds(reg')
    ensures IndexOf(reg', ctx.id).Some? && reg'[IndexOf(reg', ctx.id).value] == ctx
    ensures IndexOf(reg, ctx.id).None? ==> reg' == reg + [ctx]
    ensures IndexOf(reg, ctx.id).Some? ==> |reg'| == |reg|
    ensures forall i :: 0 <= i < |reg| && reg[i].id != ctx.id ==> reg'[i] == reg[i]
  {
    match IndexOf(reg, ctx.id)
    case None =>
      var reg' := reg + [ctx];
      assert reg'[|reg|].id == ctx.id;
      reg'
    case Some(k) =>
      var reg' := reg[k := ctx];
      assert reg'[k].id == ctx.id;
      reg'
  }

  /** `_shim_bind_thread`: the thread now drives `id`; other threads keep theirs. */
  function Bind(b: Binding, t: ThreadId, id: RobotId): (b': Binding)
    ensures t in b' && b'[t] == id
    ensures b'.Keys == b.Keys + {t}
    ensures forall u :: u in b && u != t ==> b'[u] == b[u]
  {
    b[t := id]
  }

  /** `_shim_get_ctx_for_current_thread`: the registry position of the calling
      thread's robot. An unbound thread is a usage error; a bound id that was
      never registered fails like the dictionary lookup. */
  function ResolveCurrent(b: Binding, reg: Registry, t: ThreadId): (r: Result<nat>)
    ensures r == Err(NotBound) <==> t !in b
    ensures r.Ok? <==> t in b && exists j :: 0 <= j < |reg| && reg[j].id == b[t]
    ensures r.Ok? ==> r.value < |reg| && reg[r.value].id == b[t]
    ensures t in b && r.Err? ==> r.error == UnknownRobot
  {
    if t !in b then Err(NotBound)
    else match IndexOf(reg, b[t])
      case None => Err(UnknownRobot)
      case Some(k) => Ok(k)
  }

  /** A thread that binds a registered robot resolves to that robot. */
  lemma BindThenResolve(b: Binding, reg: Registry, t: ThreadId, id: RobotId)
    requires UniqueIds(reg)
    requires exists j :: 0 <= j < |reg| && reg[j].id == id
    ensures var r := ResolveCurrent(Bind(b, t, id), reg, t);
      r.Ok? && reg[r.value].id == id
  {
  }

  /** `_shim_world`: the installed world, or a usage error before installation. */
  function ShimWorld(w: Option<World>): (r: Result<World>)
    ensures r.Ok? <==> w.Some?
    ensures r.Ok? ==> r.value == w.value
    ensures r.Err? ==> r.error == WorldNotSet
  {
    match w
    case None => Err(WorldNotSet)
    case Some(world) => Ok(world)
  }

  /** `_Motors.set_speeds`: overwrite the speeds of the calling thread's robot;
      every other robot, and every other field, is left alone. */
  function MotorsSetSpeeds(b: Binding, reg: Registry, t: ThreadId, left: int, right: int): (r: Result<Registry>)
    ensures r.Ok? <==> ResolveCurrent(b, reg, t).Ok?
    ensures r.Err? ==> r.error == ResolveCurrent(b, reg, t).error
    ensures r.Ok? ==>
      var k := ResolveCurrent(b, reg, t).value;
      && |r.value| == |reg|
      && r.value[k] == SetSpeeds(reg[k], left, right)
      && forall i :: 0 <= i < |reg| && i != k ==> r.value[i] == reg[i]
  {
    match ResolveCurrent(b, reg, t)
    case Err(e) => Err(e)
    case Ok(k) => Ok(reg[k := SetSpeeds(reg[k], left, right)])
  }

  /** `_Motors.stop`: zero speeds, which the tick classifies as holding still;
      nothing else changes. */
  function MotorsStop(b: Binding, reg: Registry, t: ThreadId): (r: Result<Registry>)
    ensures r.Ok? <==> ResolveCurrent(b, reg, t).Ok?
    ensures r.Err? ==> r.error == ResolveCurrent(b, reg, t).error
    ensures r.Ok? ==> |r.value| == |reg|
    ensures r.Ok? ==>
      var k := ResolveCurrent(b, reg, t).value;
      && Classify(r.value[k].leftSpeed, r.value[k].rightSpeed) == Hold
      && r.value[k] == reg[k].(leftSpeed := 0, rightSpeed := 0)
      && forall i :: 0 <= i < |reg| && i != k ==> r.value[i] == reg[i]
  {
    MotorsSetSpeeds(b, reg, t, 0, 0)
  }

  /** Both sides of a bump reading. */
  datatype Bump = Bump(left: bool, right: bool)

  /** `_BumpSensors.read`: both bumpers report whether the calling thread's
      robot stands on the target cell. The robot is resolved before the world. */
  function BumpRead(w: Option<World>, b: Binding, reg: Registry, t: ThreadId): (r: Result<Bump>)
    ensures ResolveCurrent(b, reg, t).Err? ==> r == Err(ResolveCurrent(b, reg, t).error)
    ensures ResolveCurrent(b, reg, t).Ok? && w.None? ==> r == Err(WorldNotSet)
    ensures ResolveCurrent(b, reg, t).Ok? && w.Some? ==> r.Ok?
    ensures r.Ok? ==> w.Some? && r.value.left == r.value.right
    ensures r.Ok? ==> (r.value.left <==> reg[ResolveCurrent(b, reg, t).value].pos == w.value.kid)
  {
    match ResolveCurrent(b, reg, t)
    case Err(e) => Err(e)
    case Ok(k) =>
      match ShimWorld(w)
      case Err(e) => Err(e)
      case Ok(world) =>
        var hit := reg[k].pos == world.kid;
        Ok(Bump(hit, hit))
  }

  /** `_shim_kid_found_robot`: the id of the first robot, in registry order,
      that stands on the target cell, or None when no robot does. */
  function KidFoundRobot(reg: Registry, kid: Cell): (r: Option<RobotId>)
    ensures r.None? <==> forall i :: 0 <= i < |reg| ==> reg[i].pos != kid
    ensures r.Some? ==> exists i :: 0 <= i < |reg| && reg[i].pos == kid && reg[i].id == r.value
                                    && forall j :: 0 <= j < i ==> reg[j].pos != kid
    decreases |reg|
  {
    if |reg| == 0 then None
    else if reg[0].pos == kid then Some(reg[0].id)
    else
      var rest := KidFoundRobot(reg[1..], kid);
      assert rest.Some? ==> exists i :: 1 <= i < |reg| && reg[i].pos == kid && reg[i].id == rest.value
                                     && forall j :: 1 <= j < i ==> reg[j].pos != kid;
      rest
  }

  /** The figures reported for one robot (`_shim_metrics`). */
  datatype Metrics = Metrics(pathLen: nat, revisits: nat, endX: int, endY: int)

  /** Metrics of a robot: cells moved (`max(0, len(path) - 1)`, so an empty
      path reports zero), revisits, and final position. For a robot whose
      bookkeeping is intact, the cells moved split into revisits and newly
      discovered cells. */
  function MetricsOf(r: RobotContext): (m: Metrics)
    ensures m.endX == r.pos.x && m.endY == r.pos.y && m.revisits == r.revisits
    ensures |r.path| >= 1 ==> m.pathLen + 1 == |r.path|
    ensures |r.path| == 0 ==> m.pathLen == 0
    ensures Consistent(r) ==> m.pathLen == m.revisits + |r.visited| - 1
  {
    Metrics(PathLen(r), r.revisits, r.pos.x, r.pos.y)
  }

  /** `_shim_metrics(robot_id)`: metrics of a registered robot; an unknown id
      fails like the dictionary lookup. */
  function RobotMetrics(reg: Registry, id: RobotId): (r: Result<Metrics>)
    ensures r.Err? <==> forall i :: 0 <= i < |reg| ==> reg[i].id != id
    ensures r.Err? ==> r.error == UnknownRobot
    ensures r.Ok? ==> exists i :: 0 <= i < |reg| && reg[i].id == id && r.value == MetricsOf(reg[i])
  {
    match IndexOf(reg, id)
    case None => Err(UnknownRobot)
    case Some(k) => Ok(MetricsOf(reg[k]))
  }
}
