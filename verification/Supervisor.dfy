/**
 * The `xr dev` supervisor: its state under the mutex, the rebuild that moves it
 * forward, and the Ctrl+C handler that may run whenever the mutex is free.
 */
module Supervisor {
  import opened Outcomes

  /** What serves traffic, as the supervisor sees it; `child` identifies a spawned process. */
  datatype ServerState = NotStarted | Direct(child: nat) | HandedOff

  /** Everything the supervisor does to the outside, in order. */
  datatype Command =
    | StopPlaceholder
    | Reap(child: nat)
    | Kill(child: nat)
    | SendRestart
    | SendStop
    | SendStatus(failed: bool)
    | ReportNoListener

  /** The fields behind the mutex, with `listener` saying whether the placeholder's socket is held. */
  datatype Dev = Dev(server: ServerState, generation: nat, listener: bool, log: seq<Command>)

  // ----- what can happen during one rebuild -----

  datatype StartOutcome = Ready(child: nat) | NeverReady | FailedToStart
  datatype HandoffOutcome = Started | FailedInTime | Unexpected | Unreachable
  datatype BuildOutcome = BuildFails | NoBinary | PublishFails | Published

  datatype Outcome = Outcome(build: BuildOutcome, start: StartOutcome, handoff: HandoffOutcome)

  function Log(d: Dev, command: Command): Dev {
    d.(log := d.log + [command])
  }

  /** Nothing listens on the admin channel before the first server runs. */
  function NotifyBuildStatus(d: Dev, failed: bool): Dev {
    if d.server.NotStarted? then d else Log(d, SendStatus(failed))
  }

  function RequestHandoff(d: Dev, outcome: HandoffOutcome): Dev {
    var sent := Log(d.(server := HandedOff), SendRestart);
    if outcome.FailedInTime? then NotifyBuildStatus(sent, true) else sent
  }

  function Start(d: Dev, outcome: StartOutcome): Dev {
    match outcome
    case Ready(child) => Log(d.(server := Direct(child)), StopPlaceholder)
    case _ => d.(listener := true)
  }

  function Advance(d: Dev, start: StartOutcome, handoff: HandoffOutcome): Dev {
    var taken := d.(server := NotStarted);
    match d.server
    case NotStarted => if d.listener then Start(taken.(listener := false), start) else Log(taken, ReportNoListener)
    case Direct(child) => RequestHandoff(Log(taken, Reap(child)), handoff)
    case HandedOff => RequestHandoff(taken, handoff)
  }

  /** One rebuild, from taking the mutex to giving it back. */
  function Rebuild(d: Dev, o: Outcome): Dev {
    var building := NotifyBuildStatus(d, false);
    if o.build.Published? then Advance(building.(generation := building.generation + 1), o.start, o.handoff)
    else NotifyBuildStatus(building, true)
  }

  function CtrlC(d: Dev): Dev {
    var taken := d.(server := NotStarted);
    match d.server
    case NotStarted => taken
    case Direct(child) => Log(taken, Kill(child))
    case HandedOff => Log(taken, SendStop)
  }

  // ----- as it runs -----

  class DevState {
    var server: ServerState
    var generation: nat
    var placeholderListener: bool
    var log: seq<Command>

    function Snapshot(): Dev
      reads this
    {
      Dev(server, generation, placeholderListener, log)
    }

    /** A new session: nothing served yet, the placeholder's socket held, numbering as on disk. */
    constructor (startingGeneration: nat)
      ensures Snapshot() == Dev(NotStarted, startingGeneration, true, [])
    {
      server, generation, placeholderListener, log := NotStarted, startingGeneration, true, [];
    }

    method DoNotifyBuildStatus(failed: bool)
      modifies this`log
      ensures Snapshot() == NotifyBuildStatus(old(Snapshot()), failed)
    {
      if server.NotStarted? { return; }
      log := log + [SendStatus(failed)];
    }

    method RebuildAndRestart(o: Outcome)
      modifies this
      ensures Snapshot() == Rebuild(old(Snapshot()), o)
    {
      DoNotifyBuildStatus(false);
      match o.build {
        case Published =>
          generation := generation + 1;
          DoAdvance(o.start, o.handoff);
        case BuildFails => DoNotifyBuildStatus(true);
        case NoBinary => DoNotifyBuildStatus(true);
        case PublishFails => DoNotifyBuildStatus(true);
      }
    }

    method DoAdvance(start: StartOutcome, handoff: HandoffOutcome)
      modifies this
      ensures Snapshot() == Advance(old(Snapshot()), start, handoff)
    {
      var taken := server;
      server := NotStarted;
      match taken {
        case NotStarted =>
          if !placeholderListener {
            log := log + [ReportNoListener];
            return;
          }
          placeholderListener := false;
          match start {
            case Ready(child) =>
              server := Direct(child);
              log := log + [StopPlaceholder];
            case NeverReady => placeholderListener := true;
            case FailedToStart => placeholderListener := true;
          }
        case Direct(child) =>
          log := log + [Reap(child)];
          DoRequestHandoff(handoff);
        case HandedOff =>
          DoRequestHandoff(handoff);
      }
    }

    method DoRequestHandoff(outcome: HandoffOutcome)
      modifies this`server, this`log
      ensures Snapshot() == RequestHandoff(old(Snapshot()), outcome)
    {
      server := HandedOff;
      log := log + [SendRestart];
      if outcome.FailedInTime? {
        DoNotifyBuildStatus(true);
      }
    }

    method OnCtrlC()
      modifies this`server, this`log
      ensures Snapshot() == CtrlC(old(Snapshot()))
    {
      var taken := server;
      server := NotStarted;
      match taken {
        case NotStarted =>
        case Direct(child) => log := log + [Kill(child)];
        case HandedOff => log := log + [SendStop];
      }
    }
  }

  // ----- two threads and a mutex -----

  datatype Holder = Free | Main | Handler

  /** Where the watch loop stands; the values it has moved out of the state stand with it. */
  datatype Point =
    | Watching
    | Building
    | Advancing
    | Starting
    | Reaping(child: nat)
    | Requesting

  /** `stages` records the server state each time the mutex is given back. */
  datatype World = World(dev: Dev, lock: Holder, point: Point, exited: bool, stages: seq<ServerState>)

  datatype Action =
    | BeginRebuild
    | FinishBuild(build: BuildOutcome)
    | TakeServer
    | FinishStart(start: StartOutcome)
    | ReapChild
    | Request(handoff: HandoffOutcome)
    | Interrupt
    | Handle

  predicate Enabled(w: World, a: Action) {
    !w.exited &&
    match a
    case BeginRebuild => w.lock.Free? && w.point.Watching?
    case FinishBuild(_) => w.lock.Main? && w.point.Building?
    case TakeServer => w.lock.Main? && w.point.Advancing?
    case FinishStart(_) => w.lock.Main? && w.point.Starting?
    case ReapChild => w.lock.Main? && w.point.Reaping?
    case Request(_) => w.lock.Main? && w.point.Requesting?
    case Interrupt => w.lock.Free?
    case Handle => w.lock.Handler?
  }

  /** The watch loop ends a rebuild and gives the mutex back. */
  function Release(w: World, dev: Dev): World {
    World(dev, Free, Watching, w.exited, w.stages + [dev.server])
  }

  function Next(w: World, a: Action): World
    requires Enabled(w, a)
  {
    match a
    case BeginRebuild => w.(lock := Main, point := Building, dev := NotifyBuildStatus(w.dev, false))
    case FinishBuild(build) =>
      if build.Published? then w.(point := Advancing, dev := w.dev.(generation := w.dev.generation + 1))
      else Release(w, NotifyBuildStatus(w.dev, true))
    case TakeServer =>
      var taken := w.dev.(server := NotStarted);
      (match w.dev.server
       case NotStarted =>
         if w.dev.listener then w.(point := Starting, dev := taken.(listener := false))
         else Release(w, Log(taken, ReportNoListener))
       case Direct(child) => w.(point := Reaping(child), dev := taken)
       case HandedOff => w.(point := Requesting, dev := taken))
    case FinishStart(start) => Release(w, Start(w.dev, start))
    case ReapChild => w.(point := Requesting, dev := Log(w.dev, Reap(w.point.child)))
    case Request(handoff) => Release(w, RequestHandoff(w.dev, handoff))
    case Interrupt => w.(lock := Handler)
    case Handle => w.(dev := CtrlC(w.dev), exited := true)
  }

  function Initial(generation: nat): World {
    World(Dev(NotStarted, generation, true, []), Free, Watching, false, [])
  }

  function After(w: World, actions: seq<Action>): Option<World>
    decreases |actions|
  {
    if actions == [] then Some(w)
    else
      match After(w, actions[..|actions| - 1])
      case None => None
      case Some(w1) => if Enabled(w1, actions[|actions| - 1]) then Some(Next(w1, actions[|actions| - 1])) else None
  }

  /** The actions of the watch loop during one rebuild with outcome `o`. */
  function RebuildActions(d: Dev, o: Outcome): seq<Action> {
    [BeginRebuild] + [FinishBuild(o.build)] + if o.build.Published? then AdvanceActions(d, o) else []
  }

  function AdvanceActions(d: Dev, o: Outcome): seq<Action> {
    match d.server
    case NotStarted => if d.listener then [TakeServer] + [FinishStart(o.start)] else [TakeServer]
    case Direct(_) => [TakeServer] + [ReapChild] + [Request(o.handoff)]
    case HandedOff => [TakeServer] + [Request(o.handoff)]
  }

  lemma {:induction false} AfterConcat(w: World, first: seq<Action>, second: seq<Action>)
    requires After(w, first).Some?
    ensures After(w, first + second) == After(After(w, first).value, second)
    decreases |second|
  {
    if second == [] {
      assert first + second == first;
    } else {
      var all, last := first + second, |second| - 1;
      assert all[..|all| - 1] == first + second[..last];
      AfterConcat(w, first, second[..last]);
    }
  }

  lemma AfterOne(w: World, a: Action)
    ensures After(w, [a]) == if Enabled(w, a) then Some(Next(w, a)) else None
  {
    assert [a][..0] == [];
    assert After(w, [a][..0]) == Some(w);
  }

  lemma AfterMore(w: World, actions: seq<Action>, a: Action, w': World)
    requires After(w, actions) == Some(w') && Enabled(w', a)
    ensures After(w, actions + [a]) == Some(Next(w', a))
  {
    AfterConcat(w, actions, [a]);
    AfterOne(w', a);
  }

  lemma AdvanceIsItsSteps(w: World, o: Outcome)
    requires Enabled(w, TakeServer)
    ensures After(w, AdvanceActions(w.dev, o)) == Some(Release(w, Advance(w.dev, o.start, o.handoff)))
  {
    AfterOne(w, TakeServer);
    var w1 := Next(w, TakeServer);
    match w.dev.server
    case NotStarted =>
      if w.dev.listener {
        AfterMore(w, [TakeServer], FinishStart(o.start), w1);
      }
    case Direct(_) =>
      AfterMore(w, [TakeServer], ReapChild, w1);
      AfterMore(w, [TakeServer] + [ReapChild], Request(o.handoff), Next(w1, ReapChild));
    case HandedOff =>
      AfterMore(w, [TakeServer], Request(o.handoff), w1);
  }

  /** The small steps of an undisturbed rebuild add up to `Rebuild`. */
  lemma RebuildIsItsSteps(w: World, o: Outcome)
    requires Enabled(w, BeginRebuild)
    ensures After(w, RebuildActions(w.dev, o)) == Some(Release(w, Rebuild(w.dev, o)))
  {
    AfterOne(w, BeginRebuild);
    var w1 := Next(w, BeginRebuild);
    AfterMore(w, [BeginRebuild], FinishBuild(o.build), w1);
    var built, w2 := [BeginRebuild] + [FinishBuild(o.build)], Next(w1, FinishBuild(o.build));
    if o.build.Published? {
      AdvanceIsItsSteps(w2, o);
      assert AdvanceActions(w2.dev, o) == AdvanceActions(w.dev, o);
      AfterConcat(w, built, AdvanceActions(w.dev, o));
    } else {
      assert RebuildActions(w.dev, o) == built;
    }
  }

  // ----- what holds at every point -----

  function Rank(s: ServerState): nat {
    match s
    case NotStarted => 0
    case Direct(_) => 1
    case HandedOff => 2
  }

  /** The server state that counts, with what the watch loop has moved out put back. */
  function Serving(w: World): ServerState {
    match w.point
    case Reaping(child) => Direct(child)
    case Requesting => HandedOff
    case _ => w.dev.server
  }

  function LastStage(stages: seq<ServerState>): ServerState {
    if stages == [] then NotStarted else stages[|stages| - 1]
  }

  function Stops(log: seq<Command>): nat {
    if log == [] then 0
    else Stops(log[..|log| - 1]) + if log[|log| - 1].StopPlaceholder? then 1 else 0
  }

  /** Stages only move forward, and a direct child stays the same child until handed off. */
  ghost predicate Forward(stages: seq<ServerState>) {
    forall i, j :: 0 <= i < j < |stages| ==>
      Rank(stages[i]) <= Rank(stages[j]) && (Rank(stages[i]) == Rank(stages[j]) ==> stages[i] == stages[j])
  }

  /** Only the handler kills or stops, and the branch for a missing socket is not taken. */
  predicate IsOrdinary(command: Command) {
    !command.Kill? && !command.SendStop? && !command.ReportNoListener?
  }

  ghost predicate AllOrdinary(log: seq<Command>) {
    forall i :: 0 <= i < |log| ==> IsOrdinary(log[i])
  }

  /** Where the loop stands fits who holds the mutex, and the socket is held until a server starts. */
  ghost predicate SocketInv(w: World) {
    (w.lock.Main? <==> !w.point.Watching?) &&
    (w.point.Starting? || w.point.Reaping? || w.point.Requesting? ==> w.dev.server.NotStarted? && !w.dev.listener) &&
    (!w.point.Starting? ==> (Serving(w).NotStarted? <==> w.dev.listener))
  }

  ghost predicate LogInv(w: World) {
    Stops(w.dev.log) == (if Serving(w).NotStarted? then 0 else 1) && AllOrdinary(w.dev.log)
  }

  ghost predicate StageInv(w: World) {
    Forward(w.stages) &&
    (if w.point.Requesting? then LastStage(w.stages) != NotStarted else LastStage(w.stages) == Serving(w))
  }

  /** What holds while the process lives, wherever the two threads stand. */
  ghost predicate Inv(w: World) {
    SocketInv(w) && LogInv(w) && StageInv(w)
  }

  lemma Logged(d: Dev, command: Command)
    requires AllOrdinary(d.log) && IsOrdinary(command)
    ensures AllOrdinary(Log(d, command).log)
    ensures Stops(Log(d, command).log) == Stops(d.log) + if command.StopPlaceholder? then 1 else 0
  {
    assert (d.log + [command])[..|d.log|] == d.log;
  }

  lemma ForwardMore(stages: seq<ServerState>, next: ServerState)
    requires Forward(stages)
    requires Rank(LastStage(stages)) < Rank(next) || LastStage(stages) == next
    ensures Forward(stages + [next])
  {
    var more := stages + [next];
    forall i, j | 0 <= i < j < |more|
      ensures Rank(more[i]) <= Rank(more[j]) && (Rank(more[i]) == Rank(more[j]) ==> more[i] == more[j])
    {
      if j == |stages| && i < |stages| - 1 {
        assert more[i] == stages[i] && Rank(stages[i]) <= Rank(stages[|stages| - 1]);
      }
    }
  }

  lemma StepKeepsSocket(w: World, a: Action)
    requires SocketInv(w) && Enabled(w, a) && !a.Handle?
    ensures SocketInv(Next(w, a))
  {
  }

  lemma NotifyKeepsLog(d: Dev, failed: bool)
    requires AllOrdinary(d.log)
    ensures AllOrdinary(NotifyBuildStatus(d, failed).log) && Stops(NotifyBuildStatus(d, failed).log) == Stops(d.log)
  {
    Logged(d, SendStatus(failed));
  }

  lemma RequestKeepsLog(d: Dev, outcome: HandoffOutcome)
    requires AllOrdinary(d.log)
    ensures AllOrdinary(RequestHandoff(d, outcome).log) && Stops(RequestHandoff(d, outcome).log) == Stops(d.log)
  {
    Logged(d.(server := HandedOff), SendRestart);
    NotifyKeepsLog(Log(d.(server := HandedOff), SendRestart), true);
  }

  lemma TakingKeepsLog(w: World)
    requires SocketInv(w) && LogInv(w) && Enabled(w, TakeServer)
    ensures LogInv(Next(w, TakeServer))
  {
    var w' := Next(w, TakeServer);
    assert w'.dev.log == w.dev.log;
  }

  lemma StepKeepsLog(w: World, a: Action)
    requires SocketInv(w) && LogInv(w) && Enabled(w, a) && !a.Handle?
    ensures LogInv(Next(w, a))
  {
    match a
    case BeginRebuild => NotifyKeepsLog(w.dev, false);
    case FinishBuild(_) => NotifyKeepsLog(w.dev, true);
    case TakeServer => TakingKeepsLog(w);
    case FinishStart(_) => Logged(w.dev, StopPlaceholder);
    case ReapChild => Logged(w.dev, Reap(w.point.child));
    case Request(handoff) => RequestKeepsLog(w.dev, handoff);
    case Interrupt =>
  }

  lemma StepKeepsStages(w: World, a: Action)
    requires SocketInv(w) && StageInv(w) && Enabled(w, a) && !a.Handle?
    ensures StageInv(Next(w, a))
  {
    var w' := Next(w, a);
    if w'.lock.Free? {
      ForwardMore(w.stages, w'.dev.server);
    }
  }

  lemma StepKeepsInv(w: World, a: Action)
    requires Inv(w) && Enabled(w, a) && !a.Handle?
    ensures Inv(Next(w, a))
  {
    StepKeepsSocket(w, a);
    StepKeepsLog(w, a);
    StepKeepsStages(w, a);
  }

  lemma {:induction false} LivingRunsKeepInv(generation: nat, actions: seq<Action>)
    requires After(Initial(generation), actions).Some?
    ensures !After(Initial(generation), actions).value.exited ==> Inv(After(Initial(generation), actions).value)
    ensures After(Initial(generation), actions).value.exited ==>
            actions != [] && actions[|actions| - 1] == Handle &&
            After(Initial(generation), actions[..|actions| - 1]).Some? &&
            !After(Initial(generation), actions[..|actions| - 1]).value.exited
    decreases |actions|
  {
    if actions != [] {
      var sofar, last := actions[..|actions| - 1], actions[|actions| - 1];
      LivingRunsKeepInv(generation, sofar);
      if !last.Handle? {
        StepKeepsInv(After(Initial(generation), sofar).value, last);
      }
    }
  }

  /**
   * In every interleaving: whenever the mutex is free, no server has started exactly
   * when the placeholder's socket is still held; the placeholder has been told to stop
   * once if a server has started and never otherwise; the branch for a missing socket
   * is never taken; and the stages only move from not started to direct to handed off.
   */
  lemma SupervisorIsSafe(generation: nat, actions: seq<Action>)
    requires After(Initial(generation), actions).Some? && !After(Initial(generation), actions).value.exited
    ensures var w := After(Initial(generation), actions).value;
            (w.lock.Free? ==> (w.dev.server.NotStarted? <==> w.dev.listener)) &&
            (w.lock.Free? ==> Stops(w.dev.log) == if w.dev.server.NotStarted? then 0 else 1) &&
            Stops(w.dev.log) <= 1 && AllOrdinary(w.dev.log) && Forward(w.stages)
  {
    LivingRunsKeepInv(generation, actions);
  }

  /**
   * However the handler comes to run, it sees the state the last rebuild left, and its
   * one command fits it: a direct child is killed, a handed-off server is told to stop,
   * and before the first server nothing is sent.
   */
  lemma CtrlCFindsTheServer(generation: nat, actions: seq<Action>)
    requires After(Initial(generation), actions).Some? && After(Initial(generation), actions).value.exited
    ensures var w := After(Initial(generation), actions).value;
            var before := After(Initial(generation), actions[..|actions| - 1]).value;
            w.stages == before.stages &&
            w.dev.log == before.dev.log +
              (match LastStage(w.stages)
               case NotStarted => []
               case Direct(child) => [Kill(child)]
               case HandedOff => [SendStop])
  {
    LivingRunsKeepInv(generation, actions);
    LivingRunsKeepInv(generation, actions[..|actions| - 1]);
  }

  /** Without the mutex it would not: inside a rebuild the state can say that nothing runs when a child does. */
  lemma TheMutexIsNeeded(generation: nat, child: nat)
    ensures exists actions ::
              After(Initial(generation), actions).Some? &&
              After(Initial(generation), actions).value.dev.server == NotStarted &&
              Serving(After(Initial(generation), actions).value) == Direct(child)
  {
    var w := Initial(generation);
    var o := Outcome(Published, Ready(child), Started);
    var first := RebuildActions(w.dev, o);
    RebuildIsItsSteps(w, o);
    var w1 := Release(w, Rebuild(w.dev, o));
    AfterMore(w, first, BeginRebuild, w1);
    var w2 := Next(w1, BeginRebuild);
    AfterMore(w, first + [BeginRebuild], FinishBuild(Published), w2);
    var w3 := Next(w2, FinishBuild(Published));
    AfterMore(w, first + [BeginRebuild] + [FinishBuild(Published)], TakeServer, w3);
  }

  function Publishes(actions: seq<Action>): nat {
    if actions == [] then 0
    else Publishes(actions[..|actions| - 1]) + if actions[|actions| - 1] == FinishBuild(Published) then 1 else 0
  }

  /** The generation counts successful publishes and nothing else. */
  lemma {:induction false} GenerationCountsPublishes(generation: nat, actions: seq<Action>)
    requires After(Initial(generation), actions).Some?
    ensures After(Initial(generation), actions).value.dev.generation == generation + Publishes(actions)
    decreases |actions|
  {
    if actions != [] {
      GenerationCountsPublishes(generation, actions[..|actions| - 1]);
    }
  }

  // ----- every command that is sent -----

  /** What a rebuild sends, by what was serving and how it went. */
  function Sent(d: Dev, o: Outcome): seq<Command> {
    match (d.server, o.build)
    case (NotStarted, Published) =>
      if !d.listener then [ReportNoListener] else if o.start.Ready? then [StopPlaceholder] else []
    case (NotStarted, _) => []
    case (Direct(child), Published) =>
      [SendStatus(false), Reap(child), SendRestart] + if o.handoff == FailedInTime then [SendStatus(true)] else []
    case (HandedOff, Published) =>
      [SendStatus(false), SendRestart] + if o.handoff == FailedInTime then [SendStatus(true)] else []
    case _ => [SendStatus(false), SendStatus(true)]
  }

  /** A rebuild sends exactly that, and moves the server, the counter and the socket exactly so. */
  lemma RebuildSendsExactly(d: Dev, o: Outcome)
    ensures var d' := Rebuild(d, o);
            d'.log == d.log + Sent(d, o) &&
            d'.generation == d.generation + (if o.build == Published then 1 else 0) &&
            match (d.server, o.build)
            case (NotStarted, Published) =>
              if d.listener then
                (d'.server, d'.listener) ==
                (if o.start.Ready? then (Direct(o.start.child), false) else (NotStarted, true))
              else (d'.server, d'.listener) == (NotStarted, false)
            case (_, Published) => (d'.server, d'.listener) == (HandedOff, d.listener)
            case _ => (d'.server, d'.listener) == (d.server, d.listener)
  {
    if d.server.Direct? && o.build.Published? {
      var sent := d.log + [SendStatus(false)] + [Reap(d.server.child)] + [SendRestart];
      assert sent == d.log + [SendStatus(false), Reap(d.server.child), SendRestart];
    }
  }

  /** The commands one step of the watch loop sends. */
  function StepSends(w: World, a: Action): seq<Command>
    requires Enabled(w, a)
  {
    match a
    case BeginRebuild => if w.dev.server == NotStarted then [] else [SendStatus(false)]
    case FinishBuild(build) => if build == Published || w.dev.server == NotStarted then [] else [SendStatus(true)]
    case TakeServer => if w.dev.server == NotStarted && !w.dev.listener then [ReportNoListener] else []
    case FinishStart(start) => if start.Ready? then [StopPlaceholder] else []
    case ReapChild => [Reap(w.point.child)]
    case Request(handoff) => [SendRestart] + if handoff == FailedInTime then [SendStatus(true)] else []
    case Interrupt => []
    case Handle =>
      match w.dev.server
      case NotStarted => []
      case Direct(child) => [Kill(child)]
      case HandedOff => [SendStop]
  }

  lemma StepSendsExactly(w: World, a: Action)
    requires Enabled(w, a)
    ensures Next(w, a).dev.log == w.dev.log + StepSends(w, a)
  {
  }

  function Count(log: seq<Command>, which: Command -> bool): nat {
    if log == [] then 0 else Count(log[..|log| - 1], which) + if which(log[|log| - 1]) then 1 else 0
  }

  lemma {:induction false} CountConcat(a: seq<Command>, b: seq<Command>, which: Command -> bool)
    ensures Count(a + b, which) == Count(a, which) + Count(b, which)
    decreases |b|
  {
    if b == [] {
      assert a + b == a;
    } else {
      assert (a + b)[..|a + b| - 1] == a + b[..|b| - 1];
      CountConcat(a, b[..|b| - 1], which);
    }
  }

  predicate IsRestart(command: Command) { command == SendRestart }

  predicate IsReap(command: Command) { command.Reap? }

  predicate IsBuildingStatus(command: Command) { command == SendStatus(false) }

  predicate IsFailedStatus(command: Command) { command == SendStatus(true) }

  /** How often a run begins a step of some kind while a server, direct or handed off, runs. */
  function WhileServing(w: World, actions: seq<Action>, which: Action -> bool): nat
    decreases |actions|
  {
    if actions == [] then 0
    else
      var front, last := actions[..|actions| - 1], actions[|actions| - 1];
      WhileServing(w, front, which) +
      if After(w, front).Some? && Serving(After(w, front).value) != NotStarted && which(last) then 1 else 0
  }

  predicate IsPublish(a: Action) { a == FinishBuild(Published) }

  predicate IsBegin(a: Action) { a == BeginRebuild }

  /** A build that fails, or a handoff the server answers in time with a failure. */
  predicate IsFailure(a: Action) {
    (a.FinishBuild? && a.build != Published) || a == Request(FailedInTime)
  }

  /** A running server has been published for and not yet been told to restart. */
  predicate OwesRestart(w: World) {
    Serving(w) != NotStarted && (w.point == Advancing || w.point.Reaping? || w.point == Requesting)
  }

  /** The first handoff has been asked for. */
  predicate HasReaped(w: World) {
    Serving(w) == HandedOff
  }

  ghost predicate CountsFit(w: World, restarts: nat, begun: nat, failed: nat) {
    Count(w.dev.log, IsRestart) + (if OwesRestart(w) then 1 else 0) == restarts &&
    Count(w.dev.log, IsReap) == (if HasReaped(w) then 1 else 0) &&
    Count(w.dev.log, IsBuildingStatus) == begun &&
    Count(w.dev.log, IsFailedStatus) == failed
  }

  lemma CountOne(command: Command, which: Command -> bool)
    ensures Count([command], which) == if which(command) then 1 else 0
  {
    assert [command][..0] == [];
  }

  lemma CountStep(w: World, a: Action, which: Command -> bool)
    requires Enabled(w, a)
    ensures Count(Next(w, a).dev.log, which) == Count(w.dev.log, which) + Count(StepSends(w, a), which)
  {
    StepSendsExactly(w, a);
    CountConcat(w.dev.log, StepSends(w, a), which);
  }

  lemma CountSends(w: World, a: Action, which: Command -> bool)
    requires Enabled(w, a)
    ensures var sends := StepSends(w, a);
            Count(sends, which) ==
            (if |sends| > 0 && which(sends[0]) then 1 else 0) + (if |sends| > 1 && which(sends[1]) then 1 else 0)
  {
    var sends := StepSends(w, a);
    if |sends| == 1 {
      CountOne(sends[0], which);
      assert sends == [sends[0]];
    } else if |sends| == 2 {
      CountOne(sends[0], which);
      CountOne(sends[1], which);
      CountConcat([sends[0]], [sends[1]], which);
      assert sends == [sends[0]] + [sends[1]];
    }
  }

  /** The three counts that one step adds to. */
  function Tick(w: World, a: Action, which: Action -> bool): nat {
    if Serving(w) != NotStarted && which(a) then 1 else 0
  }

  lemma StepKeepsCounts(w: World, a: Action, restarts: nat, begun: nat, failed: nat)
    requires SocketInv(w) && CountsFit(w, restarts, begun, failed) && Enabled(w, a) && !a.Handle?
    ensures CountsFit(Next(w, a), restarts + Tick(w, a, IsPublish), begun + Tick(w, a, IsBegin),
                      failed + Tick(w, a, IsFailure))
  {
    hide Count, Next;
    CountStep(w, a, IsRestart);
    CountStep(w, a, IsReap);
    CountStep(w, a, IsBuildingStatus);
    CountStep(w, a, IsFailedStatus);
    CountSends(w, a, IsRestart);
    CountSends(w, a, IsReap);
    CountSends(w, a, IsBuildingStatus);
    CountSends(w, a, IsFailedStatus);
    OwedAfter(w, a);
  }

  /** How a step moves what is owed and what has been reaped. */
  lemma OwedAfter(w: World, a: Action)
    requires SocketInv(w) && Enabled(w, a) && !a.Handle?
    ensures OwesRestart(Next(w, a)) <==>
            (OwesRestart(w) && !a.Request?) || (a == FinishBuild(Published) && Serving(w) != NotStarted)
    ensures HasReaped(Next(w, a)) <==> HasReaped(w) || a.ReapChild?
    ensures a.ReapChild? ==> !HasReaped(w)
    ensures a.Request? ==> OwesRestart(w)
  {
  }

  lemma {:induction false} RunsKeepCounts(generation: nat, actions: seq<Action>)
    requires After(Initial(generation), actions).Some? && !After(Initial(generation), actions).value.exited
    ensures CountsFit(After(Initial(generation), actions).value,
                      WhileServing(Initial(generation), actions, IsPublish),
                      WhileServing(Initial(generation), actions, IsBegin),
                      WhileServing(Initial(generation), actions, IsFailure))
    decreases |actions|
  {
    if actions != [] {
      var sofar, last := actions[..|actions| - 1], actions[|actions| - 1];
      RunsKeepCounts(generation, sofar);
      LivingRunsKeepInv(generation, sofar);
      hide CountsFit, Next, Enabled;
      StepKeepsCounts(After(Initial(generation), sofar).value, last,
                      WhileServing(Initial(generation), sofar, IsPublish),
                      WhileServing(Initial(generation), sofar, IsBegin),
                      WhileServing(Initial(generation), sofar, IsFailure));
    }
  }

  /**
   * In every interleaving, whenever the mutex is free: RESTART has been sent once for each
   * build published while a server ran and never otherwise; the one direct child has been
   * reaped once if there has been a handoff and not before; "building" has been sent once for
   * each rebuild begun while a server ran, and "failed" once for each one that then failed to
   * build or publish, or whose handoff the server reported as failed.
   */
  lemma CommandsAreCounted(generation: nat, actions: seq<Action>)
    requires After(Initial(generation), actions).Some?
    requires !After(Initial(generation), actions).value.exited && After(Initial(generation), actions).value.lock.Free?
    ensures var w, log := After(Initial(generation), actions).value, After(Initial(generation), actions).value.dev.log;
            Count(log, IsRestart) == WhileServing(Initial(generation), actions, IsPublish) &&
            Count(log, IsReap) == (if w.dev.server == HandedOff then 1 else 0) &&
            Count(log, IsBuildingStatus) == WhileServing(Initial(generation), actions, IsBegin) &&
            Count(log, IsFailedStatus) == WhileServing(Initial(generation), actions, IsFailure)
  {
    LivingRunsKeepInv(generation, actions);
    RunsKeepCounts(generation, actions);
  }

  /** Ctrl+C can come whenever the mutex is free, and the handler then runs to its end. */
  lemma CtrlCIsAlwaysPossible(w: World)
    requires !w.exited && w.lock.Free?
    ensures Enabled(w, Interrupt) && Enabled(Next(w, Interrupt), Handle)
    ensures Next(Next(w, Interrupt), Handle).exited
  {
  }
}
