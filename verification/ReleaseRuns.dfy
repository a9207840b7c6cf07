/**
 * Whole runs over one releases directory: `xr dev` sessions, deploys, boots and
 * outside corruption in any order, with every failure except that of a small write.
 */
module ReleaseRuns {
  import opened Outcomes
  import opened Decimals
  import opened SlotNames
  import opened ReleaseStore

  /**
   * `session` is the generation counter of the running `xr dev`, if one runs;
   * `intact` records which existing files a successful publish returned.
   */
  datatype World = World(store: Store, session: Option<nat>, intact: set<Path>)

  datatype Step =
    | StartDev(names: seq<string>)
    | DevPublish(source: File, extension: Option<string>, fault: PublishFault,
                 listed: set<string>, removable: set<string>)
    | DevPrune(listed: set<string>, removable: set<string>)
    | Deploy(names: seq<string>, source: File, extension: Option<string>, fault: PublishFault,
             listed: set<string>, removable: set<string>)
    | BootService(names: seq<string>, removeOk: bool, sentinelOk: bool, sentinelLeft: Option<Path>)
    | Corrupt(path: Path, contents: File)

  /** Directory listings are complete, and small writes (pointer, not copies) succeed. */
  ghost predicate Enabled(w: World, step: Step) {
    match step
    case StartDev(names) => Lists(w.store.files, names)
    case DevPublish(_, _, fault, _, _) => w.session.Some? && !fault.PointerFails?
    case DevPrune(_, _) => w.session.Some?
    case Deploy(names, _, _, fault, _, _) => Lists(w.store.files, names) && !fault.PointerFails?
    case BootService(names, _, _, _) => Lists(w.store.files, names)
    case Corrupt(path, _) => path in w.store.files
  }

  /** The slot number a publishing step uses. */
  function Generation(w: World, step: Step): nat
    requires (step.DevPublish? && w.session.Some?) || step.Deploy?
  {
    if step.DevPublish? then w.session.value + 1 else NextGeneration(step.names, RELEASE_PREFIX)
  }

  function PrefixOf(step: Step): string {
    if step.DevPublish? then "dev" else RELEASE_PREFIX
  }

  /** Publish, and on success prune with the same number. */
  function PublishThenPrune(s: Store, step: Step, generation: nat): (Store, Option<Path>)
    requires step.DevPublish? || step.Deploy?
  {
    var (s1, slot) := Publish(s, step.source, PrefixOf(step), generation, step.extension, step.fault);
    (if slot.Some? then Prune(s1, PrefixOf(step), generation, step.listed, step.removable) else s1, slot)
  }

  function SlotOf(step: Step, generation: nat): Path
    requires step.DevPublish? || step.Deploy?
  {
    InReleases(SlotName(PrefixOf(step), generation, step.extension))
  }

  /** What a boot of the run meets: its pointer write succeeds. */
  function FaultsOf(step: Step): BootFaults
    requires step.BootService?
  {
    BootFaults(step.removeOk, true, Missing, step.sentinelOk, step.sentinelLeft)
  }

  function Next(w: World, step: Step): World
    requires step.DevPublish? || step.DevPrune? ==> w.session.Some?
  {
    match step
    case StartDev(names) => w.(session := Some(StartingGeneration(names)))
    case DevPrune(listed, removable) => Settle(w, Prune(w.store, "dev", w.session.value, listed, removable))
    case BootService(names, _, _, _) => Settle(w, Boot(w.store, names, FaultsOf(step)).0)
    case Corrupt(path, contents) => w.(store := w.store.(files := w.store.files[path := contents]))
    case _ =>
      var generation := Generation(w, step);
      var (store, slot) := PublishThenPrune(w.store, step, generation);
      World(store,
            if step.DevPublish? && slot.Some? then Some(generation) else w.session,
            ((w.intact - {SlotOf(step, generation)}) +
             if slot.Some? then {SlotOf(step, generation)} else {}) * store.files.Keys)
  }

  /** Files that are gone are no longer intact. */
  function Settle(w: World, store: Store): World {
    w.(store := store, intact := w.intact * store.files.Keys)
  }

  // ----- what every step keeps -----

  /** Every numbered slot on disk, and the session's counter, is at most `bound`. */
  ghost predicate Bounded(w: World, bound: nat) {
    (forall name :: InReleases(name) in w.store.files ==> SlotAtMost(name, bound)) &&
    (w.session.Some? ==> w.session.value <= bound)
  }

  predicate SlotAtMost(name: string, bound: nat) {
    (ParseSlot("dev", name).Some? ==> ParseSlot("dev", name).value <= bound) &&
    (ParseSlot(RELEASE_PREFIX, name).Some? ==> ParseSlot(RELEASE_PREFIX, name).value <= bound)
  }

  /** The pointer, once set, names an existing file. */
  ghost predicate PointerIsGood(s: Store) {
    s.pointer.Names? ==> s.pointer.path in s.files
  }

  /** The session has counted past every slot it or an earlier session handed out. */
  ghost predicate SessionIsAhead(w: World) {
    w.session.Some? ==>
      forall name :: InReleases(name) in w.intact && ParseSlot("dev", name).Some? ==>
        ParseSlot("dev", name).value <= w.session.value
  }

  ghost predicate Inv(w: World) {
    PointerIsGood(w.store) && w.intact <= w.store.files.Keys && SessionIsAhead(w)
  }

  /** The step writes its slot over a file that a publish returned and that still exists. */
  predicate OverwritesIntact(w: World, step: Step)
    requires step.DevPublish? ==> w.session.Some?
  {
    (step.DevPublish? || step.Deploy?) && SlotOf(step, Generation(w, step)) in w.intact
  }

  lemma HasRoomBelow(w: World, names: seq<string>, prefix: string, bound: nat)
    requires Bounded(w, bound) && bound + 1 < U64_LIMIT && Lists(w.store.files, names) &&
             prefix in {"dev", RELEASE_PREFIX}
    ensures HasRoom(names, prefix)
    ensures NextGeneration(names, prefix) <= bound + 1
  {
    ExistingGenerationsIsExact(names, prefix);
    var existing := ExistingGenerations(names, prefix);
    if existing != [] {
      assert existing[0] in existing;
    }
  }

  /** Both counters hand out numbers whose slots are not intact files. */
  lemma PublishIsFresh(w: World, step: Step, bound: nat)
    requires Inv(w) && Bounded(w, bound) && bound + 1 < U64_LIMIT && Enabled(w, step)
    requires step.DevPublish? || step.Deploy?
    ensures !OverwritesIntact(w, step)
    ensures Generation(w, step) <= bound + 1
  {
    var generation := Generation(w, step);
    if step.Deploy? {
      HasRoomBelow(w, step.names, RELEASE_PREFIX, bound);
      NextGenerationIsFreshExactly(step.names, RELEASE_PREFIX);
    }
    ParseSlotName(PrefixOf(step), generation, step.extension);
  }

  /** Publishing and pruning add at most the slot, and lose nothing unless the pointer has moved to it. */
  lemma PublishFrame(s: Store, step: Step, generation: nat)
    requires (step.DevPublish? || step.Deploy?) && !step.fault.PointerFails?
    ensures var (s', slot) := PublishThenPrune(s, step, generation);
            s'.files.Keys <= s.files.Keys + {SlotOf(step, generation)} &&
            (slot.None? ==> s.files.Keys <= s'.files.Keys && s'.pointer == s.pointer) &&
            (slot.Some? ==> s'.pointer == Names(SlotOf(step, generation)) && SlotOf(step, generation) in s'.files)
  {
  }

  lemma PublishKeepsBound(w: World, step: Step, bound: nat)
    requires Inv(w) && Bounded(w, bound) && bound + 1 < U64_LIMIT && Enabled(w, step)
    requires step.DevPublish? || step.Deploy?
    ensures Bounded(Next(w, step), bound + 1)
  {
    PublishIsFresh(w, step, bound);
    var generation := Generation(w, step);
    var slot := SlotOf(step, generation);
    PublishFrame(w.store, step, generation);
    ParseSlotName(PrefixOf(step), generation, step.extension);
    PrefixesAreSeparate(slot.name);
    forall name | InReleases(name) in Next(w, step).store.files ensures SlotAtMost(name, bound + 1) {
      if InReleases(name) != slot {
        assert SlotAtMost(name, bound);
      }
    }
  }

  lemma PublishKeepsInv(w: World, step: Step, bound: nat)
    requires Inv(w) && Bounded(w, bound) && bound + 1 < U64_LIMIT && Enabled(w, step)
    requires step.DevPublish? || step.Deploy?
    ensures Inv(Next(w, step))
  {
    PublishIsFresh(w, step, bound);
    var generation := Generation(w, step);
    var slot := SlotOf(step, generation);
    PublishFrame(w.store, step, generation);
    ParseSlotName(PrefixOf(step), generation, step.extension);
    PrefixesAreSeparate(slot.name);
    var w' := Next(w, step);
    forall name | InReleases(name) in w'.intact && ParseSlot("dev", name).Some? && w'.session.Some?
      ensures ParseSlot("dev", name).value <= w'.session.value
    {
      assert InReleases(name) == slot || InReleases(name) in w.intact;
    }
  }

  lemma StepKeepsInv(w: World, step: Step, bound: nat)
    requires Inv(w) && Bounded(w, bound) && bound + 1 < U64_LIMIT && Enabled(w, step)
    ensures Inv(Next(w, step)) && Bounded(Next(w, step), bound + 1)
  {
    match step
    case StartDev(names) =>
      HasRoomBelow(w, names, "dev", bound);
      SessionStartsAtTheMaximum(names);
    case BootService(names, _, _, _) =>
      if ChooseRelease(Target(w.store.pointer), ExistingGenerations(names, RELEASE_PREFIX), w.store.files).FellBackTo? {
        FallbackIsTheBest(w.store, names);
      }
    case DevPrune(_, _) =>
    case Corrupt(_, _) =>
    case _ =>
      PublishKeepsInv(w, step, bound);
      PublishKeepsBound(w, step, bound);
  }

  // ----- runs -----

  /**
   * Along the run, as far as each step is enabled: no publish writes over an intact
   * slot, and after every step the current-release file points at an existing one if it points at any.
   */
  ghost predicate SafeRun(w: World, steps: seq<Step>)
    decreases |steps|
  {
    steps == [] || !Enabled(w, steps[0]) ||
    (!OverwritesIntact(w, steps[0]) &&
     PointerIsGood(Next(w, steps[0]).store) &&
     SafeRun(Next(w, steps[0]), steps[1..]))
  }

  /** Every run is safe that has 64-bit numbers left for all its steps. */
  lemma {:induction false} EveryRunIsSafe(w: World, steps: seq<Step>, bound: nat)
    requires Inv(w) && Bounded(w, bound) && bound + |steps| < U64_LIMIT
    ensures SafeRun(w, steps)
    decreases |steps|
  {
    if steps != [] && Enabled(w, steps[0]) {
      if steps[0].DevPublish? || steps[0].Deploy? {
        PublishIsFresh(w, steps[0], bound);
      }
      StepKeepsInv(w, steps[0], bound);
      EveryRunIsSafe(Next(w, steps[0]), steps[1..], bound + 1);
    }
  }

  /** A successful publish or fallback puts the pointer on an existing file from any state. */
  lemma PublishSetsThePointer(s: Store, step: Step, generation: nat)
    requires (step.DevPublish? || step.Deploy?) && step.fault.NoFault?
    ensures PublishThenPrune(s, step, generation).0.pointer == Names(SlotOf(step, generation))
    ensures PointerIsGood(PublishThenPrune(s, step, generation).0)
  {
  }

  /** The rule for what a deploy or a session's publish keeps of its own prefix. */
  predicate IsKept(prefix: string, current: nat, path: Path) {
    path.InReleases? && ParseSlot(prefix, path.name).Some? ==>
      ParseSlot(prefix, path.name).value + 2 >= current || (ParseSlot(prefix, path.name).value == 0 && current == 3)
  }

  /** After `step`: `slot` is there and named by the pointer, of the other files exactly the kept ones, unchanged. */
  ghost predicate PublishedAndPruned(w: World, w': World, prefix: string, current: nat, slot: Path) {
    w'.store.pointer == Names(slot) && w'.store.sentinel == w.store.sentinel && slot in w'.store.files &&
    forall path :: path != slot ==>
      (path in w'.store.files <==> path in w.store.files && IsKept(prefix, current, path)) &&
      (path in w'.store.files ==> w'.store.files[path] == w.store.files[path])
  }

  ghost predicate AllCanGo(files: map<Path, File>, listed: set<string>, removable: set<string>) {
    forall path :: path in files && path.InReleases? ==> path.name in listed && path.name in removable
  }

  lemma PublishThenPruneIsExact(w: World, step: Step, current: nat)
    requires (step.DevPublish? && w.session.Some?) || step.Deploy?
    requires Generation(w, step) == current && AllCanGo(w.store.files, step.listed, step.removable)
    requires step.fault == NoFault
    ensures PublishedAndPruned(w, Next(w, step), PrefixOf(step), current, SlotOf(step, current))
  {
    var s1 := Publish(w.store, step.source, PrefixOf(step), current, step.extension, NoFault).0;
    PublishIsExact(w.store, step.source, PrefixOf(step), current, step.extension, NoFault);
    forall path ensures path != SlotOf(step, current) ==>
      (path in Next(w, step).store.files <==> path in w.store.files && IsKept(PrefixOf(step), current, path)) &&
      (path in Next(w, step).store.files ==> Next(w, step).store.files[path] == w.store.files[path])
    {
      PruneIsExact(s1, PrefixOf(step), current, step.listed, step.removable, path);
    }
    PruneIsExact(s1, PrefixOf(step), current, step.listed, step.removable, SlotOf(step, current));
  }

  /** A deploy takes one above the newest release, publishes under it, and keeps the last three releases. */
  lemma DeployIsExact(w: World, names: seq<string>, source: File, extension: Option<string>,
                      listed: set<string>, removable: set<string>)
    requires Lists(w.store.files, names) && AllCanGo(w.store.files, listed, removable)
    ensures var step := Deploy(names, source, extension, NoFault, listed, removable);
            var g := NextGeneration(names, "release");
            Enabled(w, step) &&
            PublishedAndPruned(w, Next(w, step), "release", g, InReleases(SlotName("release", g, extension)))
  {
    var step := Deploy(names, source, extension, NoFault, listed, removable);
    PublishThenPruneIsExact(w, step, Generation(w, step));
  }

  /** A session takes the number after its counter, moves the counter there, and keeps its last three slots. */
  lemma DevPublishIsExact(w: World, source: File, extension: Option<string>,
                          listed: set<string>, removable: set<string>)
    requires w.session.Some? && AllCanGo(w.store.files, listed, removable)
    ensures var step := DevPublish(source, extension, NoFault, listed, removable);
            var g := w.session.value + 1;
            Enabled(w, step) && Next(w, step).session == Some(g) &&
            PublishedAndPruned(w, Next(w, step), "dev", g, InReleases(SlotName("dev", g, extension)))
  {
    PublishThenPruneIsExact(w, DevPublish(source, extension, NoFault, listed, removable), w.session.value + 1);
  }

  /** A publish that fails prunes nothing: every file but the one it was writing stays as it was. */
  lemma AFailedPublishPrunesNothing(w: World, step: Step, path: Path)
    requires (step.DevPublish? && w.session.Some?) || step.Deploy?
    requires step.fault != NoFault && path != SlotOf(step, Generation(w, step))
    ensures var w' := Next(w, step);
            w'.session == w.session && w'.store.sentinel == w.store.sentinel &&
            (!step.fault.PointerFails? ==> w'.store.pointer == w.store.pointer) &&
            (path in w'.store.files <==> path in w.store.files) &&
            (path in w.store.files ==> w'.store.files[path] == w.store.files[path])
  {
  }

  /** The prune an idle session repeats is the same rule with its counter. */
  lemma DevPruneIsExact(w: World, listed: set<string>, removable: set<string>, path: Path)
    requires w.session.Some? && AllCanGo(w.store.files, listed, removable) && w.store.pointer != Unreadable
    ensures var w' := Next(w, DevPrune(listed, removable));
            Enabled(w, DevPrune(listed, removable)) && w'.session == w.session && w'.store.pointer == w.store.pointer &&
            (path in w'.store.files <==>
               path in w.store.files && (IsKept("dev", w.session.value, path) || w.store.pointer == Names(path)))
  {
    PruneIsExact(w.store, "dev", w.session.value, listed, removable, path);
  }

  /** Sessions, boots and corruption are possible in every world, with a complete listing. */
  lemma OtherStepsAreEnabled(w: World, names: seq<string>, removeOk: bool, sentinelOk: bool, left: Option<Path>)
    requires Lists(w.store.files, names)
    ensures Enabled(w, StartDev(names)) && Enabled(w, BootService(names, removeOk, sentinelOk, left))
    ensures forall path, contents :: path in w.store.files ==>
            Enabled(w, Corrupt(path, contents)) &&
            Next(w, Corrupt(path, contents)).store == w.store.(files := w.store.files[path := contents])
    ensures Next(w, BootService(names, removeOk, sentinelOk, left)).store ==
            Boot(w.store, names, BootFaults(removeOk, true, Missing, sentinelOk, left)).0
    ensures Next(w, StartDev(names)) == w.(session := Some(StartingGeneration(names)))
  {
  }

  /** What was published is what the service then runs, if it is a program at all. */
  lemma DeployThenBoot(s: Store, step: Step, generation: nat, names: seq<string>, faults: BootFaults)
    requires (step.DevPublish? || step.Deploy?) && step.fault.NoFault?
    requires step.source.isFile && ELF_MAGIC <= step.source.bytes
    ensures var s' := PublishThenPrune(s, step, generation).0;
            s'.files[SlotOf(step, generation)].bytes == step.source.bytes &&
            Boot(s', names, faults) == (s', Runs(SlotOf(step, generation), false))
  {
    PublishSetsThePointer(s, step, generation);
    assert step.source.bytes != [];
  }

  // ----- rebuilds -----

  /** A fallback: the path that was bad, and what the sentinel holds if it triggers a rebuild. */
  datatype Fallback = Fallback(bad: Path, leaves: Option<Path>)

  predicate FallsBack(w: World, step: Step) {
    step.BootService? &&
    ChooseRelease(Target(w.store.pointer), ExistingGenerations(step.names, RELEASE_PREFIX), w.store.files).FellBackTo?
  }

  function FallbackOf(w: World, step: Step): seq<Fallback> {
    if FallsBack(w, step) then
      [Fallback(w.store.pointer.path, SentinelAfter(w.store.pointer.path, step.sentinelOk, step.sentinelLeft))]
    else []
  }

  function RebuildOf(w: World, step: Step): seq<Path> {
    if step.BootService? && Boot(w.store, step.names, FaultsOf(step)).1.Runs? &&
       Boot(w.store, step.names, FaultsOf(step)).1.rebuild
    then [w.store.pointer.path] else []
  }

  predicate CanStep(w: World, step: Step) {
    step.DevPublish? || step.DevPrune? ==> w.session.Some?
  }

  /** The fallbacks along the boots of a run. */
  function Fallbacks(w: World, steps: seq<Step>): seq<Fallback>
    decreases |steps|
  {
    if steps == [] || !CanStep(w, steps[0]) then []
    else FallbackOf(w, steps[0]) + Fallbacks(Next(w, steps[0]), steps[1..])
  }

  function Rebuilds(w: World, steps: seq<Step>): seq<Path>
    decreases |steps|
  {
    if steps == [] || !CanStep(w, steps[0]) then []
    else RebuildOf(w, steps[0]) + Rebuilds(Next(w, steps[0]), steps[1..])
  }

  /** The bad paths that are not the recorded one; only a path that triggers a rebuild changes the record. */
  function Triggered(recorded: Option<Path>, fallbacks: seq<Fallback>): seq<Path>
    decreases |fallbacks|
  {
    if fallbacks == [] then []
    else if recorded == Some(fallbacks[0].bad) then Triggered(recorded, fallbacks[1..])
    else [fallbacks[0].bad] + Triggered(fallbacks[0].leaves, fallbacks[1..])
  }

  lemma TriggeredCons(recorded: Option<Path>, first: Fallback, rest: seq<Fallback>)
    ensures Triggered(recorded, [first] + rest) ==
            if recorded == Some(first.bad) then Triggered(recorded, rest)
            else [first.bad] + Triggered(first.leaves, rest)
  {
    assert ([first] + rest)[1..] == rest;
  }

  /** One step: a fallback rebuilds exactly when its bad path is not the one recorded. */
  lemma StepRebuilds(w: World, step: Step)
    requires CanStep(w, step)
    ensures var recorded, recorded', fallbacks := w.store.sentinel, Next(w, step).store.sentinel, FallbackOf(w, step);
            if fallbacks == [] || recorded == Some(fallbacks[0].bad) then
              RebuildOf(w, step) == [] && recorded' == recorded
            else
              RebuildOf(w, step) == [fallbacks[0].bad] && recorded' == fallbacks[0].leaves
  {
  }

  /**
   * Over every run the rebuilds triggered are the fallbacks whose bad path is not the one
   * recorded, where a rebuild records its path or, if that write fails, leaves what it leaves.
   */
  lemma {:induction false} RebuildsExactly(w: World, steps: seq<Step>)
    ensures Rebuilds(w, steps) == Triggered(w.store.sentinel, Fallbacks(w, steps))
    decreases |steps|
  {
    hide FallbackOf, RebuildOf, Next;
    if steps != [] && CanStep(w, steps[0]) {
      var w', fallbacks := Next(w, steps[0]), FallbackOf(w, steps[0]);
      var rest := Fallbacks(w', steps[1..]);
      RebuildsExactly(w', steps[1..]);
      StepRebuilds(w, steps[0]);
      AtMostOneFallback(w, steps[0]);
      if fallbacks == [] {
        assert fallbacks + rest == rest;
      } else {
        TriggeredCons(w.store.sentinel, fallbacks[0], rest);
      }
    }
  }

  lemma AtMostOneFallback(w: World, step: Step)
    ensures FallbackOf(w, step) == [] || FallbackOf(w, step) == [FallbackOf(w, step)[0]]
  {
  }

  function BadPaths(fallbacks: seq<Fallback>): seq<Path> {
    seq(|fallbacks|, i requires 0 <= i < |fallbacks| => fallbacks[i].bad)
  }

  /** The elements that differ from their predecessor, `previous` being that of the first. */
  function Changes(previous: Option<Path>, paths: seq<Path>): seq<Path>
    decreases |paths|
  {
    if paths == [] then []
    else (if previous == Some(paths[0]) then [] else [paths[0]]) + Changes(Some(paths[0]), paths[1..])
  }

  lemma {:induction false} TriggeredAreChanges(recorded: Option<Path>, fallbacks: seq<Fallback>)
    requires forall i :: 0 <= i < |fallbacks| ==> fallbacks[i].leaves == Some(fallbacks[i].bad)
    ensures Triggered(recorded, fallbacks) == Changes(recorded, BadPaths(fallbacks))
    decreases |fallbacks|
  {
    if fallbacks != [] {
      assert BadPaths(fallbacks)[1..] == BadPaths(fallbacks[1..]);
      TriggeredAreChanges(Some(fallbacks[0].bad), fallbacks[1..]);
    }
  }

  lemma {:induction false} WrittenFallbacksLeaveTheirPath(w: World, steps: seq<Step>)
    requires forall i :: 0 <= i < |steps| && steps[i].BootService? ==> steps[i].sentinelOk
    ensures forall i :: 0 <= i < |Fallbacks(w, steps)| ==>
            Fallbacks(w, steps)[i].leaves == Some(Fallbacks(w, steps)[i].bad)
    decreases |steps|
  {
    if steps != [] && CanStep(w, steps[0]) {
      WrittenFallbacksLeaveTheirPath(Next(w, steps[0]), steps[1..]);
    }
  }

  /**
   * In particular, where every sentinel write succeeds, the rebuilds are the fallbacks whose
   * bad path differs from that of the fallback before.
   */
  lemma RebuildsAreTheChanges(w: World, steps: seq<Step>)
    requires forall i :: 0 <= i < |steps| && steps[i].BootService? ==> steps[i].sentinelOk
    ensures Rebuilds(w, steps) == Changes(w.store.sentinel, BadPaths(Fallbacks(w, steps)))
  {
    RebuildsExactly(w, steps);
    WrittenFallbacksLeaveTheirPath(w, steps);
    TriggeredAreChanges(w.store.sentinel, Fallbacks(w, steps));
  }

  const ONE := SlotName(RELEASE_PREFIX, 1, None)
  const TWO := SlotName(RELEASE_PREFIX, 2, None)
  const OLDER := InReleases(ONE)
  const NEWER := InReleases(TWO)
  const INCIDENT := Fallback(NEWER, Some(NEWER))

  predicate IsGood(file: File) {
    file.isFile && file.executable && file.readable && ELF_MAGIC <= file.bytes
  }

  /** The service's two good releases, the newer one current. */
  function TwoReleases(good: File, sentinel: Option<Path>): Store {
    Store(map[OLDER := good, NEWER := good], Names(NEWER), sentinel)
  }

  /** The newer release goes bad and the service is started again. */
  function Incident(bad: File): seq<Step> {
    [Corrupt(NEWER, bad)] + [BootService([ONE, TWO], true, true, None)]
  }

  function Redeploy(good: File): Step {
    Deploy([ONE], good, None, NoFault, {}, {})
  }

  /** The same slot goes bad, is published anew under the freed number, and goes bad again. */
  function TwoIncidents(good: File, bad: File): seq<Step> {
    Incident(bad) + ([Redeploy(good)] + Incident(bad))
  }

  /**
   * Slot numbers are not always new: a boot that removes the newest release frees its
   * number, and the next deploy takes it again. When that second release goes bad too,
   * the sentinel takes the new incident for the old one and no rebuild is triggered.
   */
  lemma AReusedNumberSilencesTheRebuild(good: File, bad: File)
    requires IsGood(good) && bad.bytes == []
    ensures var w := World(TwoReleases(good, None), None, {});
            Fallbacks(w, TwoIncidents(good, bad)) == [INCIDENT, INCIDENT] &&
            Rebuilds(w, TwoIncidents(good, bad)) == [NEWER]
  {
    hide Fallbacks, Rebuilds;
    var w, run := World(TwoReleases(good, None), None, {}), TwoIncidents(good, bad);
    TwoFallbacks(w, good, bad);
    RebuildsExactly(w, run);
    TriggeredCons(None, INCIDENT, [INCIDENT]);
    TriggeredCons(Some(NEWER), INCIDENT, []);
    assert [INCIDENT] + [INCIDENT] == [INCIDENT, INCIDENT] && [INCIDENT] + [] == [INCIDENT];
  }

  lemma TwoFallbacks(w: World, good: File, bad: File)
    requires IsGood(good) && bad.bytes == [] && w.store == TwoReleases(good, None)
    ensures Fallbacks(w, TwoIncidents(good, bad)) == [INCIDENT, INCIDENT]
  {
    var w1 := AfterIncident(w, good, bad, [Redeploy(good)] + Incident(bad));
    FallbacksCons(w1, Redeploy(good), Incident(bad));
    RedeployRestores(w1, good);
    var w3 := AfterIncident(Next(w1, Redeploy(good)), good, bad, []);
    assert Incident(bad) + [] == Incident(bad);
  }

  lemma RedeployRestores(w: World, good: File)
    requires IsGood(good) && w.store == Store(map[OLDER := good], Names(OLDER), Some(NEWER))
    ensures Next(w, Redeploy(good)).store == TwoReleases(good, Some(NEWER))
  {
    SlotsOneAndTwo();
    assert NextGeneration([ONE], RELEASE_PREFIX) == 2;
    assert SlotOf(Redeploy(good), 2) == NEWER;
    assert good.(executable := true, readable := true) == good;
    assert Publish(w.store, good, RELEASE_PREFIX, 2, None, NoFault).0 == TwoReleases(good, Some(NEWER));
  }

  lemma FallbacksCons(w: World, step: Step, rest: seq<Step>)
    requires CanStep(w, step)
    ensures Fallbacks(w, [step] + rest) == FallbackOf(w, step) + Fallbacks(Next(w, step), rest)
  {
    assert ([step] + rest)[1..] == rest;
  }

  lemma AfterIncident(w: World, good: File, bad: File, rest: seq<Step>) returns (w': World)
    requires IsGood(good) && bad.bytes == []
    requires w.store == TwoReleases(good, w.store.sentinel) && w.store.sentinel in {None, Some(NEWER)}
    ensures w'.store == Store(map[OLDER := good], Names(OLDER), Some(NEWER))
    ensures Fallbacks(w, Incident(bad) + rest) == [INCIDENT] + Fallbacks(w', rest)
  {
    var corrupt, boot := Corrupt(NEWER, bad), BootService([ONE, TWO], true, true, None);
    assert Incident(bad) + rest == [corrupt] + ([boot] + rest);
    FallbacksCons(w, corrupt, [boot] + rest);
    var w1 := Next(w, corrupt);
    assert w1.store == w.store.(files := map[OLDER := good, NEWER := bad]);
    FallbacksCons(w1, boot, rest);
    BootsOlder(w1.store, good, bad);
    w' := Next(w1, boot);
  }

  lemma BootsOlder(s: Store, good: File, bad: File)
    requires IsGood(good) && bad.bytes == [] && s.sentinel in {None, Some(NEWER)}
    requires s.files == map[OLDER := good, NEWER := bad] && s.pointer == Names(NEWER)
    ensures Boot(s, [ONE, TWO], BootFaults(true, true, Missing, true, None)).0 ==
            Store(map[OLDER := good], Names(OLDER), Some(NEWER))
    ensures ChooseRelease(Target(s.pointer), ExistingGenerations([ONE, TWO], RELEASE_PREFIX), s.files).FellBackTo?
  {
    SlotsOneAndTwo();
    FallsBackToOlder(s, good, bad);
    assert s.files - {NEWER} == map[OLDER := good];
  }

  lemma SlotsOneAndTwo()
    ensures ONE != TWO
    ensures ExistingGenerations([ONE], RELEASE_PREFIX) == [(1, ONE)]
    ensures ExistingGenerations([ONE, TWO], RELEASE_PREFIX) == [(2, TWO), (1, ONE)]
  {
    ParseSlotName(RELEASE_PREFIX, 1, None);
    ParseSlotName(RELEASE_PREFIX, 2, None);
    TwoSlots(RELEASE_PREFIX, ONE, TWO);
  }

  lemma TwoSlots(prefix: string, one: string, two: string)
    requires ParseSlot(prefix, one) == Some(1) && ParseSlot(prefix, two) == Some(2)
    ensures one != two
    ensures ExistingGenerations([one], prefix) == [(1, one)]
    ensures ExistingGenerations([one, two], prefix) == [(2, two), (1, one)]
  {
    var names := [one, two];
    assert SlotsOf([], prefix) == [];
    assert [one][1..] == [] && [two][1..] == [] && names[1..] == [two];
    assert SlotsOf([one], prefix) == [(1, one)];
    assert SlotsOf([two], prefix) == [(2, two)];
    var pair: seq<Slot> := [(1, one), (2, two)];
    assert SlotsOf(names, prefix) == [(1, one)] + SlotsOf(names[1..], prefix);
    assert [(1, one)][1..] == [] && [(2, two)][1..] == [] && pair[1..] == [(2, two)];
    assert SortDescending([]) == [];
    assert SortDescending(pair[1..]) == [(2, two)];
  }

  lemma FallsBackToOlder(s: Store, good: File, bad: File)
    requires IsGood(good) && bad.bytes == []
    requires s.files == map[OLDER := good, NEWER := bad] && s.pointer == Names(NEWER)
    ensures ChooseRelease(Target(s.pointer), ExistingGenerations([ONE, TWO], RELEASE_PREFIX), s.files) ==
            FellBackTo(1, OLDER)
  {
    SlotsOneAndTwo();
    var candidates: seq<Slot> := [(2, TWO), (1, ONE)];
    assert candidates[1..] == [(1, ONE)];
    assert IsRunnable(s.files, OLDER) && !IsRunnable(s.files, NEWER);
    assert FirstUsable(candidates[1..], Target(s.pointer), s.files) == Some((1, ONE));
  }
}
