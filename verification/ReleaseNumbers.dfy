/**
 * When a slot number is handed out a second time. Publishing counts up from what is on
 * disk, so numbers go back exactly after a boot has removed the newest slot.
 */
module ReleaseNumbers {
  import opened Outcomes
  import opened Decimals
  import opened SlotNames
  import opened ReleaseStore
  import opened ReleaseRuns

  // ----- the newest slot on disk -----

  predicate IsSlot(files: map<Path, File>, prefix: string, name: string, generation: nat) {
    InReleases(name) in files && ParseSlot(prefix, name) == Some(generation)
  }

  ghost function Generations(files: map<Path, File>, prefix: string): set<nat> {
    set path | path in files && path.InReleases? && ParseSlot(prefix, path.name).Some? ::
      ParseSlot(prefix, path.name).value
  }

  ghost function MaxOf(numbers: set<nat>): (m: nat)
    ensures forall x :: x in numbers ==> x <= m
    ensures m > 0 ==> m in numbers
  {
    if numbers == {} then 0
    else
      var x :| x in numbers;
      assert forall y :: y in numbers ==> y == x || y in numbers - {x};
      var rest := MaxOf(numbers - {x});
      if rest < x then x else rest
  }

  /** The highest generation on disk, or 0. */
  ghost function Newest(files: map<Path, File>, prefix: string): nat {
    MaxOf(Generations(files, prefix))
  }

  lemma NewestIsHighest(files: map<Path, File>, prefix: string)
    ensures forall name, g: nat :: IsSlot(files, prefix, name, g) ==> g <= Newest(files, prefix)
    ensures Newest(files, prefix) > 0 ==> exists name :: IsSlot(files, prefix, name, Newest(files, prefix))
  {
    var all := Generations(files, prefix);
    forall name, g: nat | IsSlot(files, prefix, name, g) ensures g <= Newest(files, prefix) {
      assert InReleases(name) in files && g in all;
    }
    if Newest(files, prefix) > 0 {
      var path :| path in files && path.InReleases? && ParseSlot(prefix, path.name) == Some(Newest(files, prefix));
      assert IsSlot(files, prefix, path.name, Newest(files, prefix));
    }
  }

  lemma NewestIs(files: map<Path, File>, prefix: string, g: nat)
    requires forall name, h: nat :: IsSlot(files, prefix, name, h) ==> h <= g
    requires g > 0 ==> exists name :: IsSlot(files, prefix, name, g)
    ensures Newest(files, prefix) == g
  {
    NewestIsHighest(files, prefix);
  }

  /** Only the prefix's own slots matter. */
  lemma SameSlotsSameNewest(files: map<Path, File>, files': map<Path, File>, prefix: string)
    requires forall name, g: nat :: IsSlot(files', prefix, name, g) <==> IsSlot(files, prefix, name, g)
    ensures Newest(files', prefix) == Newest(files, prefix)
  {
    NewestIsHighest(files, prefix);
    NewestIs(files', prefix, Newest(files, prefix));
  }

  /** Numbering continues one above the newest slot, whatever order the directory lists. */
  lemma NumberingContinues(files: map<Path, File>, names: seq<string>, prefix: string)
    requires Lists(files, names) && HasRoom(names, prefix)
    ensures NextGeneration(names, prefix) == Newest(files, prefix) + 1
  {
    hide Newest, ExistingGenerations, ParseSlot;
    ExistingGenerationsIsExact(names, prefix);
    var existing := ExistingGenerations(names, prefix);
    var newest := if existing == [] then 0 else existing[0].0;
    forall name, g: nat | IsSlot(files, prefix, name, g) ensures g <= newest {
      assert (g, name) in existing;
      var i :| 0 <= i < |existing| && existing[i] == (g, name);
    }
    if existing != [] {
      assert existing[0] in existing;
      ParsedGenerationsFit(prefix, existing[0].1);
      assert IsSlot(files, prefix, existing[0].1, newest);
    }
    NewestIs(files, prefix, newest);
  }

  // ----- which steps move it -----

  /** The publish leaves a file under its number, complete or not. */
  predicate LeavesFile(fault: PublishFault) {
    match fault
    case NoDirectory => false
    case CopyFails(partial) => partial.Some?
    case _ => true
  }

  predicate TakesNumber(step: Step) {
    step.Deploy? && LeavesFile(step.fault)
  }

  /** `path` is a slot at or above `g`, and no other slot of the prefix is. */
  ghost predicate IsOnlySlotFrom(files: map<Path, File>, prefix: string, g: nat, path: Path) {
    path in files && path.InReleases? && ParseSlot(prefix, path.name).Some? &&
    ParseSlot(prefix, path.name).value >= g &&
    forall name, h: nat :: IsSlot(files, prefix, name, h) && h >= g ==> InReleases(name) == path
  }

  /** A fallback boot that removes the bad target it falls back from. */
  predicate RemovesTarget(w: World, step: Step) {
    FallsBack(w, step) && step.removeOk
  }

  /** It does, and the target is the only file of the newest release generation. */
  ghost predicate FreesNewest(w: World, step: Step) {
    RemovesTarget(w, step) && Newest(w.store.files, RELEASE_PREFIX) > 0 &&
    IsOnlySlotFrom(w.store.files, RELEASE_PREFIX, Newest(w.store.files, RELEASE_PREFIX), w.store.pointer.path)
  }

  /** What a boot leaves on disk. */
  lemma BootFiles(w: World, step: Step)
    requires step.BootService?
    ensures var files' := Next(w, step).store.files;
            (RemovesTarget(w, step) ==> w.store.pointer.Names?) &&
            files' == if RemovesTarget(w, step) then w.store.files - {w.store.pointer.path} else w.store.files
  {
  }

  lemma BootMovesNewest(w: World, step: Step)
    requires step.BootService?
    ensures var n, n' := Newest(w.store.files, RELEASE_PREFIX), Newest(Next(w, step).store.files, RELEASE_PREFIX);
            if FreesNewest(w, step) then n' < n else n' == n
  {
    hide FallsBack, Newest, Next;
    var files, files' := w.store.files, Next(w, step).store.files;
    BootFiles(w, step);
    NewestIsHighest(files, RELEASE_PREFIX);
    NewestIsHighest(files', RELEASE_PREFIX);
    var n := Newest(files, RELEASE_PREFIX);
    if FreesNewest(w, step) {
      var bad := w.store.pointer.path;
      assert IsSlot(files, RELEASE_PREFIX, bad.name, ParseSlot(RELEASE_PREFIX, bad.name).value);
      forall name, g: nat | IsSlot(files', RELEASE_PREFIX, name, g) ensures g < n {
        assert IsSlot(files, RELEASE_PREFIX, name, g);
      }
    } else if n > 0 && RemovesTarget(w, step) {
      SomeNewestStays(files, RELEASE_PREFIX, w.store.pointer.path);
      forall name, g: nat | IsSlot(files', RELEASE_PREFIX, name, g) ensures g <= n {
        assert IsSlot(files, RELEASE_PREFIX, name, g);
      }
      NewestIs(files', RELEASE_PREFIX, n);
    } else if n == 0 {
      forall name, g: nat | IsSlot(files', RELEASE_PREFIX, name, g) ensures g <= n {
        assert IsSlot(files, RELEASE_PREFIX, name, g);
      }
      NewestIs(files', RELEASE_PREFIX, 0);
    }
  }

  /** If the removed path was not the only newest slot, a newest slot is left. */
  lemma SomeNewestStays(files: map<Path, File>, prefix: string, path: Path)
    requires Newest(files, prefix) > 0 && !IsOnlySlotFrom(files, prefix, Newest(files, prefix), path)
    ensures exists name :: IsSlot(files - {path}, prefix, name, Newest(files, prefix))
  {
    hide Newest, ParseSlot;
    var n := Newest(files, prefix);
    NewestIsHighest(files, prefix);
    var name :| IsSlot(files, prefix, name, n);
    if InReleases(name) == path {
      var other, h: nat :| IsSlot(files, prefix, other, h) && h >= n && InReleases(other) != path;
      assert IsSlot(files - {path}, prefix, other, n);
    } else {
      assert IsSlot(files - {path}, prefix, name, n);
    }
  }

  function OtherPrefix(step: Step): string {
    if step.DevPublish? then RELEASE_PREFIX else "dev"
  }

  /** A file that is neither the published slot nor a slot of its prefix is left alone. */
  lemma PublishLeavesOthers(s: Store, step: Step, generation: nat, name: string)
    requires step.DevPublish? || step.Deploy?
    requires ParseSlot(PrefixOf(step), name).None? && InReleases(name) != SlotOf(step, generation)
    ensures InReleases(name) in PublishThenPrune(s, step, generation).0.files <==> InReleases(name) in s.files
  {
    hide ParseSlot, SlotName, PrefixOf;
    var s1 := Publish(s, step.source, PrefixOf(step), generation, step.extension, step.fault).0;
    assert InReleases(name) in s1.files <==> InReleases(name) in s.files;
  }

  lemma OtherSlotStays(s: Store, step: Step, generation: nat, name: string, g: nat)
    requires (step.DevPublish? || step.Deploy?) && generation < U64_LIMIT
    ensures IsSlot(PublishThenPrune(s, step, generation).0.files, OtherPrefix(step), name, g) <==>
            IsSlot(s.files, OtherPrefix(step), name, g)
  {
    hide PublishThenPrune, ParseSlot, SlotName;
    ParseSlotName(PrefixOf(step), generation, step.extension);
    PrefixesAreSeparate(SlotOf(step, generation).name);
    PrefixesAreSeparate(name);
    if ParseSlot(OtherPrefix(step), name) == Some(g) {
      PublishLeavesOthers(s, step, generation, name);
    }
  }

  /** So publishing one kind of slot does not move the newest of the other. */
  lemma OtherPrefixStays(s: Store, step: Step, generation: nat)
    requires (step.DevPublish? || step.Deploy?) && generation < U64_LIMIT
    ensures Newest(PublishThenPrune(s, step, generation).0.files, OtherPrefix(step)) ==
            Newest(s.files, OtherPrefix(step))
  {
    hide Newest, PublishThenPrune, IsSlot;
    var files' := PublishThenPrune(s, step, generation).0.files;
    forall name, g: nat
      ensures IsSlot(files', OtherPrefix(step), name, g) <==> IsSlot(s.files, OtherPrefix(step), name, g) {
      OtherSlotStays(s, step, generation, name, g);
    }
    SameSlotsSameNewest(s.files, files', OtherPrefix(step));
  }

  /** A publish that leaves a file makes its number the newest, if it is above all others; any other changes nothing. */
  lemma PublishMovesNewest(s: Store, step: Step, generation: nat)
    requires (step.DevPublish? || step.Deploy?) && Newest(s.files, PrefixOf(step)) < generation < U64_LIMIT
    ensures Newest(PublishThenPrune(s, step, generation).0.files, PrefixOf(step)) ==
            if LeavesFile(step.fault) then generation else Newest(s.files, PrefixOf(step))
  {
    hide Newest, PublishThenPrune, ParseSlot, SlotName;
    var prefix, files' := PrefixOf(step), PublishThenPrune(s, step, generation).0.files;
    var slot := SlotOf(step, generation);
    PublishFiles(s, step, generation);
    ParseSlotName(prefix, generation, step.extension);
    NewestIsHighest(s.files, prefix);
    if LeavesFile(step.fault) {
      assert IsSlot(files', prefix, slot.name, generation);
      forall name, g: nat | IsSlot(files', prefix, name, g) ensures g <= generation {
        assert InReleases(name) == slot || IsSlot(s.files, prefix, name, g);
      }
      NewestIs(files', prefix, generation);
    }
  }

  lemma PublishFiles(s: Store, step: Step, generation: nat)
    requires (step.DevPublish? || step.Deploy?) && generation < U64_LIMIT
    ensures var files', slot := PublishThenPrune(s, step, generation).0.files, SlotOf(step, generation);
            files'.Keys <= s.files.Keys + {slot} &&
            if LeavesFile(step.fault) then slot in files' else files' == s.files
  {
    hide ParseSlot, SlotName;
    ParseSlotName(PrefixOf(step), generation, step.extension);
  }

  lemma DeployMovesNewest(w: World, step: Step, bound: nat)
    requires Inv(w) && Bounded(w, bound) && bound + 1 < U64_LIMIT && Enabled(w, step) && step.Deploy?
    ensures var n := Newest(w.store.files, RELEASE_PREFIX);
            Generation(w, step) == n + 1 &&
            Newest(Next(w, step).store.files, RELEASE_PREFIX) == if TakesNumber(step) then n + 1 else n
  {
    HasRoomBelow(w, step.names, RELEASE_PREFIX, bound);
    NumberingContinues(w.store.files, step.names, RELEASE_PREFIX);
    PublishMovesNewest(w.store, step, Generation(w, step));
  }

  /** Each step moves the newest release number up by a deploy, down by freeing it, and not otherwise. */
  lemma StepMovesNewest(w: World, step: Step, bound: nat)
    requires Inv(w) && Bounded(w, bound) && bound + 1 < U64_LIMIT && Enabled(w, step)
    ensures var n, n' := Newest(w.store.files, RELEASE_PREFIX), Newest(Next(w, step).store.files, RELEASE_PREFIX);
            if TakesNumber(step) then Generation(w, step) == n' == n + 1
            else if FreesNewest(w, step) then n' < n
            else n' == n
  {
    hide Newest;
    var files, files' := w.store.files, Next(w, step).store.files;
    match step
    case Deploy(_, _, _, _, _, _) => DeployMovesNewest(w, step, bound);
    case BootService(_, _, _, _) => BootMovesNewest(w, step);
    case DevPublish(_, _, _, _, _) => OtherPrefixStays(w.store, step, Generation(w, step));
    case DevPrune(_, _) =>
      forall name, g: nat ensures IsSlot(files', RELEASE_PREFIX, name, g) <==> IsSlot(files, RELEASE_PREFIX, name, g) {
        PrefixesAreSeparate(name);
      }
      SameSlotsSameNewest(files, files', RELEASE_PREFIX);
    case _ =>
      SameSlotsSameNewest(files, files', RELEASE_PREFIX);
  }

  /**
   * The next release number goes back exactly when the step is a fallback boot that removes
   * its bad target, and that was the only file of the newest generation.
   */
  lemma ANumberIsFreedExactly(w: World, step: Step, bound: nat, names: seq<string>, names': seq<string>)
    requires Inv(w) && Bounded(w, bound) && bound + 2 < U64_LIMIT && Enabled(w, step)
    requires Lists(w.store.files, names) && Lists(Next(w, step).store.files, names')
    ensures NextGeneration(names', RELEASE_PREFIX) < NextGeneration(names, RELEASE_PREFIX) <==> FreesNewest(w, step)
  {
    hide Newest;
    HasRoomBelow(w, names, RELEASE_PREFIX, bound);
    NumberingContinues(w.store.files, names, RELEASE_PREFIX);
    StepKeepsInv(w, step, bound);
    HasRoomBelow(Next(w, step), names', RELEASE_PREFIX, bound + 1);
    NumberingContinues(Next(w, step).store.files, names', RELEASE_PREFIX);
    StepMovesNewest(w, step, bound);
  }

  // ----- release numbers over runs -----

  /** The numbers that deploys put a file under, as far as each step is enabled. */
  ghost function Numbers(w: World, steps: seq<Step>): seq<nat>
    decreases |steps|
  {
    if steps == [] || !Enabled(w, steps[0]) then []
    else (if TakesNumber(steps[0]) then [Generation(w, steps[0])] else []) + Numbers(Next(w, steps[0]), steps[1..])
  }

  /** Strictly increasing, and above `last`. */
  predicate RisesFrom(last: nat, numbers: seq<nat>)
    decreases |numbers|
  {
    numbers == [] || (last < numbers[0] && RisesFrom(numbers[0], numbers[1..]))
  }

  /** Some boot of the run frees the newest number, and a later deploy takes one. */
  ghost predicate FreesThenTakes(w: World, steps: seq<Step>)
    decreases |steps|
  {
    steps != [] && Enabled(w, steps[0]) &&
    ((FreesNewest(w, steps[0]) && Numbers(Next(w, steps[0]), steps[1..]) != []) ||
     FreesThenTakes(Next(w, steps[0]), steps[1..]))
  }

  /** Until a deploy takes a number, the newest one does not rise. */
  lemma {:induction false} FirstNumberIsLow(w: World, steps: seq<Step>, bound: nat)
    requires Inv(w) && Bounded(w, bound) && bound + |steps| < U64_LIMIT && Numbers(w, steps) != []
    ensures Numbers(w, steps)[0] <= Newest(w.store.files, RELEASE_PREFIX) + 1
    decreases |steps|
  {
    hide Newest, FreesNewest, Next, Inv, Bounded;
    StepMovesNewest(w, steps[0], bound);
    if !TakesNumber(steps[0]) {
      StepKeepsInv(w, steps[0], bound);
      FirstNumberIsLow(Next(w, steps[0]), steps[1..], bound + 1);
    }
  }

  /**
   * Release numbers are never used again, they rise from the newest slot on and from deploy
   * to deploy, exactly when no boot frees the newest number before a later deploy.
   */
  lemma {:induction false} NumbersRiseExactly(w: World, steps: seq<Step>, bound: nat)
    requires Inv(w) && Bounded(w, bound) && bound + |steps| < U64_LIMIT
    ensures RisesFrom(Newest(w.store.files, RELEASE_PREFIX), Numbers(w, steps)) <==> !FreesThenTakes(w, steps)
    decreases |steps|
  {
    hide Newest, FreesNewest, Next, Inv, Bounded;
    if steps != [] && Enabled(w, steps[0]) {
      var w', rest := Next(w, steps[0]), steps[1..];
      StepKeepsInv(w, steps[0], bound);
      StepMovesNewest(w, steps[0], bound);
      NumbersRiseExactly(w', rest, bound + 1);
      if Numbers(w', rest) != [] {
        FirstNumberIsLow(w', rest, bound + 1);
      }
      if TakesNumber(steps[0]) {
        assert Numbers(w, steps)[1..] == Numbers(w', rest);
        assert !FreesNewest(w, steps[0]) by { TakingDoesNotFree(w, steps[0]); }
      } else {
        assert Numbers(w, steps) == Numbers(w', rest);
      }
    }
  }

  lemma TakingDoesNotFree(w: World, step: Step)
    requires TakesNumber(step)
    ensures !FreesNewest(w, step)
  {
  }

  // ----- session numbers over runs -----

  /** The slot of the session's counter, or one above it, is still on disk. */
  ghost predicate CounterIsOnDisk(w: World) {
    w.session.Some? ==> w.session.value <= Newest(w.store.files, "dev")
  }

  /** A fallback boot removes its bad target, the only `dev` slot from the session's counter on. */
  ghost predicate FreesCounter(w: World, step: Step) {
    RemovesTarget(w, step) && w.session.Some? && w.session.value > 0 &&
    IsOnlySlotFrom(w.store.files, "dev", w.session.value, w.store.pointer.path)
  }

  predicate TakesDevNumber(step: Step) {
    step.DevPublish? && LeavesFile(step.fault)
  }

  lemma CounterHasSlot(w: World)
    requires w.session.Some? && w.session.value > 0
    ensures CounterIsOnDisk(w) <==> exists name, g: nat :: IsSlot(w.store.files, "dev", name, g) && g >= w.session.value
  {
    NewestIsHighest(w.store.files, "dev");
  }

  lemma BootMovesCounter(w: World, step: Step)
    requires step.BootService?
    ensures CounterIsOnDisk(Next(w, step)) <==> CounterIsOnDisk(w) && !FreesCounter(w, step)
  {
    hide FallsBack, Newest, CounterIsOnDisk;
    var w' := Next(w, step);
    BootFiles(w, step);
    assert w'.session == w.session;
    hide Next;
    if w.session.Some? && w.session.value > 0 {
      CounterHasSlot(w);
      CounterHasSlot(w');
      assert forall name, g: nat :: IsSlot(w'.store.files, "dev", name, g) <==>
               IsSlot(w.store.files, "dev", name, g) &&
               !(RemovesTarget(w, step) && InReleases(name) == w.store.pointer.path);
    } else {
      CounterAtZero(w);
      CounterAtZero(w');
    }
  }

  lemma CounterAtZero(w: World)
    requires w.session.None? || w.session.value == 0
    ensures CounterIsOnDisk(w)
  {
  }

  lemma DevPruneKeepsCounter(w: World, step: Step)
    requires step.DevPrune? && Enabled(w, step)
    ensures CounterIsOnDisk(Next(w, step)) <==> CounterIsOnDisk(w)
  {
    hide Newest, CounterIsOnDisk;
    var w' := Next(w, step);
    if w.session.value > 0 {
      CounterHasSlot(w);
      CounterHasSlot(w');
      assert forall name, g: nat :: g >= w.session.value ==>
               (IsSlot(w'.store.files, "dev", name, g) <==> IsSlot(w.store.files, "dev", name, g));
    } else {
      CounterAtZero(w);
      CounterAtZero(w');
    }
  }

  lemma DevPublishMovesCounter(w: World, step: Step, bound: nat)
    requires Inv(w) && Bounded(w, bound) && bound + 1 < U64_LIMIT && Enabled(w, step) && step.DevPublish?
    ensures CounterIsOnDisk(Next(w, step)) <==> CounterIsOnDisk(w) || TakesDevNumber(step)
  {
    var generation := Generation(w, step);
    var slot, files' := SlotOf(step, generation), Next(w, step).store.files;
    ParseSlotName("dev", generation, step.extension);
    if TakesDevNumber(step) {
      assert IsSlot(files', "dev", slot.name, generation);
      NewestIsHighest(files', "dev");
    } else {
      assert files' == w.store.files;
    }
  }

  lemma SessionStartsAtNewest(w: World, step: Step, bound: nat)
    requires Bounded(w, bound) && bound + 1 < U64_LIMIT && Enabled(w, step) && step.StartDev?
    ensures Next(w, step).session == Some(Newest(w.store.files, "dev"))
  {
    HasRoomBelow(w, step.names, "dev", bound);
    NumberingContinues(w.store.files, step.names, "dev");
  }

  /** Which steps put the counter's slot on disk, and which take it away. */
  lemma StepMovesCounter(w: World, step: Step, bound: nat)
    requires Inv(w) && Bounded(w, bound) && bound + 1 < U64_LIMIT && Enabled(w, step)
    ensures CounterIsOnDisk(Next(w, step)) <==>
            step.StartDev? || TakesDevNumber(step) || (CounterIsOnDisk(w) && !FreesCounter(w, step))
  {
    hide Newest;
    match step
    case StartDev(_) => SessionStartsAtNewest(w, step, bound);
    case BootService(_, _, _, _) => BootMovesCounter(w, step);
    case DevPublish(_, _, _, _, _) => DevPublishMovesCounter(w, step, bound);
    case DevPrune(_, _) => DevPruneKeepsCounter(w, step);
    case Deploy(_, _, _, _, _, _) =>
      DeployMovesNewest(w, step, bound);
      OtherPrefixStays(w.store, step, Generation(w, step));
    case Corrupt(_, _) =>
      SameSlotsSameNewest(w.store.files, Next(w, step).store.files, "dev");
  }

  /** Some session of the run starts below the counter of the one before, and so hands out its numbers again. */
  ghost predicate SessionGoesBack(w: World, steps: seq<Step>)
    decreases |steps|
  {
    steps != [] && Enabled(w, steps[0]) &&
    ((steps[0].StartDev? && w.session.Some? && Next(w, steps[0]).session.value < w.session.value) ||
     SessionGoesBack(Next(w, steps[0]), steps[1..]))
  }

  /** A session starts before the running one has put another file under a number. */
  ghost predicate StartsFirst(w: World, steps: seq<Step>)
    decreases |steps|
  {
    steps != [] && Enabled(w, steps[0]) && !TakesDevNumber(steps[0]) &&
    (steps[0].StartDev? || StartsFirst(Next(w, steps[0]), steps[1..]))
  }

  /** Some boot of the run frees the counter's number, and the next session starts first. */
  ghost predicate FreesThenStarts(w: World, steps: seq<Step>)
    decreases |steps|
  {
    steps != [] && Enabled(w, steps[0]) &&
    ((FreesCounter(w, steps[0]) && StartsFirst(Next(w, steps[0]), steps[1..])) ||
     FreesThenStarts(Next(w, steps[0]), steps[1..]))
  }

  lemma FreeingNeedsTheSlot(w: World, step: Step)
    requires FreesCounter(w, step)
    ensures CounterIsOnDisk(w) && !step.StartDev? && !TakesDevNumber(step)
  {
    hide Newest;
    var bad := w.store.pointer.path;
    assert IsSlot(w.store.files, "dev", bad.name, ParseSlot("dev", bad.name).value);
    NewestIsHighest(w.store.files, "dev");
  }

  lemma {:induction false} GoesBackFrom(w: World, steps: seq<Step>, bound: nat)
    requires Inv(w) && Bounded(w, bound) && bound + |steps| < U64_LIMIT
    ensures SessionGoesBack(w, steps) <==>
            FreesThenStarts(w, steps) || (!CounterIsOnDisk(w) && StartsFirst(w, steps))
    decreases |steps|
  {
    hide Newest, FreesCounter, Next, Inv, Bounded;
    if steps != [] && Enabled(w, steps[0]) {
      StepKeepsInv(w, steps[0], bound);
      StepMovesCounter(w, steps[0], bound);
      GoesBackFrom(Next(w, steps[0]), steps[1..], bound + 1);
      if FreesCounter(w, steps[0]) {
        FreeingNeedsTheSlot(w, steps[0]);
      }
      if steps[0].StartDev? {
        SessionStartsAtNewest(w, steps[0], bound);
      }
    }
  }

  /**
   * While the counter's slot is on disk, as it is when a session starts, a later session goes
   * back exactly when a boot removes the only `dev` slot from the counter on and the session
   * after it starts before anything is published.
   */
  lemma SessionGoesBackExactly(w: World, steps: seq<Step>, bound: nat)
    requires Inv(w) && Bounded(w, bound) && bound + |steps| < U64_LIMIT && CounterIsOnDisk(w)
    ensures SessionGoesBack(w, steps) <==> FreesThenStarts(w, steps)
  {
    GoesBackFrom(w, steps, bound);
  }

  const DEV_ONE := SlotName("dev", 1, None)

  /** Such a run: the only `dev` slot goes bad and is removed, and the next session counts from 0 again. */
  lemma ADevNumberIsReused(good: File, bad: File)
    requires IsGood(good) && bad.bytes == []
    ensures var files := map[OLDER := good, InReleases(DEV_ONE) := bad];
            var w := World(Store(files, Names(InReleases(DEV_ONE)), None), Some(1), {});
            SessionGoesBack(w, [BootService([ONE, DEV_ONE], true, true, None), StartDev([ONE])])
  {
    var dev := InReleases(DEV_ONE);
    var w := World(Store(map[OLDER := good, dev := bad], Names(dev), None), Some(1), {});
    var boot, start := BootService([ONE, DEV_ONE], true, true, None), StartDev([ONE]);
    DevAndRelease(good, bad);
    assert [boot, start][1..] == [start];
    var w1 := Next(w, boot);
    assert w1.store.files == map[OLDER := good];
    NoDevSlots();
    assert SessionGoesBack(w1, [start]);
  }

  lemma NoDevSlots()
    ensures StartingGeneration([ONE]) == 0
  {
    ParseSlotName(RELEASE_PREFIX, 1, None);
    PrefixesAreSeparate(ONE);
    assert [ONE][1..] == [] && SlotsOf([], "dev") == [];
    assert SlotsOf([ONE], "dev") == [];
  }

  lemma DevAndRelease(good: File, bad: File)
    requires IsGood(good) && bad.bytes == []
    ensures DEV_ONE != ONE
    ensures ChooseRelease(Some(InReleases(DEV_ONE)), ExistingGenerations([ONE, DEV_ONE], RELEASE_PREFIX),
                          map[OLDER := good, InReleases(DEV_ONE) := bad]) == FellBackTo(1, OLDER)
  {
    ReleaseAndDevListing();
    hide ExistingGenerations;
    var slots: seq<Slot> := [(1, ONE)];
    var files := map[OLDER := good, InReleases(DEV_ONE) := bad];
    assert FirstUsable(slots, Some(InReleases(DEV_ONE)), files) == Some((1, ONE));
  }

  lemma ReleaseAndDevListing()
    ensures DEV_ONE != ONE && ExistingGenerations([ONE, DEV_ONE], RELEASE_PREFIX) == [(1, ONE)]
  {
    ParseSlotName(RELEASE_PREFIX, 1, None);
    ParseSlotName("dev", 1, None);
    PrefixesAreSeparate(DEV_ONE);
    hide ParseSlot, SlotName;
    var names := [ONE, DEV_ONE];
    assert names[1..] == [DEV_ONE] && [DEV_ONE][1..] == [] && SlotsOf([], RELEASE_PREFIX) == [];
    assert SlotsOf([DEV_ONE], RELEASE_PREFIX) == [];
    assert SlotsOf(names, RELEASE_PREFIX) == [(1, ONE)] + SlotsOf(names[1..], RELEASE_PREFIX);
    var slots: seq<Slot> := [(1, ONE)];
    assert slots[1..] == [] && SortDescending([]) == [];
    assert SortDescending(slots) == slots;
  }
}
