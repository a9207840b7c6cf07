/**
 * The releases directory: numbered slots, the pointer file that names the current
 * one, and the sentinel that remembers the last rebuild. Publishing, pruning and
 * booting with fallback are given first as functions of the store, then as they run.
 */
module ReleaseStore {
  import opened Outcomes
  import opened SlotNames

  /** A resolved path: an entry of `storage/releases`, or somewhere else. */
  datatype Path = InReleases(name: string) | Outside(text: string)

  datatype File = File(isFile: bool, executable: bool, readable: bool, bytes: seq<bv8>)

  /** What reading the pointer file gives. */
  datatype Pointer = Missing | Unreadable | Blank | Names(path: Path)

  /** `sentinel` is the path a rebuild was last triggered for. */
  datatype Store = Store(files: map<Path, File>, pointer: Pointer, sentinel: Option<Path>)

  const KEEP_GENERATIONS: nat := 3
  const RELEASE_PREFIX := "release"
  const ELF_MAGIC: seq<bv8> := [0x7f, 0x45, 0x4c, 0x46]

  function Target(pointer: Pointer): Option<Path> {
    if pointer.Names? then Some(pointer.path) else None
  }

  /** The static validation before a release is run. */
  predicate IsRunnable(files: map<Path, File>, path: Path) {
    path in files &&
    var file := files[path];
    file.isFile && file.bytes != [] && file.executable && file.readable && ELF_MAGIC <= file.bytes
  }

  /** `names` is the directory's listing, in any order. */
  ghost predicate Lists(files: map<Path, File>, names: seq<string>) {
    forall name :: name in names <==> InReleases(name) in files
  }

  // ----- publish -----

  /** Where a publish can stop, and what it leaves behind there. */
  datatype PublishFault =
    | NoFault
    | NoDirectory
    | CopyFails(partial: Option<File>)
    | ChmodFails
    | PointerFails(left: Pointer)

  function Publish(s: Store, source: File, prefix: string, generation: nat, extension: Option<string>,
                   fault: PublishFault): (Store, Option<Path>)
  {
    var slot := InReleases(SlotName(prefix, generation, extension));
    match fault
    case NoDirectory => (s, None)
    case CopyFails(partial) =>
      (if partial.Some? then s.(files := s.files[slot := partial.value]) else s, None)
    case ChmodFails => (s.(files := s.files[slot := source]), None)
    case PointerFails(left) =>
      (s.(files := s.files[slot := source.(executable := true, readable := true)], pointer := left), None)
    case NoFault =>
      (s.(files := s.files[slot := source.(executable := true, readable := true)], pointer := Names(slot)), Some(slot))
  }

  // ----- prune -----

  /** A slot of the prefix that is too old and not the pointer's target. */
  predicate IsDoomed(s: Store, prefix: string, current: nat, name: string) {
    ParseSlot(prefix, name).Some? &&
    ParseSlot(prefix, name).value + (KEEP_GENERATIONS - 1) < current &&
    s.pointer != Names(InReleases(name))
  }

  /** `listed` entries are looked at; of the doomed ones those in `removable` can be removed. */
  function Prune(s: Store, prefix: string, current: nat, listed: set<string>, removable: set<string>): Store {
    if current <= KEEP_GENERATIONS || s.pointer.Unreadable? then s
    else s.(files := map path | path in s.files &&
                                !(path.InReleases? && path.name in listed && path.name in removable &&
                                  IsDoomed(s, prefix, current, path.name)) :: s.files[path])
  }

  // ----- boot -----

  datatype ChosenRelease =
    | PointerTargetIsFine(path: Path)
    | FellBackTo(generation: nat, path: Path)
    | NothingRunnable

  /** The first candidate that is not the pointer's target and is runnable. */
  function FirstUsable(candidates: seq<Slot>, target: Option<Path>, files: map<Path, File>): Option<Slot> {
    if candidates == [] then None
    else if Some(InReleases(candidates[0].1)) != target && IsRunnable(files, InReleases(candidates[0].1)) then
      Some(candidates[0])
    else FirstUsable(candidates[1..], target, files)
  }

  function ChooseRelease(target: Option<Path>, candidates: seq<Slot>, files: map<Path, File>): ChosenRelease {
    if target.Some? && IsRunnable(files, target.value) then PointerTargetIsFine(target.value)
    else
      match FirstUsable(candidates, target, files)
      case Some(slot) => if target.Some? then FellBackTo(slot.0, InReleases(slot.1)) else NothingRunnable
      case None => NothingRunnable
  }

  /**
   * Which of a fallback boot's file operations succeed. A failed write may have emptied the
   * file or written part of it: the pointer is then `left`, the sentinel `sentinelLeft`.
   */
  datatype BootFaults =
    BootFaults(removeOk: bool, pointerOk: bool, left: Pointer, sentinelOk: bool, sentinelLeft: Option<Path>)

  /** What a boot ends in: running `path`, having triggered a rebuild or not, or giving up. */
  datatype BootOutcome = Runs(path: Path, rebuild: bool) | NoRunnableRelease

  predicate ShouldTriggerRebuild(sentinel: Option<Path>, bad: Path) {
    sentinel != Some(bad)
  }

  /** What the sentinel holds once a rebuild for `bad` has been triggered. */
  function SentinelAfter(bad: Path, ok: bool, left: Option<Path>): Option<Path> {
    if ok then Some(bad) else left
  }

  function Boot(s: Store, names: seq<string>, faults: BootFaults): (Store, BootOutcome) {
    match ChooseRelease(Target(s.pointer), ExistingGenerations(names, RELEASE_PREFIX), s.files)
    case PointerTargetIsFine(path) => (s, Runs(path, false))
    case NothingRunnable => (s, NoRunnableRelease)
    case FellBackTo(_, path) =>
      var bad := s.pointer.path;
      var rebuild := ShouldTriggerRebuild(s.sentinel, bad);
      (Store(if faults.removeOk then s.files - {bad} else s.files,
             if faults.pointerOk then Names(path) else faults.left,
             if rebuild then SentinelAfter(bad, faults.sentinelOk, faults.sentinelLeft) else s.sentinel),
       Runs(path, rebuild))
  }

  // ----- as it runs -----

  class ReleaseDirectory {
    var files: map<Path, File>
    var pointer: Pointer
    var sentinel: Option<Path>

    function Snapshot(): Store
      reads this
    {
      Store(files, pointer, sentinel)
    }

    method PublishSlot(source: File, prefix: string, generation: nat, extension: Option<string>, fault: PublishFault)
      returns (slot: Option<Path>)
      modifies this
      ensures (Snapshot(), slot) == Publish(old(Snapshot()), source, prefix, generation, extension, fault)
    {
      if fault.NoDirectory? { return None; }
      var path := InReleases(SlotName(prefix, generation, extension));
      if fault.CopyFails? {
        if fault.partial.Some? {
          files := files[path := fault.partial.value];
        }
        return None;
      }
      files := files[path := source];
      if fault.ChmodFails? { return None; }
      files := files[path := files[path].(executable := true, readable := true)];
      assert files == old(files)[path := source.(executable := true, readable := true)];
      if fault.PointerFails? {
        pointer := fault.left;
        return None;
      }
      pointer := Names(path);
      slot := Some(path);
    }

    /** Walks the listing once, deleting what is too old and can be deleted. */
    method PruneSlots(prefix: string, current: nat, entries: seq<string>, removable: set<string>)
      modifies this`files
      ensures Snapshot() == Prune(old(Snapshot()), prefix, current, (set name | name in entries), removable)
    {
      if current <= KEEP_GENERATIONS { return; }
      var oldestToKeep := current - (KEEP_GENERATIONS - 1);
      if pointer.Unreadable? { return; }
      var target := Target(pointer);
      ghost var s := Snapshot();
      for i := 0 to |entries|
        invariant pointer == s.pointer && sentinel == s.sentinel
        invariant files == map path | path in s.files &&
                                      !(path.InReleases? && path.name in entries[..i] && path.name in removable &&
                                        IsDoomed(s, prefix, current, path.name)) :: s.files[path]
      {
        var name := entries[i];
        var generation := ParseSlot(prefix, name);
        assert entries[..i + 1] == entries[..i] + [name];
        if generation.Some? && generation.value < oldestToKeep && target != Some(InReleases(name)) {
          if name in removable {
            files := files - {InReleases(name)};
          }
        }
      }
      assert entries[..|entries|] == entries;
    }

    method BootRelease(names: seq<string>, faults: BootFaults) returns (outcome: BootOutcome)
      modifies this
      ensures (Snapshot(), outcome) == Boot(old(Snapshot()), names, faults)
    {
      var target := Target(pointer);
      var chosen := ChooseRelease(target, ExistingGenerations(names, RELEASE_PREFIX), files);
      match chosen {
        case PointerTargetIsFine(path) => outcome := Runs(path, false);
        case NothingRunnable => outcome := NoRunnableRelease;
        case FellBackTo(_, path) =>
          var bad := target.value;
          if faults.removeOk {
            files := files - {bad};
          }
          pointer := if faults.pointerOk then Names(path) else faults.left;
          var rebuild := MaybeTriggerRebuild(bad, faults.sentinelOk, faults.sentinelLeft);
          outcome := Runs(path, rebuild);
      }
    }

    /** The rebuild goes ahead whether or not it could be recorded. */
    method MaybeTriggerRebuild(bad: Path, sentinelOk: bool, left: Option<Path>) returns (rebuild: bool)
      modifies this`sentinel
      ensures rebuild <==> old(sentinel) != Some(bad)
      ensures sentinel == if rebuild then SentinelAfter(bad, sentinelOk, left) else old(sentinel)
    {
      rebuild := ShouldTriggerRebuild(sentinel, bad);
      if rebuild {
        sentinel := if sentinelOk then Some(bad) else left;
      }
    }
  }

  // ----- what counts as runnable, and what publishing leaves -----

  /** A release is refused exactly when it is missing, no file, not executable, unreadable, or not an ELF binary. */
  lemma RunnableExactly(files: map<Path, File>, path: Path)
    ensures !IsRunnable(files, path) <==>
            path !in files || !files[path].isFile || !files[path].executable || !files[path].readable ||
            |files[path].bytes| < 4 || files[path].bytes[..4] != [0x7f, 0x45, 0x4c, 0x46]
  {
    if path in files && |files[path].bytes| >= 4 {
      var bytes := files[path].bytes;
      assert forall i :: 0 <= i < 4 ==> bytes[..4][i] == bytes[i];
    }
  }

  /**
   * A publish copies the source under the new name, makes it executable and only then moves
   * the pointer; stopped on the way it leaves the pointer, the sentinel and every other file.
   */
  lemma PublishIsExact(s: Store, source: File, prefix: string, generation: nat, extension: Option<string>,
                       fault: PublishFault)
    ensures var (s', path) := Publish(s, source, prefix, generation, extension, fault);
            var slot := InReleases(SlotName(prefix, generation, extension));
            s'.sentinel == s.sentinel &&
            (forall other :: other != slot ==>
               (other in s'.files <==> other in s.files) &&
               (other in s.files ==> s'.files[other] == s.files[other])) &&
            (path == if fault == NoFault then Some(slot) else None) &&
            match fault
            case NoDirectory => s' == s
            case CopyFails(partial) =>
              s'.pointer == s.pointer &&
              (match partial case Some(file) => slot in s'.files && s'.files[slot] == file case None => s' == s)
            case ChmodFails => s'.pointer == s.pointer && slot in s'.files && s'.files[slot] == source
            case PointerFails(left) =>
              s'.pointer == left && slot in s'.files &&
              s'.files[slot] == File(source.isFile, true, true, source.bytes)
            case NoFault =>
              s'.pointer == Names(slot) && slot in s'.files &&
              s'.files[slot] == File(source.isFile, true, true, source.bytes)
  {
  }

  /** A fallback removes its bad target and points at what it runs; any other boot changes nothing. */
  lemma BootIsExact(s: Store, names: seq<string>, faults: BootFaults)
    ensures var (s', outcome) := Boot(s, names, faults);
            if outcome.Runs? && s.pointer.Names? && !IsRunnable(s.files, s.pointer.path) then
              var bad := s.pointer.path;
              s'.files == (if faults.removeOk then s.files - {bad} else s.files) &&
              s'.pointer == (if faults.pointerOk then Names(outcome.path) else faults.left) &&
              (outcome.rebuild <==> s.sentinel != Some(bad)) &&
              s'.sentinel == if s.sentinel == Some(bad) then s.sentinel
                             else if faults.sentinelOk then Some(bad) else faults.sentinelLeft
            else s' == s && (outcome.Runs? ==> !outcome.rebuild)
  {
  }

  // ----- retention -----

  /**
   * What one prune deletes, for any listing and any removals that fail: listed, removable
   * slots of the prefix older than the last three that the pointer does not name; and nothing
   * at all for low numbers or if the pointer cannot be read. What stays keeps its contents.
   */
  lemma PruneIsExact(s: Store, prefix: string, current: nat, listed: set<string>, removable: set<string>, path: Path)
    ensures var s' := Prune(s, prefix, current, listed, removable);
            s'.pointer == s.pointer && s'.sentinel == s.sentinel &&
            (path in s'.files ==> path in s.files && s'.files[path] == s.files[path]) &&
            (path in s.files && path !in s'.files <==>
              path in s.files && path.InReleases? && path.name in listed && path.name in removable &&
              current > 3 && s.pointer != Unreadable && s.pointer != Names(path) &&
              ParseSlot(prefix, path.name).Some? && ParseSlot(prefix, path.name).value + 2 < current)
  {
  }

  /** Pruning never deletes what the current-release file points at, whatever is listed or removable. */
  lemma PruneKeepsTarget(s: Store, prefix: string, current: nat, listed: set<string>, removable: set<string>)
    requires s.pointer.Names? && s.pointer.path in s.files
    ensures var s' := Prune(s, prefix, current, listed, removable);
            s'.pointer == s.pointer && s.pointer.path in s'.files && s'.files[s.pointer.path] == s.files[s.pointer.path]
  {
  }

  ghost predicate ListsAll(files: map<Path, File>, listed: set<string>) {
    forall path :: path in files && path.InReleases? ==> path.name in listed
  }

  /**
   * With a readable pointer and every removal succeeding, what survives of the prefix's
   * slots is exactly the last three generations and the pointer's target, and the slot
   * numbered 0 when the current number is 3: there, and only there, the early return for
   * low numbers differs from the rule. All other files survive.
   */
  lemma RetentionIsExact(s: Store, prefix: string, current: nat, listed: set<string>,
      removable: set<string>, path: Path)
    requires !s.pointer.Unreadable? && ListsAll(s.files, listed) && listed <= removable
    ensures var s' := Prune(s, prefix, current, listed, removable);
            path in s'.files <==>
            path in s.files &&
            (path.InReleases? && ParseSlot(prefix, path.name).Some? ==>
               ParseSlot(prefix, path.name).value + 2 >= current || s.pointer == Names(path) ||
               (ParseSlot(prefix, path.name).value == 0 && current == 3))
  {
  }

  /** Such a store: the early return keeps the slot numbered 0, the rule would not. */
  lemma SlotZeroOutlivesTheRule()
    ensures var s := Store(map[InReleases("dev-0") := File(true, true, true, [])], Missing, None);
            InReleases("dev-0") in Prune(s, "dev", 3, {"dev-0"}, {"dev-0"}).files && IsDoomed(s, "dev", 3, "dev-0")
  {
    ParseSlotName("dev", 0, None);
    assert SlotName("dev", 0, None) == "dev-0";
  }

  /**
   * A prune that could not remove everything is made good by any later complete one;
   * in particular a complete prune done twice is a prune done once.
   */
  lemma PruneConverges(s: Store, prefix: string, earlier: nat, current: nat,
                       listed: set<string>, removable: set<string>, all: set<string>)
    requires earlier <= current && listed <= all && removable <= all
    ensures Prune(Prune(s, prefix, earlier, listed, removable), prefix, current, all, all)
         == Prune(s, prefix, current, all, all)
  {
    var first := Prune(s, prefix, earlier, listed, removable);
    var left, right := Prune(first, prefix, current, all, all), Prune(s, prefix, current, all, all);
    assert forall name :: IsDoomed(s, prefix, earlier, name) ==> IsDoomed(s, prefix, current, name);
    assert forall name :: IsDoomed(first, prefix, current, name) <==> IsDoomed(s, prefix, current, name);
    assert left.files.Keys == right.files.Keys;
  }

  // ----- which release a boot picks -----

  lemma {:induction false} FirstUsableIsExact(candidates: seq<Slot>, target: Option<Path>, files: map<Path, File>)
    ensures match FirstUsable(candidates, target, files)
            case None =>
              forall slot :: slot in candidates ==>
                Some(InReleases(slot.1)) == target || !IsRunnable(files, InReleases(slot.1))
            case Some(found) =>
              found in candidates && Some(InReleases(found.1)) != target && IsRunnable(files, InReleases(found.1))
    ensures Descending(candidates) && FirstUsable(candidates, target, files).Some? ==>
            forall slot :: slot in candidates && Some(InReleases(slot.1)) != target &&
                           IsRunnable(files, InReleases(slot.1)) ==>
                             slot.0 <= FirstUsable(candidates, target, files).value.0
  {
    if candidates != [] {
      FirstUsableIsExact(candidates[1..], target, files);
      forall slot | slot in candidates ensures slot == candidates[0] || slot in candidates[1..] {
      }
    }
  }

  /** A release slot among `names` that would run. */
  predicate IsUsable(files: map<Path, File>, names: seq<string>, name: string) {
    name in names && ParseSlot(RELEASE_PREFIX, name).Some? && IsRunnable(files, InReleases(name))
  }

  /** A fallback goes to a runnable release, and none with a higher generation is runnable. */
  lemma FallbackIsTheBest(s: Store, names: seq<string>)
    requires ChooseRelease(Target(s.pointer), ExistingGenerations(names, RELEASE_PREFIX), s.files).FellBackTo?
    ensures var FellBackTo(generation, path) :=
              ChooseRelease(Target(s.pointer), ExistingGenerations(names, RELEASE_PREFIX), s.files);
            path.InReleases? && path != s.pointer.path && IsUsable(s.files, names, path.name) &&
            ParseSlot(RELEASE_PREFIX, path.name) == Some(generation) &&
            forall name :: IsUsable(s.files, names, name) ==> ParseSlot(RELEASE_PREFIX, name).value <= generation
  {
    var candidates := ExistingGenerations(names, RELEASE_PREFIX);
    ExistingGenerationsIsExact(names, RELEASE_PREFIX);
    FirstUsableIsExact(candidates, Target(s.pointer), s.files);
    forall name | IsUsable(s.files, names, name)
      ensures ParseSlot(RELEASE_PREFIX, name).value <= FirstUsable(candidates, Target(s.pointer), s.files).value.0
    {
      assert (ParseSlot(RELEASE_PREFIX, name).value, name) in candidates;
    }
  }

  /**
   * A boot runs something exactly when the current-release file holds a path and that path, or some
   * release slot, is runnable. Without a pointer it gives up even if good releases exist.
   * A runnable target is run as it is, and giving up changes nothing.
   */
  lemma BootSucceedsExactly(s: Store, names: seq<string>, faults: BootFaults)
    ensures Boot(s, names, faults).1.Runs? <==>
            s.pointer.Names? &&
            (IsRunnable(s.files, s.pointer.path) || exists name :: IsUsable(s.files, names, name))
    ensures s.pointer.Names? && IsRunnable(s.files, s.pointer.path) ==>
            Boot(s, names, faults) == (s, Runs(s.pointer.path, false))
    ensures Boot(s, names, faults).1.NoRunnableRelease? ==> Boot(s, names, faults).0 == s
  {
    var candidates := ExistingGenerations(names, RELEASE_PREFIX);
    ExistingGenerationsIsExact(names, RELEASE_PREFIX);
    FirstUsableIsExact(candidates, Target(s.pointer), s.files);
    if name :| IsUsable(s.files, names, name) {
      assert (ParseSlot(RELEASE_PREFIX, name).value, name) in candidates;
    }
    if FirstUsable(candidates, Target(s.pointer), s.files).Some? {
      var slot := FirstUsable(candidates, Target(s.pointer), s.files).value;
      assert IsUsable(s.files, names, slot.1);
    }
  }

  lemma {:induction false} SubsetIsNoLarger<T>(a: set<T>, b: set<T>)
    requires a <= b
    ensures |a| <= |b|
  {
    if a != {} {
      var x :| x in a;
      SubsetIsNoLarger(a - {x}, b - {x});
    }
  }

  /** Fewer corrupt releases than releases: with three retained, any two may be bad. */
  lemma SpareReleasesSaveTheBoot(s: Store, names: seq<string>, faults: BootFaults, kept: set<string>)
    requires s.pointer.Names?
    requires forall name :: name in kept ==> name in names && ParseSlot(RELEASE_PREFIX, name).Some?
    requires |(set name | name in kept && !IsRunnable(s.files, InReleases(name)))| < |kept|
    ensures Boot(s, names, faults).1.Runs?
  {
    var bad := set name | name in kept && !IsRunnable(s.files, InReleases(name));
    if kept <= bad {
      SubsetIsNoLarger(kept, bad);
    }
    var good :| good in kept && good !in bad;
    assert IsUsable(s.files, names, good);
    BootSucceedsExactly(s, names, faults);
  }

  /**
   * After a fallback whose pointer write succeeded, that file holds the runnable
   * release that was chosen, and the next boot runs it without touching the store.
   */
  lemma FallbackStabilises(s: Store, names: seq<string>, faults: BootFaults, names': seq<string>, faults': BootFaults)
    requires ChooseRelease(Target(s.pointer), ExistingGenerations(names, RELEASE_PREFIX), s.files).FellBackTo?
    requires faults.pointerOk
    ensures var (s', outcome) := Boot(s, names, faults);
            outcome.Runs? && s'.pointer == Names(outcome.path) && IsRunnable(s'.files, outcome.path) &&
            Boot(s', names', faults') == (s', Runs(outcome.path, false))
  {
    FallbackIsTheBest(s, names);
  }

  /** After a fallback the current-release file points at an existing one exactly when its write left one that does. */
  lemma FallbackPointerExactly(s: Store, names: seq<string>, faults: BootFaults)
    requires ChooseRelease(Target(s.pointer), ExistingGenerations(names, RELEASE_PREFIX), s.files).FellBackTo?
    ensures var s' := Boot(s, names, faults).0;
            (s'.pointer.Names? && s'.pointer.path in s'.files) <==>
            faults.pointerOk ||
            (faults.left.Names? && faults.left.path in s.files &&
             (faults.removeOk ==> faults.left.path != s.pointer.path))
  {
    FallbackIsTheBest(s, names);
  }
}
