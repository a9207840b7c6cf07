/** The `@extends` chain: which levels are visited, and what they add up to. */
module BladeChain {
  import opened Outcomes
  import opened BladeAst
  import opened BladeSubstitution
  import opened BladeCollection

  /** Loading and parsing a template by name; an absent name is a load that fails. */
  type Loader = map<string, Template>

  datatype ResolveError = PushInForeach | GlobalsInForeach | Cycle(name: string) | LoadFailed(name: string)

  /** The first top-level `@extends`, if any. */
  function Parent(nodes: Template): Option<string> {
    if nodes == [] then None
    else if nodes[0].Extends? then Some(nodes[0].name)
    else Parent(nodes[1..])
  }

  /** Node `i` of the template is its first top-level `@extends`. */
  predicate IsFirstExtends(nodes: Template, i: nat) {
    i < |nodes| && nodes[i].Extends? && forall j :: 0 <= j < i ==> !nodes[j].Extends?
  }

  /** The template extends `name`: its first top-level `@extends`, wherever it stands, says so. */
  ghost predicate ExtendsFirst(nodes: Template, name: string) {
    exists i: nat :: IsFirstExtends(nodes, i) && nodes[i].name == name
  }

  predicate ExtendsNothing(nodes: Template) {
    forall i :: 0 <= i < |nodes| ==> !nodes[i].Extends?
  }

  /** Of several `@extends` the first one counts, and any one counts. */
  lemma {:induction false} ParentIsTheFirst(nodes: Template, name: string)
    ensures Parent(nodes) == Some(name) <==> ExtendsFirst(nodes, name)
    ensures Parent(nodes).None? <==> ExtendsNothing(nodes)
  {
    if nodes != [] {
      ParentIsTheFirst(nodes[1..], name);
      if nodes[0].Extends? {
        assert IsFirstExtends(nodes, 0);
      } else {
        if i: nat :| IsFirstExtends(nodes, i) && nodes[i].name == name {
          FirstExtendsBelow(nodes, i - 1);
        }
        if i: nat :| IsFirstExtends(nodes[1..], i) && nodes[1..][i].name == name {
          FirstExtendsBelow(nodes, i);
        }
        assert ExtendsNothing(nodes) <==> ExtendsNothing(nodes[1..]) by {
          assert nodes == [nodes[0]] + nodes[1..];
        }
      }
    }
  }

  lemma FirstExtendsBelow(nodes: Template, i: nat)
    requires nodes != [] && !nodes[0].Extends? && i < |nodes| - 1
    ensures nodes[1..][i] == nodes[i + 1]
    ensures IsFirstExtends(nodes[1..], i) <==> IsFirstExtends(nodes, i + 1)
  {
    var rest := nodes[1..];
    assert forall j :: 0 < j <= i ==> nodes[j] == rest[j - 1];
    assert forall j :: 0 <= j < i ==> rest[j] == nodes[j + 1];
  }

  /** The top-level sections; a later one of the same name replaces an earlier one. */
  function TopSections(nodes: Template): Bodies {
    if nodes == [] then map[]
    else
      var before := TopSections(nodes[..|nodes| - 1]);
      match nodes[|nodes| - 1]
      case Section(name, body) => before[name := body]
      case _ => before
  }

  /** Climbs from `nodes` to the base, `seen` holding the parents already taken. */
  function Climb(nodes: Template, load: Loader, seen: set<string>): Result<seq<Template>, ResolveError>
    decreases |load.Keys - seen|
  {
    if Rejected(nodes, PushDirective) then Err(PushInForeach)
    else if Rejected(nodes, GlobalsDirective) then Err(GlobalsInForeach)
    else match Parent(nodes)
      case None => Ok([nodes])
      case Some(name) =>
        if name in seen then Err(Cycle(name))
        else if name !in load then Err(LoadFailed(name))
        else
          SeenGrows(load, seen, name);
          match Climb(load[name], load, seen + {name})
          case Ok(levels) => Ok([nodes] + levels)
          case Err(e) => Err(e)
  }

  lemma SeenGrows(load: Loader, seen: set<string>, name: string)
    requires name in load && name !in seen
    ensures |load.Keys - (seen + {name})| < |load.Keys - seen|
  {
    assert load.Keys - (seen + {name}) == load.Keys - seen - {name};
  }

  /** Substitutes each level's sections into what the levels above it resolved to. */
  function Flatten(levels: seq<Template>): Template
    requires levels != []
  {
    if |levels| == 1 then levels[0]
    else SubstituteYields(Flatten(levels[1..]), TopSections(levels[0]))
  }

  /** Pushes of a chain, child-most level first, on top of those already collected. */
  function PushesFrom(pushes: Bodies, levels: seq<Template>): Bodies
    decreases |levels|
  {
    if levels == [] then pushes else PushesFrom(Register(pushes, PushList(levels[0])), levels[1..])
  }

  /** Globals of a chain; a name already collected is not overwritten by a level above. */
  function GlobalsFrom(globals: map<string, string>, levels: seq<Template>): map<string, string>
    decreases |levels|
  {
    if levels == [] then globals
    else GlobalsFrom(Assign(map[], EntryList(levels[0])) + globals, levels[1..])
  }

  /** The whole resolver: climb, then stacks, then globals. */
  function Resolved(page: Template, load: Loader): Result<Template, ResolveError> {
    match Climb(page, load, {})
    case Err(e) => Err(e)
    case Ok(levels) =>
      ClimbVisitsAChain(page, load, {});
      Ok(SubstituteGlobals(SubstituteStacks(Flatten(levels), PushesFrom(map[], levels)), GlobalsFrom(map[], levels)))
  }

  // ----- the visited levels, without mention of `seen` -----

  /** `levels` starts at `page` and each level is the loaded parent of the one before. */
  ghost predicate IsChain(page: Template, load: Loader, levels: seq<Template>) {
    levels != [] && levels[0] == page &&
    forall i :: 0 < i < |levels| ==> IsParentOf(load, levels[i - 1], levels[i])
  }

  /** The child's first `@extends` names a template that loads as `parent`. */
  ghost predicate ExtendsInto(load: Loader, child: Template, parent: Template) {
    exists name :: ExtendsFirst(child, name) && name in load && load[name] == parent
  }

  /** What a chain's links are, without mention of how the parent is found. */
  lemma LinksAreFirstExtends(load: Loader, child: Template, parent: Template)
    ensures IsParentOf(load, child, parent) <==> ExtendsInto(load, child, parent)
  {
    if Parent(child).Some? {
      ParentIsTheFirst(child, Parent(child).value);
    }
    if name :| ExtendsFirst(child, name) && name in load && load[name] == parent {
      ParentIsTheFirst(child, name);
    }
  }

  /** A chain as the layouts spell it: each level's first `@extends` loads the next, and the last extends nothing. */
  ghost predicate IsLayoutChain(page: Template, load: Loader, levels: seq<Template>) {
    levels != [] && levels[0] == page && ExtendsNothing(levels[|levels| - 1]) &&
    forall i :: 0 < i < |levels| ==> ExtendsInto(load, levels[i - 1], levels[i])
  }

  lemma CompleteChainsAreLayoutChains(page: Template, load: Loader, levels: seq<Template>)
    ensures IsCompleteChain(page, load, levels) <==> IsLayoutChain(page, load, levels)
  {
    if levels != [] {
      ParentIsTheFirst(levels[|levels| - 1], "");
      forall i | 0 < i < |levels|
        ensures IsParentOf(load, levels[i - 1], levels[i]) <==> ExtendsInto(load, levels[i - 1], levels[i])
      {
        LinksAreFirstExtends(load, levels[i - 1], levels[i]);
      }
    }
  }

  predicate IsParentOf(load: Loader, child: Template, parent: Template) {
    Parent(child).Some? && Parent(child).value in load && load[Parent(child).value] == parent
  }

  /** A chain that reached a base, a level that extends nothing. */
  ghost predicate IsCompleteChain(page: Template, load: Loader, levels: seq<Template>) {
    IsChain(page, load, levels) && Parent(levels[|levels| - 1]).None?
  }

  ghost predicate AllClean(levels: seq<Template>) {
    forall i :: 0 <= i < |levels| ==> Clean(levels[i])
  }

  /** The level's parent, if it has one, is not in `seen`. */
  predicate TakesFresh(level: Template, seen: set<string>) {
    Parent(level).Some? ==> Parent(level).value !in seen
  }

  /** The parent's name was already taken by an earlier level of the chain. */
  ghost predicate Revisits(levels: seq<Template>, name: string) {
    exists i :: 0 <= i < |levels| - 1 && Parent(levels[i]) == Some(name)
  }

  lemma {:induction false} ClimbVisitsAChain(page: Template, load: Loader, seen: set<string>)
    requires Climb(page, load, seen).Ok?
    ensures IsCompleteChain(page, load, Climb(page, load, seen).value)
    ensures AllClean(Climb(page, load, seen).value)
    decreases |load.Keys - seen|
  {
    if Parent(page).Some? {
      var name := Parent(page).value;
      SeenGrows(load, seen, name);
      ClimbVisitsAChain(load[name], load, seen + {name});
    }
  }

  /** A parent determines everything above it: equal levels have equal levels above them. */
  lemma {:induction false} ChainIsDetermined(page: Template, load: Loader, levels: seq<Template>,
      i: nat, j: nat, k: nat)
    requires IsChain(page, load, levels) && i <= j && j + k < |levels| && levels[i] == levels[j]
    ensures levels[i + k] == levels[j + k]
    decreases k
  {
    if k > 0 {
      ChainIsDetermined(page, load, levels, i, j, k - 1);
    }
  }

  /** So a chain that ends cannot take the same parent twice. */
  lemma FiniteChainsDoNotRevisit(page: Template, load: Loader, levels: seq<Template>, i: nat, j: nat)
    requires IsCompleteChain(page, load, levels)
    requires i < j < |levels| - 1
    ensures Parent(levels[i]) != Parent(levels[j])
  {
    if Parent(levels[i]) == Parent(levels[j]) {
      assert IsParentOf(load, levels[i], levels[i + 1]) && IsParentOf(load, levels[j], levels[j + 1]);
      var k := |levels| - 1 - (j + 1);
      assert IsParentOf(load, levels[i + 1 + k], levels[i + 2 + k]);
      ChainIsDetermined(page, load, levels, i + 1, j + 1, k);
      assert false;
    }
  }

  lemma {:induction false} CompleteChainIsClimbed(page: Template, load: Loader, seen: set<string>,
      levels: seq<Template>)
    requires IsCompleteChain(page, load, levels) && AllClean(levels)
    requires forall i :: 0 <= i < |levels| - 1 ==> TakesFresh(levels[i], seen)
    ensures Climb(page, load, seen) == Ok(levels)
    decreases |levels|
  {
    if |levels| > 1 {
      assert IsParentOf(load, levels[0], levels[1]);
      var name, above := Parent(page).value, levels[1..];
      assert IsCompleteChain(load[name], load, above) by {
        forall i | 0 < i < |above| ensures IsParentOf(load, above[i - 1], above[i]) {
          assert IsParentOf(load, levels[i], levels[i + 1]);
        }
      }
      forall i | 0 <= i < |above| - 1 ensures TakesFresh(above[i], seen + {name}) {
        FiniteChainsDoNotRevisit(page, load, levels, 0, i + 1);
        assert IsParentOf(load, above[i], above[i + 1]);
        assert above[i] == levels[i + 1];
      }
      SeenGrows(load, seen, name);
      CompleteChainIsClimbed(load[name], load, seen + {name}, above);
      assert levels == [page] + above;
    } else {
      assert levels == [page];
    }
  }

  /**
   * Resolution succeeds exactly when following `@extends` reaches a base through
   * loadable levels all of which the collectors accept. The cycle check never
   * turns away a chain that would have ended.
   */
  lemma ResolveSucceedsExactly(page: Template, load: Loader)
    ensures Resolved(page, load).Ok? <==>
            exists levels :: IsCompleteChain(page, load, levels) && AllClean(levels)
    ensures Resolved(page, load).Ok? <==>
            exists levels :: IsLayoutChain(page, load, levels) && AllClean(levels)
  {
    forall levels ensures IsCompleteChain(page, load, levels) <==> IsLayoutChain(page, load, levels) {
      CompleteChainsAreLayoutChains(page, load, levels);
    }
    if Climb(page, load, {}).Ok? {
      ClimbVisitsAChain(page, load, {});
      assert IsCompleteChain(page, load, Climb(page, load, {}).value);
    }
    if levels :| IsCompleteChain(page, load, levels) && AllClean(levels) {
      CompleteChainIsClimbed(page, load, {}, levels);
    }
  }

  // ----- which error, and why -----

  /** What goes wrong at the last of `levels`, the checks tried in the order the code has them. */
  ghost predicate FailsAtLast(levels: seq<Template>, load: Loader, seen: set<string>, e: ResolveError)
    requires levels != []
  {
    var last := levels[|levels| - 1];
    if Rejected(last, PushDirective) then e == PushInForeach
    else if Rejected(last, GlobalsDirective) then e == GlobalsInForeach
    else if Parent(last).None? then false
    else
      var name := Parent(last).value;
      if name in seen || Revisits(levels, name) then e == Cycle(name)
      else name !in load && e == LoadFailed(name)
  }

  /** A chain whose levels below the last are accepted and take fresh parents. */
  ghost predicate IsFreshChain(page: Template, load: Loader, levels: seq<Template>, seen: set<string>) {
    IsChain(page, load, levels) && AllClean(levels[..|levels| - 1]) &&
    (forall i :: 0 <= i < |levels| - 1 ==> TakesFresh(levels[i], seen)) &&
    forall i, j :: 0 <= i < j < |levels| - 1 ==> Parent(levels[i]) != Parent(levels[j])
  }

  lemma FreshChainBelow(page: Template, load: Loader, seen: set<string>, above: seq<Template>)
    requires Clean(page) && Parent(page).Some? && Parent(page).value in load && Parent(page).value !in seen
    requires IsFreshChain(load[Parent(page).value], load, above, seen + {Parent(page).value})
    ensures IsFreshChain(page, load, [page] + above, seen)
  {
  }

  lemma {:induction false} ClimbErrorHasCause(page: Template, load: Loader, seen: set<string>)
    returns (levels: seq<Template>)
    requires Climb(page, load, seen).Err?
    ensures IsFreshChain(page, load, levels, seen)
    ensures FailsAtLast(levels, load, seen, Climb(page, load, seen).error)
    decreases |load.Keys - seen|
  {
    if Clean(page) && Parent(page).Some? && Parent(page).value !in seen && Parent(page).value in load {
      var name := Parent(page).value;
      SeenGrows(load, seen, name);
      var above := ClimbErrorHasCause(load[name], load, seen + {name});
      levels := [page] + above;
      FreshChainBelow(page, load, seen, above);
      assert levels[1..] == above;
      FailsAtLastAbove(page, load, seen, levels, Climb(page, load, seen).error);
    } else {
      levels := [page];
    }
  }

  lemma FreshChainAbove(page: Template, load: Loader, seen: set<string>, levels: seq<Template>)
    requires IsFreshChain(page, load, levels, seen) && |levels| > 1
    ensures Clean(page) && Parent(page).Some? && Parent(page).value in load && Parent(page).value !in seen
    ensures IsFreshChain(load[Parent(page).value], load, levels[1..], seen + {Parent(page).value})
  {
    var above := levels[1..];
    assert IsParentOf(load, levels[0], levels[1]);
    assert levels[..|levels| - 1][0] == page;
    var below := above[..|above| - 1];
    forall i | 0 <= i < |below| ensures Clean(below[i]) {
      assert below[i] == levels[..|levels| - 1][i + 1];
    }
    forall i | 0 < i < |above| ensures IsParentOf(load, above[i - 1], above[i]) {
      assert IsParentOf(load, levels[i], levels[i + 1]);
    }
    forall i | 0 <= i < |above| - 1 ensures TakesFresh(above[i], seen + {Parent(page).value}) {
      assert Parent(levels[0]) != Parent(levels[i + 1]);
    }
  }

  lemma FailsAtLastAbove(
      page: Template, load: Loader, seen: set<string>, levels: seq<Template>, e: ResolveError)
    requires |levels| > 1 && levels[0] == page && Parent(page).Some?
    ensures FailsAtLast(levels, load, seen, e) <==> FailsAtLast(levels[1..], load, seen + {Parent(page).value}, e)
  {
  }

  lemma {:induction false} CauseIsClimbError(
      page: Template, load: Loader, seen: set<string>, levels: seq<Template>, e: ResolveError)
    requires IsFreshChain(page, load, levels, seen) && FailsAtLast(levels, load, seen, e)
    ensures Climb(page, load, seen) == Err(e)
    decreases |levels|
  {
    if |levels| > 1 {
      FreshChainAbove(page, load, seen, levels);
      FailsAtLastAbove(page, load, seen, levels, e);
      var name := Parent(page).value;
      SeenGrows(load, seen, name);
      CauseIsClimbError(load[name], load, seen + {name}, levels[1..], e);
    } else {
      assert forall n :: !Revisits(levels, n);
    }
  }

  /** Some level below the last extends `name`. */
  ghost predicate ExtendedBelow(levels: seq<Template>, name: string) {
    exists i :: 0 <= i < |levels| - 1 && ExtendsFirst(levels[i], name)
  }

  /** The last level extends `name`, and that is a cycle or does not load. */
  ghost predicate FailsOn(levels: seq<Template>, load: Loader, name: string, e: ResolveError)
    requires levels != []
  {
    ExtendsFirst(levels[|levels| - 1], name) &&
    if ExtendedBelow(levels, name) then e == Cycle(name) else name !in load && e == LoadFailed(name)
  }

  /** The failure at the last level, said with its first `@extends`. */
  lemma FailureIsAtTheFirstExtends(levels: seq<Template>, load: Loader, e: ResolveError)
    requires levels != []
    ensures FailsAtLast(levels, load, {}, e) <==>
            if Rejected(levels[|levels| - 1], PushDirective) then e == PushInForeach
            else if Rejected(levels[|levels| - 1], GlobalsDirective) then e == GlobalsInForeach
            else exists name :: FailsOn(levels, load, name, e)
  {
    var last := levels[|levels| - 1];
    if Parent(last).Some? {
      var name := Parent(last).value;
      ParentIsTheFirst(last, name);
      RevisitsAreExtends(levels, name);
      assert FailsAtLast(levels, load, {}, e) && Clean(last) ==> FailsOn(levels, load, name, e);
    }
    if name :| FailsOn(levels, load, name, e) {
      ParentIsTheFirst(last, name);
      RevisitsAreExtends(levels, name);
    }
  }

  lemma RevisitsAreExtends(levels: seq<Template>, name: string)
    ensures Revisits(levels, name) <==> ExtendedBelow(levels, name)
  {
    forall i | 0 <= i < |levels| ensures Parent(levels[i]) == Some(name) <==> ExtendsFirst(levels[i], name) {
      ParentIsTheFirst(levels[i], name);
    }
  }

  /** Resolution fails with `e` exactly when some chain of accepted, fresh levels ends in that failure. */
  lemma ResolveFailsExactly(page: Template, load: Loader, e: ResolveError)
    ensures Resolved(page, load) == Err(e) <==>
            exists levels :: IsFreshChain(page, load, levels, {}) && FailsAtLast(levels, load, {}, e)
  {
    if Climb(page, load, {}) == Err(e) {
      var levels := ClimbErrorHasCause(page, load, {});
    }
    if levels :| IsFreshChain(page, load, levels, {}) && FailsAtLast(levels, load, {}, e) {
      CauseIsClimbError(page, load, {}, levels, e);
    }
  }
}
