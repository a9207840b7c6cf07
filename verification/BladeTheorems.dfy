/** What resolving a chain means, what it collects, and what it can leave behind. */
module BladeTheorems {
  import opened Outcomes
  import opened BladeAst
  import opened BladeSubstitution
  import opened BladeCollection
  import opened BladeRendering
  import opened BladeChain

  // ----- meaning -----

  /** Section maps of a chain in the order a late-bound yield consults them: base's child first. */
  function PendingSections(levels: seq<Template>): seq<Bodies>
    requires levels != []
  {
    if |levels| == 1 then [] else PendingSections(levels[1..]) + [TopSections(levels[0])]
  }

  lemma {:induction false} FlattenPreservesMeaning<S, V>(levels: seq<Template>, env: Env, m: Machine<S, V>, s: S)
    requires levels != []
    ensures Render(Flatten(levels), env, m, s)
         == Render(levels[|levels| - 1], env.(sections := PendingSections(levels) + env.sections), m, s)
    decreases |levels|
  {
    hide Render, TopSections, SubstituteYields;
    if |levels| == 1 {
      assert [] + env.sections == env.sections;
    } else {
      var inner, sections := Flatten(levels[1..]), TopSections(levels[0]);
      YieldsAreARewrite(inner, sections);
      RewritePreservesMeaning(inner, Yields(sections), env, m, s);
      FlattenPreservesMeaning(levels[1..], Binding(env, Yields(sections)), m, s);
      assert PendingSections(levels[1..]) + ([sections] + env.sections)
          == PendingSections(levels) + env.sections;
    }
  }

  /** The environment a whole chain gives its base layout. */
  function ChainEnv(levels: seq<Template>): Env
    requires levels != []
  {
    Env(PendingSections(levels), Some(PushesFrom(map[], levels)), Some(GlobalsFrom(map[], levels)))
  }

  /**
   * The three eager passes preserve meaning: rendering the resolved template with
   * nothing bound is rendering the untouched base layout with every placeholder
   * looked up late, on every machine and from every state.
   */
  lemma ResolutionPreservesMeaning<S, V>(page: Template, load: Loader, levels: seq<Template>, m: Machine<S, V>, s: S)
    requires IsCompleteChain(page, load, levels) && AllClean(levels)
    ensures Resolved(page, load).Ok?
    ensures Render(Resolved(page, load).value, NOTHING_BOUND, m, s)
         == Render(levels[|levels| - 1], ChainEnv(levels), m, s)
  {
    ResolveSucceedsExactly(page, load);
    CompleteChainIsClimbed(page, load, {}, levels);
    var pushes, globals := PushesFrom(map[], levels), GlobalsFrom(map[], levels);
    var flat := Flatten(levels);
    var stacked := SubstituteStacks(flat, pushes);
    var withGlobals := Env([], None, Some(globals));
    var withStacks := Env([], Some(pushes), Some(globals));
    GlobalsAreARewrite(stacked, globals);
    RewritePreservesMeaning(stacked, Assignments(globals), NOTHING_BOUND, m, s);
    StacksAreARewrite(flat, pushes);
    RewritePreservesMeaning(flat, Stacks(pushes), withGlobals, m, s);
    FlattenPreservesMeaning(levels, withStacks, m, s);
    assert PendingSections(levels) + [] == PendingSections(levels);
  }

  // ----- a chain is one substitution -----

  /** The single substitution an n-level chain amounts to. */
  function ChainSections(levels: seq<Template>): Bodies
    requires |levels| > 1
  {
    if |levels| == 2 then TopSections(levels[0])
    else Compose(ChainSections(levels[1..]), TopSections(levels[0]))
  }

  /**
   * Flattening level by level is one simultaneous substitution into the base. Its
   * names are those the base's direct child defines, so a yield the child leaves
   * out is empty whatever the levels below it define.
   */
  lemma {:induction false} ChainIsOneSubstitution(levels: seq<Template>)
    requires |levels| > 1
    ensures Flatten(levels) == SubstituteYields(levels[|levels| - 1], ChainSections(levels))
    ensures ChainSections(levels).Keys == TopSections(levels[|levels| - 2]).Keys
    decreases |levels|
  {
    if |levels| > 2 {
      ChainIsOneSubstitution(levels[1..]);
      YieldsCompose(levels[|levels| - 1], ChainSections(levels[1..]), TopSections(levels[0]));
      assert levels[1..][|levels| - 3] == levels[|levels| - 2];
    }
  }

  predicate IsSection(node: Node, name: string) {
    node.Section? && node.name == name
  }

  /** The section at `i` is the last top-level one of its name. */
  ghost predicate LastSection(nodes: Template, name: string, i: nat) {
    i < |nodes| && IsSection(nodes[i], name) && forall j :: i < j < |nodes| ==> !IsSection(nodes[j], name)
  }

  /** `TopSections` holds, for every name, the body of its last top-level section. */
  lemma {:induction false} TopSectionsAreTheLast(nodes: Template, name: string, i: nat)
    requires LastSection(nodes, name, i)
    ensures name in TopSections(nodes) && TopSections(nodes)[name] == nodes[i].body
    decreases |nodes|
  {
    var front := nodes[..|nodes| - 1];
    if i < |front| {
      assert forall j :: i < j < |front| ==> front[j] == nodes[j];
      TopSectionsAreTheLast(front, name, i);
      assert !IsSection(nodes[|front|], name);
    }
  }

  /** And no other names. */
  lemma {:induction false} TopSectionsAreSections(nodes: Template, name: string)
    requires name in TopSections(nodes)
    ensures exists i :: 0 <= i < |nodes| && IsSection(nodes[i], name)
    decreases |nodes|
  {
    var front := nodes[..|nodes| - 1];
    if IsSection(nodes[|front|], name) {
    } else {
      TopSectionsAreSections(front, name);
      var i :| 0 <= i < |front| && IsSection(front[i], name);
      assert IsSection(nodes[i], name);
    }
  }

  // ----- stacks and globals over the chain -----

  /** The bodies pushed to `name` by each level, child-most level first. */
  function ChainBodiesFor(name: string, levels: seq<Template>): Template {
    if levels == [] then [] else BodiesFor(name, PushList(levels[0])) + ChainBodiesFor(name, levels[1..])
  }

  /** A stack's content is that concatenation, on top of what was collected before. */
  lemma {:induction false} StackContentsAreExact(pushes: Bodies, levels: seq<Template>, name: string)
    ensures Lookup(PushesFrom(pushes, levels), name) == Lookup(pushes, name) + ChainBodiesFor(name, levels)
    decreases |levels|
  {
    if levels != [] {
      RegisterIsExact(pushes, PushList(levels[0]), name);
      StackContentsAreExact(Register(pushes, PushList(levels[0])), levels[1..], name);
    }
  }

  /** Some `@globals` block of the level assigns `name`. */
  ghost predicate Assigns(level: Template, name: string) {
    exists i :: 0 <= i < |EntryList(level)| && EntryList(level)[i].0 == name
  }

  /** `value` is what the last assignment to `name` in the level says. */
  ghost predicate LastValue(level: Template, name: string, value: string) {
    exists i: nat :: LastAssignment(EntryList(level), i) && EntryList(level)[i] == (name, value)
  }

  lemma LevelGlobals(level: Template, name: string)
    ensures name in Assign(map[], EntryList(level)) <==> Assigns(level, name)
    ensures name in Assign(map[], EntryList(level)) ==> LastValue(level, name, Assign(map[], EntryList(level))[name])
  {
    var entries := EntryList(level);
    if Assigns(level, name) {
      var i :| 0 <= i < |entries| && entries[i].0 == name;
      var last := LastIndex(entries, name, i);
      AssignKeepsLast(map[], entries, last);
      assert entries[last] == (name, entries[last].1);
    } else {
      AssignFrame(map[], entries, name);
    }
  }

  lemma {:induction false} LastIndex(entries: seq<(string, string)>, name: string, i: nat) returns (last: nat)
    requires i < |entries| && entries[i].0 == name
    ensures LastAssignment(entries, last) && entries[last].0 == name
    decreases |entries| - i
  {
    if j :| i < j < |entries| && entries[j].0 == name {
      last := LastIndex(entries, name, j);
    } else {
      last := i;
    }
  }

  /** Level `i` is the child-most level that assigns `name`. */
  ghost predicate FirstAssigning(levels: seq<Template>, name: string, i: nat) {
    i < |levels| && Assigns(levels[i], name) && forall j :: 0 <= j < i ==> !Assigns(levels[j], name)
  }

  lemma {:induction false} GlobalsFromFrame(globals: map<string, string>, levels: seq<Template>, name: string)
    ensures name in globals ==>
            name in GlobalsFrom(globals, levels) && GlobalsFrom(globals, levels)[name] == globals[name]
    ensures (forall i :: 0 <= i < |levels| ==> !Assigns(levels[i], name)) && name !in globals ==>
            name !in GlobalsFrom(globals, levels)
    decreases |levels|
  {
    if levels != [] {
      LevelGlobals(levels[0], name);
      GlobalsFromFrame(Assign(map[], EntryList(levels[0])) + globals, levels[1..], name);
    }
  }

  lemma {:induction false} FirstAssigningWins(globals: map<string, string>, levels: seq<Template>, name: string, i: nat)
    requires name !in globals && FirstAssigning(levels, name, i)
    ensures name in GlobalsFrom(globals, levels)
    ensures LastValue(levels[i], name, GlobalsFrom(globals, levels)[name])
    decreases |levels|
  {
    LevelGlobals(levels[0], name);
    var merged := Assign(map[], EntryList(levels[0])) + globals;
    if i == 0 {
      GlobalsFromFrame(merged, levels[1..], name);
    } else {
      assert FirstAssigning(levels[1..], name, i - 1);
      FirstAssigningWins(merged, levels[1..], name, i - 1);
    }
  }

  /**
   * A global's value is the last assignment, in traversal order, of the child-most
   * level that assigns its name; a name no level assigns has none.
   */
  lemma GlobalsPrecedence(levels: seq<Template>, name: string)
    ensures name in GlobalsFrom(map[], levels) <==> exists i: nat :: FirstAssigning(levels, name, i)
    ensures forall i: nat :: FirstAssigning(levels, name, i) ==>
            name in GlobalsFrom(map[], levels) && LastValue(levels[i], name, GlobalsFrom(map[], levels)[name])
  {
    forall i: nat | FirstAssigning(levels, name, i)
      ensures name in GlobalsFrom(map[], levels) && LastValue(levels[i], name, GlobalsFrom(map[], levels)[name])
    {
      FirstAssigningWins(map[], levels, name, i);
    }
    if forall i: nat :: !FirstAssigning(levels, name, i) {
      NoneAssigns(levels, name, |levels|);
      GlobalsFromFrame(map[], levels, name);
    }
  }

  lemma {:induction false} NoneAssigns(levels: seq<Template>, name: string, n: nat)
    requires n <= |levels| && forall i: nat :: !FirstAssigning(levels, name, i)
    ensures forall i :: 0 <= i < n ==> !Assigns(levels[i], name)
  {
    if n > 0 {
      NoneAssigns(levels, name, n - 1);
      assert !FirstAssigning(levels, name, n - 1);
    }
  }

  // ----- what a placeholder of the base layout shows -----

  /** A stack shows the bodies the levels pushed to it and nothing else, so nothing where none is pushed. */
  lemma PlacedStackIsExact(levels: seq<Template>, name: string)
    ensures SubstituteStacks([Stack(name)], PushesFrom(map[], levels)) == ChainBodiesFor(name, levels)
  {
    StackContentsAreExact(map[], levels, name);
    assert [Stack(name)][1..] == [];
    var placed := Lookup(PushesFrom(map[], levels), name);
    assert [] + ChainBodiesFor(name, levels) == ChainBodiesFor(name, levels) && placed + [] == placed;
  }

  /** A yield shows the last top-level section of its name in the level below, and nothing if there is none. */
  lemma PlacedYieldIsExact(nodes: Template, name: string)
    ensures forall i: nat :: LastSection(nodes, name, i) ==>
            SubstituteYields([Yield(name)], TopSections(nodes)) == nodes[i].body
    ensures (forall i :: 0 <= i < |nodes| ==> !IsSection(nodes[i], name)) ==>
            SubstituteYields([Yield(name)], TopSections(nodes)) == []
  {
    YieldsOfOne(Yield(name), TopSections(nodes));
    forall i: nat | LastSection(nodes, name, i)
      ensures name in TopSections(nodes) && TopSections(nodes)[name] == nodes[i].body
    {
      TopSectionsAreTheLast(nodes, name, i);
    }
    if name in TopSections(nodes) {
      TopSectionsAreSections(nodes, name);
    }
  }

  ghost predicate IsAssigned(levels: seq<Template>, name: string) {
    exists i: nat :: FirstAssigning(levels, name, i)
  }

  ghost predicate IsValueOf(levels: seq<Template>, name: string, value: string) {
    forall i: nat :: FirstAssigning(levels, name, i) ==> LastValue(levels[i], name, value)
  }

  /** A `@global` shows the value assigned to it, escaped, else its fallback, else nothing. */
  lemma PlacedGlobalIsExact(levels: seq<Template>, name: string, fallback: Option<string>)
    ensures var out := SubstituteGlobals([Global(name, fallback)], GlobalsFrom(map[], levels));
            if IsAssigned(levels, name) then
              |out| == 1 && out[0].Interpolate? && out[0].escape && IsValueOf(levels, name, out[0].expr)
            else out == match fallback case Some(expr) => [Interpolate(expr, true)] case None => []
  {
    GlobalsPrecedence(levels, name);
    assert [Global(name, fallback)][1..] == [];
    var placed := GlobalValue(name, fallback, GlobalsFrom(map[], levels));
    assert placed + [] == placed;
  }

  // ----- what is left at reachable positions -----

  ghost predicate HasYield(nodes: Template) { exists n :: Reaches(nodes, Yield(n)) }
  ghost predicate HasStack(nodes: Template) { exists n :: Reaches(nodes, Stack(n)) }
  ghost predicate HasGlobal(nodes: Template) { exists n, f :: Reaches(nodes, Global(n, f)) }

  lemma ReachesItself(leaf: Node)
    requires IsLeaf(leaf)
    ensures Reaches([leaf], leaf)
  {
  }

  lemma OnlyItself(other: Node, leaf: Node)
    requires IsLeaf(other) && Reaches([other], leaf)
    ensures other == leaf
  {
    assert [other] == [other] + [] && [other][1..] == [];
    assert ReachesIn([other][0], leaf) || Reaches([other][1..], leaf);
  }

  /** The generic law, with the leaves a pass does not replace separated out. */
  lemma LeafOrSpliced(nodes: Template, pass: Pass, leaf: Node)
    requires IsLeaf(leaf)
    ensures Reaches(Rewrite(nodes, pass), leaf) <==>
            (Reaches(nodes, leaf) && Replacement(leaf, pass) == [leaf]) ||
            exists m :: IsLeaf(m) && Replacement(m, pass) != [m] && Reaches(nodes, m) &&
              Reaches(Replacement(m, pass), leaf)
  {
    RewriteReaches(nodes, pass, leaf);
    assert [leaf][1..] == [];
    if m :| IsLeaf(m) && Reaches(nodes, m) && Reaches(Replacement(m, pass), leaf) {
      assert [m][1..] == [];
    }
  }

  /** One leaf of a yield pass's output: an old one that is no yield, or one of a spliced section. */
  lemma YieldPassLeaf(nodes: Template, sections: Bodies, leaf: Node)
    requires IsLeaf(leaf)
    ensures Reaches(SubstituteYields(nodes, sections), leaf) <==>
            (Reaches(nodes, leaf) && !leaf.Yield?) ||
            exists n :: Reaches(nodes, Yield(n)) && Reaches(Lookup(sections, n), leaf)
  {
    YieldsAreARewrite(nodes, sections);
    hide Reaches, Rewrite, SubstituteYields;
    ReachesItself(leaf);
    RewriteReaches(nodes, Yields(sections), leaf);
    if n :| Reaches(nodes, Yield(n)) && Reaches(Lookup(sections, n), leaf) {
      assert Replacement(Yield(n), Yields(sections)) == Lookup(sections, n);
    }
    if m :| IsLeaf(m) && Reaches(nodes, m) && Reaches(Replacement(m, Yields(sections)), leaf) && !m.Yield? {
      OnlyItself(m, leaf);
    }
  }

  /** Yields left by a yield pass are those in the bodies that were actually spliced in. */
  lemma YieldPassLeaves(nodes: Template, sections: Bodies)
    ensures HasYield(SubstituteYields(nodes, sections)) <==>
            exists n :: Reaches(nodes, Yield(n)) && HasYield(Lookup(sections, n))
    ensures HasStack(SubstituteYields(nodes, sections)) <==>
            HasStack(nodes) || exists n :: Reaches(nodes, Yield(n)) && HasStack(Lookup(sections, n))
  {
    hide Reaches, SubstituteYields, Lookup;
    var out := SubstituteYields(nodes, sections);
    forall leaf | IsLeaf(leaf)
      ensures Reaches(out, leaf) <==>
              (Reaches(nodes, leaf) && !leaf.Yield?) ||
              exists n :: Reaches(nodes, Yield(n)) && Reaches(Lookup(sections, n), leaf)
    {
      YieldPassLeaf(nodes, sections, leaf);
    }
  }

  lemma StackPassLeaf(nodes: Template, pushes: Bodies, leaf: Node)
    requires IsLeaf(leaf)
    ensures Reaches(SubstituteStacks(nodes, pushes), leaf) <==>
            (Reaches(nodes, leaf) && !leaf.Stack?) ||
            exists n :: Reaches(nodes, Stack(n)) && Reaches(Lookup(pushes, n), leaf)
  {
    StacksAreARewrite(nodes, pushes);
    hide Reaches, Rewrite, SubstituteStacks;
    ReachesItself(leaf);
    RewriteReaches(nodes, Stacks(pushes), leaf);
    if n :| Reaches(nodes, Stack(n)) && Reaches(Lookup(pushes, n), leaf) {
      assert Replacement(Stack(n), Stacks(pushes)) == Lookup(pushes, n);
    }
    if m :| IsLeaf(m) && Reaches(nodes, m) && Reaches(Replacement(m, Stacks(pushes)), leaf) && !m.Stack? {
      OnlyItself(m, leaf);
    }
  }

  lemma StackPassLeaves(nodes: Template, pushes: Bodies)
    ensures HasYield(SubstituteStacks(nodes, pushes)) <==>
            HasYield(nodes) || exists n :: Reaches(nodes, Stack(n)) && HasYield(Lookup(pushes, n))
    ensures HasStack(SubstituteStacks(nodes, pushes)) <==>
            exists n :: Reaches(nodes, Stack(n)) && HasStack(Lookup(pushes, n))
  {
    hide Reaches, SubstituteStacks, Lookup;
    var out := SubstituteStacks(nodes, pushes);
    forall leaf | IsLeaf(leaf)
      ensures Reaches(out, leaf) <==>
              (Reaches(nodes, leaf) && !leaf.Stack?) ||
              exists n :: Reaches(nodes, Stack(n)) && Reaches(Lookup(pushes, n), leaf)
    {
      StackPassLeaf(nodes, pushes, leaf);
    }
  }

  /** The globals pass leaves no `@global` and touches nothing else. */
  lemma GlobalPassLeaves(nodes: Template, globals: map<string, string>)
    ensures !HasGlobal(SubstituteGlobals(nodes, globals))
    ensures HasYield(SubstituteGlobals(nodes, globals)) <==> HasYield(nodes)
    ensures HasStack(SubstituteGlobals(nodes, globals)) <==> HasStack(nodes)
  {
    GlobalsAreARewrite(nodes, globals);
    var pass, out := Assignments(globals), SubstituteGlobals(nodes, globals);
    forall leaf | IsLeaf(leaf) && !leaf.Interpolate?
      ensures Reaches(out, leaf) <==> Reaches(nodes, leaf) && !leaf.Global?
    {
      LeafOrSpliced(nodes, pass, leaf);
    }
  }

  /** Whatever a page is and extends, its resolution holds no `@global` at a reachable position. */
  lemma NoGlobalSurvives(page: Template, load: Loader)
    requires Resolved(page, load).Ok?
    ensures !HasGlobal(Resolved(page, load).value)
  {
    ClimbVisitsAChain(page, load, {});
    var levels := Climb(page, load, {}).value;
    GlobalPassLeaves(SubstituteStacks(Flatten(levels), PushesFrom(map[], levels)), GlobalsFrom(map[], levels));
  }

  /**
   * When something is extended, the output holds neither a yield nor a stack exactly when
   * no page section that is yielded holds a yield and no pushed stack that is placed holds
   * either.
   */
  lemma LeftoversExactly(page: Template, load: Loader, levels: seq<Template>)
    requires IsCompleteChain(page, load, levels) && AllClean(levels) && |levels| > 1
    ensures Resolved(page, load).Ok?
    ensures var out := Resolved(page, load).value;
            var parent, pushes := Flatten(levels[1..]), PushesFrom(map[], levels);
            !HasYield(out) && !HasStack(out) <==>
              (forall n :: Reaches(parent, Yield(n)) ==> !HasYield(Lookup(TopSections(page), n))) &&
              (forall n :: Reaches(Flatten(levels), Stack(n)) ==>
                 !HasYield(Lookup(pushes, n)) && !HasStack(Lookup(pushes, n)))
  {
    ResolveSucceedsExactly(page, load);
    CompleteChainIsClimbed(page, load, {}, levels);
    var flat, pushes, globals := Flatten(levels), PushesFrom(map[], levels), GlobalsFrom(map[], levels);
    YieldPassLeaves(Flatten(levels[1..]), TopSections(levels[0]));
    StackPassLeaves(flat, pushes);
    GlobalPassLeaves(SubstituteStacks(flat, pushes), globals);
  }

  ghost predicate HoldsNeither(body: Template) {
    !HasYield(body) && !HasStack(body)
  }

  ghost predicate PushesHoldNeither(level: Template) {
    forall j :: 0 <= j < |PushList(level)| ==> HoldsNeither(PushList(level)[j].1)
  }

  lemma {:induction false} BodiesForHoldNeither(name: string, list: seq<(string, Template)>)
    requires forall i :: 0 <= i < |list| ==> HoldsNeither(list[i].1)
    ensures HoldsNeither(BodiesFor(name, list))
  {
    if list != [] {
      BodiesForHoldNeither(name, list[1..]);
      ConcatHoldsNeither(if list[0].0 == name then list[0].1 else [], BodiesFor(name, list[1..]));
    }
  }

  lemma ConcatHoldsNeither(a: Template, b: Template)
    requires HoldsNeither(a) && HoldsNeither(b)
    ensures HoldsNeither(a + b)
  {
    forall n { ReachesConcat(a, b, Yield(n)); }
    forall n { ReachesConcat(a, b, Stack(n)); }
  }

  lemma {:induction false} ChainBodiesHoldNeither(name: string, levels: seq<Template>)
    requires forall i :: 0 <= i < |levels| ==> PushesHoldNeither(levels[i])
    ensures HoldsNeither(ChainBodiesFor(name, levels))
  {
    if levels != [] {
      BodiesForHoldNeither(name, PushList(levels[0]));
      ChainBodiesHoldNeither(name, levels[1..]);
      ConcatHoldsNeither(BodiesFor(name, PushList(levels[0])), ChainBodiesFor(name, levels[1..]));
    }
  }

  /** So a page that keeps yields out of its sections, and placeholders out of pushes, leaves none. */
  lemma NothingLeft(page: Template, load: Loader, levels: seq<Template>)
    requires IsCompleteChain(page, load, levels) && AllClean(levels) && |levels| > 1
    requires forall n :: n in TopSections(page) ==> !HasYield(TopSections(page)[n])
    requires forall i :: 0 <= i < |levels| ==> PushesHoldNeither(levels[i])
    ensures Resolved(page, load).Ok?
    ensures var out := Resolved(page, load).value; !HasGlobal(out) && !HasYield(out) && !HasStack(out)
  {
    LeftoversExactly(page, load, levels);
    NoGlobalSurvives(page, load);
    forall n ensures !HasYield(Lookup(TopSections(page), n)) {
      MissingHoldsNone();
    }
    forall n ensures HoldsNeither(Lookup(PushesFrom(map[], levels), n)) {
      PlacedPushesHoldNeither(levels, n);
    }
    hide Resolved, Flatten, TopSections, PushesFrom, Lookup, HasYield, HasStack, HasGlobal, Reaches, IsCompleteChain;
  }

  lemma MissingHoldsNone()
    ensures HoldsNeither([])
  {
  }

  lemma PlacedPushesHoldNeither(levels: seq<Template>, name: string)
    requires forall i :: 0 <= i < |levels| ==> PushesHoldNeither(levels[i])
    ensures HoldsNeither(Lookup(PushesFrom(map[], levels), name))
  {
    StackContentsAreExact(map[], levels, name);
    ChainBodiesHoldNeither(name, levels);
    assert [] + ChainBodiesFor(name, levels) == ChainBodiesFor(name, levels);
  }
}
