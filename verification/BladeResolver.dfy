/**
 * The resolver as it runs: loops over nodes that update shared accumulators.
 * Its methods are proved to compute the functions of `BladeCollection` and
 * `BladeChain`.
 */
module BladeResolver {
  import opened Outcomes
  import opened BladeAst
  import opened BladeSubstitution
  import opened BladeCollection
  import opened BladeChain

  /** The accumulators one resolution threads through its recursive calls. */
  class Resolution {
    const load: Loader
    var seen: set<string>
    var pushes: Bodies
    var globals: map<string, string>
    /** The names handed to the load callback so far, in order. */
    var loads: seq<string>

    constructor (load: Loader)
      ensures this.load == load
      ensures seen == {} && pushes == map[] && globals == map[] && loads == []
    {
      this.load := load;
      seen, pushes, globals, loads := {}, map[], map[], [];
    }

    /** Appends every pushed body to its stack, or fails on a push below a loop. */
    method CollectPushes(nodes: Template) returns (ok: bool)
      modifies this`pushes
      ensures ok <==> !Rejected(nodes, PushDirective)
      ensures ok ==> pushes == Register(old(pushes), PushList(nodes))
      decreases nodes, 0
    {
      for i := 0 to |nodes|
        invariant !Rejected(nodes[..i], PushDirective)
        invariant pushes == Register(old(pushes), PushList(nodes[..i]))
      {
        PushesStep(nodes, i, old(pushes));
        ok := CollectPushesIn(nodes[i]);
        if !ok { return; }
      }
      assert nodes[..|nodes|] == nodes;
      ok := true;
    }

    /** The body of that loop, for one node. */
    method CollectPushesIn(node: Node) returns (ok: bool)
      modifies this`pushes
      ensures ok <==> !RejectedIn(node, PushDirective)
      ensures ok ==> pushes == Register(old(pushes), PushListIn(node))
      decreases node, 0
    {
      ok := true;
      match node {
        case Push(name, body) =>
          pushes := pushes[name := Lookup(pushes, name) + body];
          ok := CollectPushes(body);
          RegisterConcat(old(pushes), [(name, body)], PushList(body));
        case If(_, t, e) =>
          ok := CollectPushes(t);
          if !ok { return; }
          ok := CollectPushes(e);
          RegisterConcat(old(pushes), PushList(t), PushList(e));
        case Foreach(_, _, body) =>
          if ContainsPush(body) { return false; }
          ok := CollectPushes(body);
        case Section(_, body) =>
          ok := CollectPushes(body);
        case _ =>
      }
    }

    /** Merges a level's assignments; names already collected keep their value. */
    method CollectGlobals(nodes: Template) returns (ok: bool)
      modifies this`globals
      ensures ok <==> !Rejected(nodes, GlobalsDirective)
      ensures ok ==> globals == Assign(map[], EntryList(nodes)) + old(globals)
      ensures !ok ==> globals == old(globals)
    {
      var local;
      ok, local := CollectGlobalsInto(nodes, map[]);
      if !ok { return; }
      // The hash map is walked in an order nothing is known about.
      var names := local.Keys;
      while names != {}
        invariant names <= local.Keys
        invariant globals == (map n | n in local.Keys - names :: local[n]) + old(globals)
      {
        var name :| name in names;
        if name !in globals {
          globals := globals[name := local[name]];
        }
        names := names - {name};
      }
      assert (map n | n in local.Keys - names :: local[n]) == local;
    }

    static method CollectGlobalsInto(nodes: Template, local0: map<string, string>)
      returns (ok: bool, local: map<string, string>)
      ensures ok <==> !Rejected(nodes, GlobalsDirective)
      ensures ok ==> local == Assign(local0, EntryList(nodes))
      decreases nodes, 0
    {
      local := local0;
      for i := 0 to |nodes|
        invariant !Rejected(nodes[..i], GlobalsDirective)
        invariant local == Assign(local0, EntryList(nodes[..i]))
      {
        EntriesStep(nodes, i, local0);
        ok, local := CollectGlobalsFrom(nodes[i], local);
        if !ok { return; }
      }
      assert nodes[..|nodes|] == nodes;
      ok := true;
    }

    /** The body of that loop, for one node. */
    static method CollectGlobalsFrom(node: Node, local0: map<string, string>)
      returns (ok: bool, local: map<string, string>)
      ensures ok <==> !RejectedIn(node, GlobalsDirective)
      ensures ok ==> local == Assign(local0, EntryListIn(node))
      decreases node, 0
    {
      ok, local := true, local0;
      match node {
        case Globals(entries) =>
          for k := 0 to |entries|
            invariant local == Assign(local0, entries[..k])
          {
            AssignConcat(local0, entries[..k], [entries[k]]);
            assert entries[..k + 1] == entries[..k] + [entries[k]];
            local := local[entries[k].0 := entries[k].1];
          }
          assert entries[..|entries|] == entries;
        case If(_, t, e) =>
          ok, local := CollectGlobalsInto(t, local);
          if !ok { return; }
          ok, local := CollectGlobalsInto(e, local);
          AssignConcat(local0, EntryList(t), EntryList(e));
        case Foreach(_, _, body) =>
          if ContainsGlobals(body) { return false, local; }
          ok, local := CollectGlobalsInto(body, local);
        case Section(_, body) =>
          ok, local := CollectGlobalsInto(body, local);
        case Push(_, body) =>
          ok, local := CollectGlobalsInto(body, local);
        case _ =>
      }
    }

    /** The load callback was handed each seen name once and no other. */
    ghost predicate LoadLogIsExact()
      reads this
    {
      (forall name :: name in seen <==> name in loads) && NoRepeats(loads)
    }

    method ResolveInner(nodes: Template) returns (r: Result<Template, ResolveError>)
      requires LoadLogIsExact()
      modifies this
      ensures LoadLogIsExact()
      ensures match Climb(nodes, load, old(seen))
              case Err(e) => r == Err(e)
              case Ok(levels) =>
                levels != [] && r == Ok(Flatten(levels)) &&
                pushes == PushesFrom(old(pushes), levels) && globals == GlobalsFrom(old(globals), levels)
      decreases |load.Keys - seen|
    {
      var ok := CollectPushes(nodes);
      if !ok { return Err(PushInForeach); }
      ok := CollectGlobals(nodes);
      if !ok { return Err(GlobalsInForeach); }

      var extended := Parent(nodes);
      if extended.None? { return Ok(nodes); }
      var parentName := extended.value;
      if parentName in seen { return Err(Cycle(parentName)); }
      seen := seen + {parentName};

      var sections := CollectSections(nodes);
      loads := loads + [parentName];
      if parentName !in load { return Err(LoadFailed(parentName)); }
      SeenGrows(load, old(seen), parentName);
      var resolvedParent := ResolveInner(load[parentName]);
      if resolvedParent.Err? { return resolvedParent; }
      r := Ok(SubstituteYields(resolvedParent.value, sections));
    }
  }

  predicate NoRepeats(names: seq<string>) {
    forall i, j :: 0 <= i < j < |names| ==> names[i] != names[j]
  }

  /** Gathers the top-level sections, a later one replacing an earlier one. */
  method CollectSections(nodes: Template) returns (sections: Bodies)
    ensures sections == TopSections(nodes)
  {
    sections := map[];
    for i := 0 to |nodes|
      invariant sections == TopSections(nodes[..i])
    {
      assert nodes[..i + 1][..i] == nodes[..i];
      if nodes[i].Section? {
        sections := sections[nodes[i].name := nodes[i].body];
      }
    }
    assert nodes[..|nodes|] == nodes;
  }

  /** One more node: what it adds to the list and to the rejection rule. */
  lemma PushesStep(nodes: Template, i: nat, pushes: Bodies)
    requires i < |nodes|
    ensures Rejected(nodes[..i + 1], PushDirective) <==>
            Rejected(nodes[..i], PushDirective) || RejectedIn(nodes[i], PushDirective)
    ensures RejectedIn(nodes[i], PushDirective) ==> Rejected(nodes, PushDirective)
    ensures Register(pushes, PushList(nodes[..i + 1])) ==
            Register(Register(pushes, PushList(nodes[..i])), PushListIn(nodes[i]))
  {
    var one := [nodes[i]];
    assert nodes[..i + 1] == nodes[..i] + one && one[1..] == [];
    PushListConcat(nodes[..i], one);
    assert PushList(one) == PushListIn(nodes[i]);
    RejectedConcat(nodes[..i], one, PushDirective);
    assert nodes == nodes[..i + 1] + nodes[i + 1..];
    RejectedConcat(nodes[..i + 1], nodes[i + 1..], PushDirective);
    RegisterConcat(pushes, PushList(nodes[..i]), PushListIn(nodes[i]));
  }

  lemma EntriesStep(nodes: Template, i: nat, local: map<string, string>)
    requires i < |nodes|
    ensures Rejected(nodes[..i + 1], GlobalsDirective) <==>
            Rejected(nodes[..i], GlobalsDirective) || RejectedIn(nodes[i], GlobalsDirective)
    ensures RejectedIn(nodes[i], GlobalsDirective) ==> Rejected(nodes, GlobalsDirective)
    ensures Assign(local, EntryList(nodes[..i + 1])) ==
            Assign(Assign(local, EntryList(nodes[..i])), EntryListIn(nodes[i]))
  {
    var one := [nodes[i]];
    assert nodes[..i + 1] == nodes[..i] + one && one[1..] == [];
    EntryListConcat(nodes[..i], one);
    assert EntryList(one) == EntryListIn(nodes[i]);
    RejectedConcat(nodes[..i], one, GlobalsDirective);
    assert nodes == nodes[..i + 1] + nodes[i + 1..];
    RejectedConcat(nodes[..i + 1], nodes[i + 1..], GlobalsDirective);
    AssignConcat(local, EntryList(nodes[..i]), EntryListIn(nodes[i]));
  }

  /** Resolves a page into one flat template, or reports why it cannot. */
  method Resolve(nodes: Template, load: Loader) returns (r: Result<Template, ResolveError>, ghost loads: seq<string>)
    ensures r == Resolved(nodes, load)
    ensures NoRepeats(loads)
  {
    var state := new Resolution(load);
    r := state.ResolveInner(nodes);
    loads := state.loads;
    if r.Ok? {
      r := Ok(SubstituteGlobals(SubstituteStacks(r.value, state.pushes), state.globals));
    }
  }
}
