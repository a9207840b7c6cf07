/** The three substitution passes and the laws they obey. */
module BladeSubstitution {
  import opened Outcomes
  import opened BladeAst

  // ----- the passes, one per placeholder -----

  function SubstituteYields(nodes: Template, sections: Bodies): Template
    decreases nodes
  {
    if nodes == [] then [] else
    SubstituteYieldsIn(nodes[0], sections) + SubstituteYields(nodes[1..], sections)
  }

  function SubstituteYieldsIn(node: Node, sections: Bodies): Template
    decreases node
  {
    match node
    case Yield(name) => Lookup(sections, name)
    case If(c, t, e) => [If(c, SubstituteYields(t, sections), SubstituteYields(e, sections))]
    case Foreach(b, i, body) => [Foreach(b, i, SubstituteYields(body, sections))]
    case Section(name, body) => [Section(name, SubstituteYields(body, sections))]
    case _ => [node]
  }

  function SubstituteStacks(nodes: Template, pushes: Bodies): Template
    decreases nodes
  {
    if nodes == [] then [] else
    SubstituteStacksIn(nodes[0], pushes) + SubstituteStacks(nodes[1..], pushes)
  }

  function SubstituteStacksIn(node: Node, pushes: Bodies): Template
    decreases node
  {
    match node
    case Stack(name) => Lookup(pushes, name)
    case If(c, t, e) => [If(c, SubstituteStacks(t, pushes), SubstituteStacks(e, pushes))]
    case Foreach(b, i, body) => [Foreach(b, i, SubstituteStacks(body, pushes))]
    case Section(name, body) => [Section(name, SubstituteStacks(body, pushes))]
    case _ => [node]
  }

  function SubstituteGlobals(nodes: Template, globals: map<string, string>): Template
    decreases nodes
  {
    if nodes == [] then [] else
    SubstituteGlobalsIn(nodes[0], globals) + SubstituteGlobals(nodes[1..], globals)
  }

  function SubstituteGlobalsIn(node: Node, globals: map<string, string>): Template
    decreases node
  {
    match node
    case Global(name, fallback) => GlobalValue(name, fallback, globals)
    case If(c, t, e) => [If(c, SubstituteGlobals(t, globals), SubstituteGlobals(e, globals))]
    case Foreach(b, i, body) => [Foreach(b, i, SubstituteGlobals(body, globals))]
    case Section(name, body) => [Section(name, SubstituteGlobals(body, globals))]
    case _ => [node]
  }

  /** What a `@global` placeholder turns into: assigned value, fallback, or nothing. */
  function GlobalValue(name: string, fallback: Option<string>, globals: map<string, string>): Template {
    if name in globals then [Interpolate(globals[name], true)]
    else if fallback.Some? then [Interpolate(fallback.value, true)]
    else []
  }

  // ----- one generic pass all three are instances of -----

  /** Which placeholders a pass replaces, and with what. */
  datatype Pass =
    | Yields(sections: Bodies)
    | Stacks(pushes: Bodies)
    | Assignments(globals: map<string, string>)

  /** The nodes that stand in for a leaf after `pass`. */
  function Replacement(leaf: Node, pass: Pass): Template {
    match (pass, leaf)
    case (Yields(sections), Yield(name)) => Lookup(sections, name)
    case (Stacks(pushes), Stack(name)) => Lookup(pushes, name)
    case (Assignments(globals), Global(name, fallback)) => GlobalValue(name, fallback, globals)
    case _ => [leaf]
  }

  /** Replaces every reachable leaf and keeps the shape above it. */
  function Rewrite(nodes: Template, pass: Pass): Template
    decreases nodes
  {
    if nodes == [] then [] else RewriteIn(nodes[0], pass) + Rewrite(nodes[1..], pass)
  }

  function RewriteIn(node: Node, pass: Pass): Template
    decreases node
  {
    match node
    case If(c, t, e) => [If(c, Rewrite(t, pass), Rewrite(e, pass))]
    case Foreach(b, i, body) => [Foreach(b, i, Rewrite(body, pass))]
    case Section(name, body) => [Section(name, Rewrite(body, pass))]
    case _ => Replacement(node, pass)
  }

  lemma {:induction false} YieldsAreARewrite(nodes: Template, sections: Bodies)
    ensures SubstituteYields(nodes, sections) == Rewrite(nodes, Yields(sections))
    decreases nodes
  {
    if nodes != [] {
      YieldsAreARewrite(nodes[1..], sections);
      match nodes[0]
      case If(_, t, e) => YieldsAreARewrite(t, sections); YieldsAreARewrite(e, sections);
      case Foreach(_, _, body) => YieldsAreARewrite(body, sections);
      case Section(_, body) => YieldsAreARewrite(body, sections);
      case _ =>
    }
  }

  lemma {:induction false} StacksAreARewrite(nodes: Template, pushes: Bodies)
    ensures SubstituteStacks(nodes, pushes) == Rewrite(nodes, Stacks(pushes))
    decreases nodes
  {
    if nodes != [] {
      StacksAreARewrite(nodes[1..], pushes);
      match nodes[0]
      case If(_, t, e) => StacksAreARewrite(t, pushes); StacksAreARewrite(e, pushes);
      case Foreach(_, _, body) => StacksAreARewrite(body, pushes);
      case Section(_, body) => StacksAreARewrite(body, pushes);
      case _ =>
    }
  }

  lemma {:induction false} GlobalsAreARewrite(nodes: Template, globals: map<string, string>)
    ensures SubstituteGlobals(nodes, globals) == Rewrite(nodes, Assignments(globals))
    decreases nodes
  {
    if nodes != [] {
      GlobalsAreARewrite(nodes[1..], globals);
      match nodes[0]
      case If(_, t, e) => GlobalsAreARewrite(t, globals); GlobalsAreARewrite(e, globals);
      case Foreach(_, _, body) => GlobalsAreARewrite(body, globals);
      case Section(_, body) => GlobalsAreARewrite(body, globals);
      case _ =>
    }
  }

  lemma {:induction false} RewriteConcat(a: Template, b: Template, pass: Pass)
    ensures Rewrite(a + b, pass) == Rewrite(a, pass) + Rewrite(b, pass)
  {
    if a == [] {
      assert a + b == b;
    } else {
      assert (a + b)[1..] == a[1..] + b;
      RewriteConcat(a[1..], b, pass);
    }
  }

  // ----- composition of yield substitutions -----

  /** First `first`, then `second`, as one substitution. */
  function Compose(first: Bodies, second: Bodies): Bodies {
    map name | name in first :: SubstituteYields(first[name], second)
  }

  /** Two yield substitutions in a row are one: composition in the order of application. */
  lemma {:induction false} YieldsCompose(nodes: Template, first: Bodies, second: Bodies)
    ensures SubstituteYields(SubstituteYields(nodes, first), second)
         == SubstituteYields(nodes, Compose(first, second))
    decreases nodes
  {
    if nodes != [] {
      var head, rest := SubstituteYieldsIn(nodes[0], first), SubstituteYields(nodes[1..], first);
      YieldsConcat(head, rest, second);
      YieldsCompose(nodes[1..], first, second);
      match nodes[0]
      case If(_, t, e) =>
        YieldsCompose(t, first, second);
        YieldsCompose(e, first, second);
        YieldsOfOne(head[0], second);
      case Foreach(_, _, body) =>
        YieldsCompose(body, first, second);
        YieldsOfOne(head[0], second);
      case Section(_, body) =>
        YieldsCompose(body, first, second);
        YieldsOfOne(head[0], second);
      case Yield(_) =>
      case _ => YieldsOfOne(nodes[0], second);
    }
  }

  lemma YieldsConcat(a: Template, b: Template, sections: Bodies)
    ensures SubstituteYields(a + b, sections) == SubstituteYields(a, sections) + SubstituteYields(b, sections)
  {
    YieldsAreARewrite(a, sections);
    YieldsAreARewrite(b, sections);
    YieldsAreARewrite(a + b, sections);
    RewriteConcat(a, b, Yields(sections));
  }

  lemma YieldsOfOne(node: Node, sections: Bodies)
    ensures SubstituteYields([node], sections) == SubstituteYieldsIn(node, sections)
  {
  }

  /** Composition is associative, so a chain of levels has one meaning however it is grouped. */
  lemma ComposeAssociates(a: Bodies, b: Bodies, c: Bodies)
    ensures Compose(Compose(a, b), c) == Compose(a, Compose(b, c))
  {
    forall name | name in a
      ensures Compose(Compose(a, b), c)[name] == Compose(a, Compose(b, c))[name]
    {
      YieldsCompose(a[name], b, c);
    }
  }

  // ----- what is left after a pass -----

  /** The leaves of the output are exactly the leaves of the replacements of the input's leaves. */
  lemma {:induction false} RewriteReaches(nodes: Template, pass: Pass, leaf: Node)
    requires IsLeaf(leaf)
    ensures Reaches(Rewrite(nodes, pass), leaf) <==>
            exists m :: IsLeaf(m) && Reaches(nodes, m) && Reaches(Replacement(m, pass), leaf)
    decreases nodes
  {
    if nodes != [] {
      ReachesConcat(RewriteIn(nodes[0], pass), Rewrite(nodes[1..], pass), leaf);
      RewriteReaches(nodes[1..], pass, leaf);
      RewriteInReaches(nodes[0], pass, leaf);
    }
  }

  lemma {:induction false} RewriteInReaches(node: Node, pass: Pass, leaf: Node)
    requires IsLeaf(leaf)
    ensures Reaches(RewriteIn(node, pass), leaf) <==>
            exists m :: IsLeaf(m) && ReachesIn(node, m) && Reaches(Replacement(m, pass), leaf)
    decreases node
  {
    match node
    case If(_, t, e) =>
      RewriteReaches(t, pass, leaf);
      RewriteReaches(e, pass, leaf);
    case Foreach(_, _, body) => RewriteReaches(body, pass, leaf);
    case Section(_, body) => RewriteReaches(body, pass, leaf);
    case _ => assert ReachesIn(node, node);
  }
}
