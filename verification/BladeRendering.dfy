/**
 * What a template means: a late-bound renderer that looks placeholders up while
 * it renders, instead of substituting them beforehand.
 */
module BladeRendering {
  import opened Outcomes
  import opened BladeAst
  import opened BladeSubstitution

  /**
   * The running page, of which nothing is assumed. A state `S` holds the output
   * so far and every variable in scope; `leaf` runs one leaf node, `holds` and
   * `items` evaluate a condition (possibly changing the state) and a loop list,
   * `bind` enters one loop iteration or branch and `leave` closes its scope.
   */
  datatype Machine<!S, !V> = Machine(
    leaf: (Node, S) -> S,
    holds: (string, S) -> (bool, S),
    items: (string, S) -> (seq<V>, S),
    bind: (string, V, S) -> S,
    leave: (S, S) -> S
  )

  /**
   * What placeholders are bound to. `sections` lists the section maps from the
   * level next to the base down to the page: a yield is answered by the first
   * one, and the answer is rendered under the others. Stacks and globals are
   * `None` until the pass that resolves them has run.
   */
  datatype Env = Env(sections: seq<Bodies>, stacks: Option<Bodies>, globals: Option<map<string, string>>) {
    function Depth(): nat {
      |sections| + if stacks.Some? then 1 else 0
    }

    /** Pushed content is spliced as it is: only globals are still resolved in it. */
    function InsidePush(): Env {
      Env([], None, globals)
    }
  }

  const NOTHING_BOUND := Env([], None, None)

  function Render<S, V>(nodes: Template, env: Env, m: Machine<S, V>, s: S): S
    decreases env.Depth(), nodes, 0
  {
    if nodes == [] then s
    else Render(nodes[1..], env, m, RenderNode(nodes[0], env, m, s))
  }

  function RenderNode<S, V>(node: Node, env: Env, m: Machine<S, V>, s: S): S
    decreases env.Depth(), node, 0
  {
    match node
    case If(cond, t, e) =>
      var (yes, s1) := m.holds(cond, s);
      m.leave(s1, Render(if yes then t else e, env, m, s1))
    case Foreach(binding, iter, body) =>
      var (items, s1) := m.items(iter, s);
      RenderLoop(items, binding, body, env, m, s1)
    case Section(_, body) => Render(body, env, m, s)
    case Yield(name) =>
      if env.sections == [] then m.leaf(node, s)
      else Render(Lookup(env.sections[0], name), env.(sections := env.sections[1..]), m, s)
    case Stack(name) =>
      if env.stacks.None? then m.leaf(node, s)
      else Render(Lookup(env.stacks.value, name), env.InsidePush(), m, s)
    case Global(name, fallback) =>
      if env.globals.None? then m.leaf(node, s)
      else if name in env.globals.value then m.leaf(Interpolate(env.globals.value[name], true), s)
      else if fallback.Some? then m.leaf(Interpolate(fallback.value, true), s)
      else s
    case _ => m.leaf(node, s)
  }

  function RenderLoop<S, V>(items: seq<V>, binding: string, body: Template, env: Env, m: Machine<S, V>, s: S): S
    decreases env.Depth(), body, 1 + |items|
  {
    if items == [] then s
    else RenderLoop(items[1..], binding, body, env, m, m.leave(s, Render(body, env, m, m.bind(binding, items[0], s))))
  }

  lemma {:induction false} RenderConcat<S, V>(a: Template, b: Template, env: Env, m: Machine<S, V>, s: S)
    ensures Render(a + b, env, m, s) == Render(b, env, m, Render(a, env, m, s))
    decreases a
  {
    if a == [] {
      assert a + b == b;
    } else {
      assert (a + b)[1..] == a[1..] + b;
      RenderConcat(a[1..], b, env, m, RenderNode(a[0], env, m, s));
    }
  }

  lemma RenderOne<S, V>(node: Node, env: Env, m: Machine<S, V>, s: S)
    ensures Render([node], env, m, s) == RenderNode(node, env, m, s)
  {
  }

  // ----- each pass moves one binding from the environment into the tree -----

  /** The environment under which the untouched input means what the output means under `env`. */
  function Binding(env: Env, pass: Pass): Env {
    match pass
    case Yields(sections) => env.(sections := [sections] + env.sections)
    case Stacks(pushes) => env.(stacks := Some(pushes))
    case Assignments(globals) => env.(globals := Some(globals))
  }

  /** Stacks are resolved once no section is pending, globals once no stack is. */
  predicate InOrder(env: Env, pass: Pass) {
    match pass
    case Yields(_) => true
    case Stacks(_) => env.sections == [] && env.stacks == None
    case Assignments(_) => env == NOTHING_BOUND
  }

  lemma {:induction false} RewritePreservesMeaning<S, V>(nodes: Template, pass: Pass, env: Env, m: Machine<S, V>, s: S)
    requires InOrder(env, pass)
    ensures Render(Rewrite(nodes, pass), env, m, s) == Render(nodes, Binding(env, pass), m, s)
    decreases nodes, 0
  {
    if nodes != [] {
      RenderConcat(RewriteIn(nodes[0], pass), Rewrite(nodes[1..], pass), env, m, s);
      RewriteInPreservesMeaning(nodes[0], pass, env, m, s);
      RewritePreservesMeaning(nodes[1..], pass, env, m, RenderNode(nodes[0], Binding(env, pass), m, s));
    }
  }

  lemma {:induction false} RewriteInPreservesMeaning<S, V>(node: Node, pass: Pass, env: Env, m: Machine<S, V>, s: S)
    requires InOrder(env, pass)
    ensures Render(RewriteIn(node, pass), env, m, s) == RenderNode(node, Binding(env, pass), m, s)
    decreases node, 0
  {
    match node
    case If(cond, t, e) =>
      var (_, s1) := m.holds(cond, s);
      RewritePreservesMeaning(t, pass, env, m, s1);
      RewritePreservesMeaning(e, pass, env, m, s1);
      RenderOne(RewriteIn(node, pass)[0], env, m, s);
    case Foreach(binding, iter, body) =>
      var (items, s1) := m.items(iter, s);
      RewriteLoopPreservesMeaning(items, binding, body, pass, env, m, s1);
      RenderOne(RewriteIn(node, pass)[0], env, m, s);
    case Section(_, body) =>
      RewritePreservesMeaning(body, pass, env, m, s);
      RenderOne(RewriteIn(node, pass)[0], env, m, s);
    case _ => ReplacementPreservesMeaning(node, pass, env, m, s);
  }

  lemma {:induction false} RewriteLoopPreservesMeaning<S, V>(
      items: seq<V>, binding: string, body: Template, pass: Pass, env: Env, m: Machine<S, V>, s: S)
    requires InOrder(env, pass)
    ensures RenderLoop(items, binding, Rewrite(body, pass), env, m, s)
         == RenderLoop(items, binding, body, Binding(env, pass), m, s)
    decreases body, 1 + |items|
  {
    if items != [] {
      var bound := m.bind(binding, items[0], s);
      RewritePreservesMeaning(body, pass, env, m, bound);
      RewriteLoopPreservesMeaning(items[1..], binding, body, pass, env, m,
                                  m.leave(s, Render(body, Binding(env, pass), m, bound)));
    }
  }

  lemma ReplacementPreservesMeaning<S, V>(leaf: Node, pass: Pass, env: Env, m: Machine<S, V>, s: S)
    requires IsLeaf(leaf) && InOrder(env, pass)
    ensures Render(Replacement(leaf, pass), env, m, s) == RenderNode(leaf, Binding(env, pass), m, s)
  {
  }
}
