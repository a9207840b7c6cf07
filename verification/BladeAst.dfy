/** The template tree that the layout resolver matches on. */
module BladeAst {
  import opened Outcomes

  /**
   * One parsed template node. `Other` stands for every leaf the resolver passes
   * through without looking at it (text, code, CSRF fields and so on).
   */
  datatype Node =
    | Other(text: string)
    | Interpolate(expr: string, escape: bool)
    | If(cond: string, thenBranch: seq<Node>, elseBranch: seq<Node>)
    | Foreach(binding: string, iter: string, body: seq<Node>)
    | Extends(name: string)
    | Section(name: string, body: seq<Node>)
    | Yield(name: string)
    | Push(name: string, body: seq<Node>)
    | Stack(name: string)
    | Global(name: string, fallback: Option<string>)
    | Globals(entries: seq<(string, string)>)

  type Template = seq<Node>

  /** Template bodies by name: sections of one level, or accumulated pushes. */
  type Bodies = map<string, Template>

  /** A missing name stands for an empty body. */
  function Lookup(bodies: Bodies, name: string): Template {
    if name in bodies then bodies[name] else []
  }

  /** A node that no substitution pass descends into. */
  predicate IsLeaf(node: Node) {
    !node.If? && !node.Foreach? && !node.Section?
  }

  /**
   * Whether `leaf` sits in `nodes` at a position reached through `If`, `Foreach`
   * and `Section` only, which are the nodes the substitution passes enter.
   */
  predicate Reaches(nodes: Template, leaf: Node)
    decreases nodes
  {
    nodes != [] &&
    (ReachesIn(nodes[0], leaf) || Reaches(nodes[1..], leaf))
  }

  predicate ReachesIn(node: Node, leaf: Node)
    decreases node
  {
    match node
    case If(_, t, e) => Reaches(t, leaf) || Reaches(e, leaf)
    case Foreach(_, _, b) => Reaches(b, leaf)
    case Section(_, b) => Reaches(b, leaf)
    case _ => node == leaf
  }

  lemma {:induction false} ReachesConcat(a: Template, b: Template, leaf: Node)
    ensures Reaches(a + b, leaf) <==> Reaches(a, leaf) || Reaches(b, leaf)
  {
    if a == [] {
      assert a + b == b;
    } else {
      assert (a + b)[1..] == a[1..] + b;
      ReachesConcat(a[1..], b, leaf);
    }
  }
}
