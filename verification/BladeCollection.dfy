/** What `@push` and `@globals` collection gathers from one level, and when it refuses. */
module BladeCollection {
  import opened Outcomes
  import opened BladeAst

  // ----- the static rejection rule for loops -----

  /** Looks for a `@push`, as the check before a loop body does. */
  predicate ContainsPush(nodes: Template)
    decreases nodes
  {
    nodes != [] &&
    ((match nodes[0]
      case Push(_, _) => true
      case If(_, t, e) => ContainsPush(t) || ContainsPush(e)
      case Foreach(_, _, b) => ContainsPush(b)
      case Section(_, b) => ContainsPush(b)
      case _ => false)
     || ContainsPush(nodes[1..]))
  }

  /** Looks for a `@globals` block; unlike `ContainsPush` it has to enter push bodies. */
  predicate ContainsGlobals(nodes: Template)
    decreases nodes
  {
    nodes != [] &&
    ((match nodes[0]
      case Globals(_) => true
      case If(_, t, e) => ContainsGlobals(t) || ContainsGlobals(e)
      case Foreach(_, _, b) => ContainsGlobals(b)
      case Section(_, b) => ContainsGlobals(b)
      case Push(_, b) => ContainsGlobals(b)
      case _ => false)
     || ContainsGlobals(nodes[1..]))
  }

  /** The two directives that are collected over the whole chain. */
  datatype Directive = PushDirective | GlobalsDirective

  predicate Is(node: Node, d: Directive) {
    match d
    case PushDirective => node.Push?
    case GlobalsDirective => node.Globals?
  }

  predicate Contains(nodes: Template, d: Directive) {
    match d
    case PushDirective => ContainsPush(nodes)
    case GlobalsDirective => ContainsGlobals(nodes)
  }

  /** Whether collecting `d` fails: the walk meets a loop whose body contains it. */
  predicate Rejected(nodes: Template, d: Directive)
    decreases nodes
  {
    nodes != [] && (RejectedIn(nodes[0], d) || Rejected(nodes[1..], d))
  }

  predicate RejectedIn(node: Node, d: Directive)
    decreases node
  {
    match node
    case If(_, t, e) => Rejected(t, d) || Rejected(e, d)
    case Foreach(_, _, b) => Contains(b, d) || Rejected(b, d)
    case Section(_, b) => Rejected(b, d)
    case Push(_, b) => Rejected(b, d)
    case _ => false
  }

  /** The levels that both collectors accept. */
  predicate Clean(nodes: Template) {
    !Rejected(nodes, PushDirective) && !Rejected(nodes, GlobalsDirective)
  }

  // ----- the same rule said with paths into the tree -----

  /** One step down: which sibling, and for an `If` whether to go on in its else branch. */
  datatype Step = Step(index: nat, inElse: bool)

  function Children(node: Node, inElse: bool): Template {
    match node
    case If(_, t, e) => if inElse then e else t
    case Foreach(_, _, b) => b
    case Section(_, b) => b
    case Push(_, b) => b
    case _ => []
  }

  /** The node at the end of `path`, if there is one. */
  function At(nodes: Template, path: seq<Step>): Option<Node>
    decreases |path|
  {
    if path == [] || path[0].index >= |nodes| then None
    else if |path| == 1 then Some(nodes[path[0].index])
    else At(Children(nodes[path[0].index], path[0].inElse), path[1..])
  }

  ghost predicate Holds(nodes: Template, path: seq<Step>, d: Directive) {
    At(nodes, path).Some? && Is(At(nodes, path).value, d)
  }

  /** `path` leads to `d`, and a proper prefix of it, `path[..k]`, leads to a loop. */
  ghost predicate BelowLoop(nodes: Template, path: seq<Step>, k: nat, d: Directive) {
    0 < k < |path| && Holds(nodes, path, d) &&
    At(nodes, path[..k]).Some? && At(nodes, path[..k]).value.Foreach?
  }

  /** Moving along the siblings: a path into the tail is a path into the whole. */
  function Later(path: seq<Step>): seq<Step>
    requires path != []
  {
    [Step(path[0].index + 1, path[0].inElse)] + path[1..]
  }

  function Earlier(path: seq<Step>): seq<Step>
    requires path != [] && path[0].index > 0
  {
    [Step(path[0].index - 1, path[0].inElse)] + path[1..]
  }

  lemma {:induction false} ContainsHasPath(nodes: Template, d: Directive) returns (path: seq<Step>)
    requires Contains(nodes, d)
    ensures Holds(nodes, path, d)
    decreases nodes
  {
    if Contains(nodes[1..], d) {
      var rest := ContainsHasPath(nodes[1..], d);
      path := Later(rest);
    } else if Is(nodes[0], d) {
      path := [Step(0, false)];
    } else {
      var inElse := nodes[0].If? && !Contains(nodes[0].thenBranch, d);
      var below := ContainsHasPath(Children(nodes[0], inElse), d);
      path := [Step(0, inElse)] + below;
    }
  }

  lemma {:induction false} PathMeansContains(nodes: Template, path: seq<Step>, d: Directive)
    requires Holds(nodes, path, d)
    ensures Contains(nodes, d)
    decreases |path|, if path == [] then 0 else path[0].index
  {
    if path[0].index > 0 {
      assert At(nodes[1..], Earlier(path)) == At(nodes, path);
      PathMeansContains(nodes[1..], Earlier(path), d);
    } else if |path| > 1 {
      PathMeansContains(Children(nodes[0], path[0].inElse), path[1..], d);
    }
  }

  lemma {:induction false} RejectedHasPath(nodes: Template, d: Directive) returns (path: seq<Step>, k: nat)
    requires Rejected(nodes, d)
    ensures BelowLoop(nodes, path, k, d)
    decreases nodes
  {
    if Rejected(nodes[1..], d) {
      var rest, j := RejectedHasPath(nodes[1..], d);
      path, k := Later(rest), j;
      assert path[..k] == Later(rest[..k]);
    } else if nodes[0].Foreach? && Contains(nodes[0].body, d) {
      var below := ContainsHasPath(nodes[0].body, d);
      path, k := [Step(0, false)] + below, 1;
      assert path[..1] == [Step(0, false)];
    } else {
      var inElse := nodes[0].If? && !Rejected(nodes[0].thenBranch, d);
      var below, j := RejectedHasPath(Children(nodes[0], inElse), d);
      path, k := [Step(0, inElse)] + below, j + 1;
      assert path[..k] == [Step(0, inElse)] + below[..j];
      assert path[..k][1..] == below[..j];
    }
  }

  lemma {:induction false} PathMeansRejected(nodes: Template, path: seq<Step>, k: nat, d: Directive)
    requires BelowLoop(nodes, path, k, d)
    ensures Rejected(nodes, d)
    decreases |path|, if path == [] then 0 else path[0].index
  {
    if path[0].index > 0 {
      assert Earlier(path)[..k] == Earlier(path[..k]);
      assert At(nodes[1..], Earlier(path)) == At(nodes, path);
      assert At(nodes[1..], Earlier(path[..k])) == At(nodes, path[..k]);
      PathMeansRejected(nodes[1..], Earlier(path), k, d);
    } else if k == 1 {
      assert path[..1][0] == path[0];
      PathMeansContains(Children(nodes[0], path[0].inElse), path[1..], d);
    } else {
      assert path[..k][1..] == path[1..][..k - 1];
      PathMeansRejected(Children(nodes[0], path[0].inElse), path[1..], k - 1, d);
    }
  }

  /** A level is refused exactly when the directive occurs, at any depth, below some loop. */
  lemma RejectedExactly(nodes: Template, d: Directive)
    ensures Rejected(nodes, d) <==> exists path, k :: BelowLoop(nodes, path, k, d)
  {
    if Rejected(nodes, d) {
      var path, k := RejectedHasPath(nodes, d);
    }
    if path, k :| BelowLoop(nodes, path, k, d) {
      PathMeansRejected(nodes, path, k, d);
    }
  }

  // ----- what is gathered -----

  /** Every push of a level in pre-order: an outer push comes before those nested in it. */
  function PushList(nodes: Template): seq<(string, Template)>
    decreases nodes
  {
    if nodes == [] then [] else PushListIn(nodes[0]) + PushList(nodes[1..])
  }

  function PushListIn(node: Node): seq<(string, Template)>
    decreases node
  {
    match node
    case Push(name, b) => [(name, b)] + PushList(b)
    case If(_, t, e) => PushList(t) + PushList(e)
    case Foreach(_, _, b) => PushList(b)
    case Section(_, b) => PushList(b)
    case _ => []
  }

  /** Every `name = expr` assignment of a level in traversal order. */
  function EntryList(nodes: Template): seq<(string, string)>
    decreases nodes
  {
    if nodes == [] then [] else EntryListIn(nodes[0]) + EntryList(nodes[1..])
  }

  function EntryListIn(node: Node): seq<(string, string)>
    decreases node
  {
    match node
    case Globals(entries) => entries
    case If(_, t, e) => EntryList(t) + EntryList(e)
    case Foreach(_, _, b) => EntryList(b)
    case Section(_, b) => EntryList(b)
    case Push(_, b) => EntryList(b)
    case _ => []
  }

  lemma {:induction false} PushListConcat(a: Template, b: Template)
    ensures PushList(a + b) == PushList(a) + PushList(b)
  {
    if a == [] {
      assert a + b == b;
    } else {
      assert (a + b)[1..] == a[1..] + b;
      PushListConcat(a[1..], b);
    }
  }

  lemma {:induction false} EntryListConcat(a: Template, b: Template)
    ensures EntryList(a + b) == EntryList(a) + EntryList(b)
  {
    if a == [] {
      assert a + b == b;
    } else {
      assert (a + b)[1..] == a[1..] + b;
      EntryListConcat(a[1..], b);
    }
  }

  lemma {:induction false} RejectedConcat(a: Template, b: Template, d: Directive)
    ensures Rejected(a + b, d) <==> Rejected(a, d) || Rejected(b, d)
  {
    if a == [] {
      assert a + b == b;
    } else {
      assert (a + b)[1..] == a[1..] + b;
      RejectedConcat(a[1..], b, d);
    }
  }

  /** Appends each listed body to the stack of its name. */
  function Register(pushes: Bodies, list: seq<(string, Template)>): Bodies
    decreases |list|
  {
    if list == [] then pushes
    else Register(pushes[list[0].0 := Lookup(pushes, list[0].0) + list[0].1], list[1..])
  }

  lemma {:induction false} RegisterConcat(pushes: Bodies, a: seq<(string, Template)>, b: seq<(string, Template)>)
    ensures Register(pushes, a + b) == Register(Register(pushes, a), b)
    decreases |a|
  {
    if a == [] {
      assert a + b == b;
    } else {
      assert (a + b)[1..] == a[1..] + b;
      RegisterConcat(pushes[a[0].0 := Lookup(pushes, a[0].0) + a[0].1], a[1..], b);
    }
  }

  /** The bodies listed under `name`, joined in order. */
  function BodiesFor(name: string, list: seq<(string, Template)>): Template {
    if list == [] then []
    else (if list[0].0 == name then list[0].1 else []) + BodiesFor(name, list[1..])
  }

  lemma {:induction false} BodiesForConcat(name: string, a: seq<(string, Template)>, b: seq<(string, Template)>)
    ensures BodiesFor(name, a + b) == BodiesFor(name, a) + BodiesFor(name, b)
  {
    if a == [] {
      assert a + b == b;
    } else {
      assert (a + b)[1..] == a[1..] + b;
      BodiesForConcat(name, a[1..], b);
    }
  }

  /** A stack holds what it held before, then exactly the bodies pushed to its name, in order. */
  lemma {:induction false} RegisterIsExact(pushes: Bodies, list: seq<(string, Template)>, name: string)
    ensures Lookup(Register(pushes, list), name) == Lookup(pushes, name) + BodiesFor(name, list)
    decreases |list|
  {
    if list != [] {
      RegisterIsExact(pushes[list[0].0 := Lookup(pushes, list[0].0) + list[0].1], list[1..], name);
    }
  }

  /** Sequential assignment: a later entry for a name overwrites an earlier one. */
  function Assign(local: map<string, string>, entries: seq<(string, string)>): map<string, string>
    decreases |entries|
  {
    if entries == [] then local
    else Assign(local[entries[0].0 := entries[0].1], entries[1..])
  }

  lemma {:induction false} AssignConcat(local: map<string, string>, a: seq<(string, string)>, b: seq<(string, string)>)
    ensures Assign(local, a + b) == Assign(Assign(local, a), b)
    decreases |a|
  {
    if a == [] {
      assert a + b == b;
    } else {
      assert (a + b)[1..] == a[1..] + b;
      AssignConcat(local[a[0].0 := a[0].1], a[1..], b);
    }
  }

  /** Entry `i` is the last assignment to its name. */
  ghost predicate LastAssignment(entries: seq<(string, string)>, i: nat) {
    i < |entries| && forall j :: i < j < |entries| ==> entries[j].0 != entries[i].0
  }

  lemma {:induction false} AssignKeepsLast(local: map<string, string>, entries: seq<(string, string)>, i: nat)
    requires LastAssignment(entries, i)
    ensures entries[i].0 in Assign(local, entries) && Assign(local, entries)[entries[i].0] == entries[i].1
    decreases |entries|
  {
    var local' := local[entries[0].0 := entries[0].1];
    if i == 0 {
      AssignFrame(local', entries[1..], entries[0].0);
    } else {
      AssignKeepsLast(local', entries[1..], i - 1);
    }
  }

  lemma {:induction false} AssignFrame(local: map<string, string>, entries: seq<(string, string)>, name: string)
    requires forall j :: 0 <= j < |entries| ==> entries[j].0 != name
    ensures name in Assign(local, entries) <==> name in local
    ensures name in local ==> Assign(local, entries)[name] == local[name]
    decreases |entries|
  {
    if entries != [] {
      AssignFrame(local[entries[0].0 := entries[0].1], entries[1..], name);
    }
  }

  // ----- an accepted level's loops contribute nothing -----

  lemma {:induction false} NothingWhereNotContained(nodes: Template)
    ensures !ContainsPush(nodes) ==> PushList(nodes) == [] && !Rejected(nodes, PushDirective)
    ensures !ContainsGlobals(nodes) ==> EntryList(nodes) == [] && !Rejected(nodes, GlobalsDirective)
    decreases nodes
  {
    if nodes != [] {
      NothingWhereNotContained(nodes[1..]);
      match nodes[0]
      case If(_, t, e) => NothingWhereNotContained(t); NothingWhereNotContained(e);
      case Foreach(_, _, b) => NothingWhereNotContained(b);
      case Section(_, b) => NothingWhereNotContained(b);
      case Push(_, b) => NothingWhereNotContained(b);
      case _ =>
    }
  }

  /** The same pre-order walks, stopping at every loop. */
  function PushListOutsideLoops(nodes: Template): seq<(string, Template)>
    decreases nodes
  {
    if nodes == [] then [] else PushOutsideLoopsIn(nodes[0]) + PushListOutsideLoops(nodes[1..])
  }

  function PushOutsideLoopsIn(node: Node): seq<(string, Template)>
    decreases node
  {
    match node
    case Push(name, b) => [(name, b)] + PushListOutsideLoops(b)
    case If(_, t, e) => PushListOutsideLoops(t) + PushListOutsideLoops(e)
    case Section(_, b) => PushListOutsideLoops(b)
    case _ => []
  }

  function EntryListOutsideLoops(nodes: Template): seq<(string, string)>
    decreases nodes
  {
    if nodes == [] then [] else EntryOutsideLoopsIn(nodes[0]) + EntryListOutsideLoops(nodes[1..])
  }

  function EntryOutsideLoopsIn(node: Node): seq<(string, string)>
    decreases node
  {
    match node
    case Globals(entries) => entries
    case If(_, t, e) => EntryListOutsideLoops(t) + EntryListOutsideLoops(e)
    case Section(_, b) => EntryListOutsideLoops(b)
    case Push(_, b) => EntryListOutsideLoops(b)
    case _ => []
  }

  /** In an accepted level the descent into loop bodies collects no push. */
  lemma {:induction false} LoopsPushNothing(nodes: Template)
    requires !Rejected(nodes, PushDirective)
    ensures PushList(nodes) == PushListOutsideLoops(nodes)
    decreases nodes
  {
    if nodes != [] {
      LoopsPushNothing(nodes[1..]);
      match nodes[0]
      case If(_, t, e) => LoopsPushNothing(t); LoopsPushNothing(e);
      case Foreach(_, _, b) => NothingWhereNotContained(b);
      case Section(_, b) => LoopsPushNothing(b);
      case Push(_, b) => LoopsPushNothing(b);
      case _ =>
    }
  }

  /** Nor any assignment. */
  lemma {:induction false} LoopsAssignNothing(nodes: Template)
    requires !Rejected(nodes, GlobalsDirective)
    ensures EntryList(nodes) == EntryListOutsideLoops(nodes)
    decreases nodes
  {
    if nodes != [] {
      LoopsAssignNothing(nodes[1..]);
      match nodes[0]
      case If(_, t, e) => LoopsAssignNothing(t); LoopsAssignNothing(e);
      case Foreach(_, _, b) => NothingWhereNotContained(b);
      case Section(_, b) => LoopsAssignNothing(b);
      case Push(_, b) => LoopsAssignNothing(b);
      case _ =>
    }
  }
}
