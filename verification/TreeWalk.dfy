/** The bookmark tree of the Chromium backend, and the walk over it with an explicit stack. */
module TreeWalk {
  import opened Basics

  /**
  A node of the bookmark file: a folder has children. A field is missing when the file does
  not have it or when it cannot be parsed.
  */
  datatype Node =
    | Url(id: Option<nat>, guid: Option<string>, name: Option<string>, url: string)
    | Folder(id: Option<nat>, guid: Option<string>, name: Option<string>, children: seq<Node>)

  /** A callback: sees the state, the node and the data of its parent; fails, or gives its own. */
  type Visitor<!S, !P> = (S, Node, P) -> Option<(S, P)>

  // ---- the recursive walk -----------------------------------------------

  function Walk<S, P>(cb: Visitor<S, P>, s: S, node: Node, pd: P): (r: Option<S>)
    decreases node, 0
  {
    match cb(s, node, pd)
    case None => None
    case Some((s1, pd1)) =>
      if node.Url? then Some(s1) else WalkAll(cb, s1, node.children, pd1)
  }

  function WalkAll<S, P>(cb: Visitor<S, P>, s: S, nodes: seq<Node>, pd: P): (r: Option<S>)
    decreases nodes, 1
  {
    if nodes == [] then Some(s)
    else match Walk(cb, s, nodes[0], pd)
      case None => None
      case Some(s1) => WalkAll(cb, s1, nodes[1..], pd)
  }

  /** The longest chain of nested folders. */
  function Depth(node: Node): (d: nat)
    decreases node, 0
  {
    if node.Url? then 0 else 1 + DepthAll(node.children)
  }

  function DepthAll(nodes: seq<Node>): (d: nat)
    decreases nodes, 1
  {
    if nodes == [] then 0
    else
      var first, rest := Depth(nodes[0]), DepthAll(nodes[1..]);
      if first < rest then rest else first
  }

  /** The walk that gives up at a folder nested deeper than `d`. */
  function WalkTo<S, P>(cb: Visitor<S, P>, d: nat, s: S, node: Node, pd: P): (r: Option<S>)
    decreases node, 0
  {
    match cb(s, node, pd)
    case None => None
    case Some((s1, pd1)) =>
      if node.Url? then Some(s1)
      else if d == 0 then None
      else WalkAllTo(cb, d - 1, s1, node.children, pd1)
  }

  function WalkAllTo<S, P>(cb: Visitor<S, P>, d: nat, s: S, nodes: seq<Node>, pd: P): (r: Option<S>)
    decreases nodes, 1
  {
    if nodes == [] then Some(s)
    else match WalkTo(cb, d, s, nodes[0], pd)
      case None => None
      case Some(s1) => WalkAllTo(cb, d, s1, nodes[1..], pd)
  }

  lemma {:induction false} WalkToIsWalk<S, P>(cb: Visitor<S, P>, d: nat, s: S, node: Node, pd: P)
    ensures WalkTo(cb, d, s, node, pd) == if Depth(node) <= d then Walk(cb, s, node, pd) else None
    decreases node, 0
  {
    match cb(s, node, pd)
    case None =>
    case Some((s1, pd1)) =>
      if node.Folder? && d > 0 {
        WalkAllToIsWalkAll(cb, d - 1, s1, node.children, pd1);
      }
  }

  lemma {:induction false} WalkAllToIsWalkAll<S, P>(cb: Visitor<S, P>, d: nat, s: S, nodes: seq<Node>, pd: P)
    ensures WalkAllTo(cb, d, s, nodes, pd) == if DepthAll(nodes) <= d then WalkAll(cb, s, nodes, pd) else None
    decreases nodes, 1
  {
    if nodes != [] {
      WalkToIsWalk(cb, d, s, nodes[0], pd);
      match WalkTo(cb, d, s, nodes[0], pd)
      case None =>
        if Depth(nodes[0]) <= d {
          assert Walk(cb, s, nodes[0], pd).None?;
        }
      case Some(s1) =>
        WalkAllToIsWalkAll(cb, d, s1, nodes[1..], pd);
    }
  }

  // ---- the walk with a stack --------------------------------------------

  datatype Frame<P> = Frame(children: seq<Node>, idx: nat, parentData: P)

  /** What is left to do: the frames from the top, each with the children it has not visited. */
  function Resume<S, P>(cb: Visitor<S, P>, size: nat, s: S, stack: seq<Frame<P>>): (r: Option<S>)
    requires |stack| <= size
    requires forall k :: 0 <= k < |stack| ==> stack[k].idx <= |stack[k].children|
    decreases |stack|
  {
    if stack == [] then Some(s)
    else
      var n := |stack| - 1;
      match WalkAllTo(cb, size - |stack|, s, stack[n].children[stack[n].idx..], stack[n].parentData)
      case None => None
      case Some(s1) => Resume(cb, size, s1, stack[..n])
  }

  /** A bound on the rounds of the loop. */
  function Weight(node: Node): (w: nat)
    decreases node, 0
  {
    if node.Url? then 1 else 2 + WeightAll(node.children)
  }

  function WeightAll(nodes: seq<Node>): (w: nat)
    decreases nodes, 1
  {
    if nodes == [] then 0 else Weight(nodes[0]) + WeightAll(nodes[1..])
  }

  function WeightStack<P>(stack: seq<Frame<P>>): (w: nat)
    requires forall k :: 0 <= k < |stack| ==> stack[k].idx <= |stack[k].children|
  {
    if stack == [] then 0
    else
      var n := |stack| - 1;
      WeightStack(stack[..n]) + 1 + WeightAll(stack[n].children[stack[n].idx..])
  }

  lemma ResumePush<S, P>(cb: Visitor<S, P>, size: nat, s: S, stack: seq<Frame<P>>, frame: Frame<P>)
    requires |stack| < size && frame.idx <= |frame.children|
    requires forall k :: 0 <= k < |stack| ==> stack[k].idx <= |stack[k].children|
    ensures Resume(cb, size, s, stack + [frame]) ==
            match WalkAllTo(cb, size - |stack| - 1, s, frame.children[frame.idx..], frame.parentData)
            case None => None
            case Some(s1) => Resume(cb, size, s1, stack)
    ensures WeightStack(stack + [frame]) == WeightStack(stack) + 1 + WeightAll(frame.children[frame.idx..])
  {
    assert (stack + [frame])[..|stack|] == stack;
  }

  ghost predicate InBounds<P>(stack: seq<Frame<P>>)
  {
    forall k :: 0 <= k < |stack| ==> stack[k].idx <= |stack[k].children|
  }

  /** The walk of `node` under the top frame, and then the rest of the stack. */
  ghost function VisitAndResume<S, P>(cb: Visitor<S, P>, size: nat, s: S, node: Node, stack: seq<Frame<P>>): (r: Option<S>)
    requires 0 < |stack| <= size && InBounds(stack)
  {
    match WalkTo(cb, size - |stack|, s, node, stack[|stack| - 1].parentData)
    case None => None
    case Some(s1) => Resume(cb, size, s1, stack)
  }

  /** The `get_children` part of the loop: calls back, and opens a frame for a folder. */
  method Visit<S, P>(cb: Visitor<S, P>, size: nat, s: S, node: Node, stack: seq<Frame<P>>)
    returns (r: Option<(S, seq<Frame<P>>)>)
    requires 0 < |stack| <= size && InBounds(stack)
    ensures r.None? ==> VisitAndResume(cb, size, s, node, stack) == None
    ensures r.Some? ==>
      var (s', stack') := r.value;
      && 0 < |stack'| <= size && InBounds(stack')
      && VisitAndResume(cb, size, s, node, stack) == Resume(cb, size, s', stack')
      && WeightStack(stack') < WeightStack(stack) + Weight(node)
  {
    match cb(s, node, stack[|stack| - 1].parentData)
    case None =>
      return None;
    case Some((s1, own)) =>
      if node.Url? {
        return Some((s1, stack));
      }
      if |stack| == size {
        return None;
      }
      var frame := Frame(node.children, 0, own);
      ResumePush(cb, size, s1, stack, frame);
      assert node.children[0..] == node.children;
      return Some((s1, stack + [frame]));
  }

  /** Taking the next child of the top frame. */
  lemma ResumeNext<S, P>(cb: Visitor<S, P>, size: nat, s: S, stack: seq<Frame<P>>)
    requires 0 < |stack| <= size && InBounds(stack)
    requires var top := stack[|stack| - 1]; top.idx < |top.children|
    ensures var n := |stack| - 1;
            var top := stack[n];
            var stack' := stack[..n] + [top.(idx := top.idx + 1)];
            && InBounds(stack')
            && Resume(cb, size, s, stack) == VisitAndResume(cb, size, s, top.children[top.idx], stack')
            && WeightStack(stack) == WeightStack(stack') + Weight(top.children[top.idx])
  {
    var n := |stack| - 1;
    var top := stack[n];
    var node, frame := top.children[top.idx], top.(idx := top.idx + 1);
    assert top.children[top.idx..][1..] == top.children[top.idx + 1..];
    ResumePushWeight(stack[..n], frame);
    match WalkTo(cb, size - |stack|, s, node, top.parentData)
    case None =>
    case Some(s1) => ResumePush(cb, size, s1, stack[..n], frame);
  }

  /** Leaving a frame whose children are all visited. */
  lemma ResumePop<S, P>(cb: Visitor<S, P>, size: nat, s: S, stack: seq<Frame<P>>)
    requires 0 < |stack| <= size && InBounds(stack)
    requires var top := stack[|stack| - 1]; top.idx == |top.children|
    ensures var rest := stack[..|stack| - 1];
            && InBounds(rest)
            && Resume(cb, size, s, stack) == Resume(cb, size, s, rest)
            && (rest == [] ==> Resume(cb, size, s, stack) == Some(s))
            && WeightStack(rest) < WeightStack(stack)
  {
    var top := stack[|stack| - 1];
    assert top.children[top.idx..] == [];
  }

  datatype Rounds<S, P> = Ended(result: Option<S>) | Goes(s: S, stack: seq<Frame<P>>)

  /** A round of the loop: the next child of the top frame, or back to the frame below it. */
  method Round<S, P>(cb: Visitor<S, P>, size: nat, s: S, stack: seq<Frame<P>>) returns (r: Rounds<S, P>)
    requires 0 < |stack| <= size && InBounds(stack)
    ensures r.Ended? ==> r.result == Resume(cb, size, s, stack)
    ensures r.Goes? ==>
      && 0 < |r.stack| <= size && InBounds(r.stack)
      && Resume(cb, size, s, stack) == Resume(cb, size, r.s, r.stack)
      && WeightStack(r.stack) < WeightStack(stack)
  {
    var n := |stack| - 1;
    var top := stack[n];
    if top.idx == |top.children| {
      ResumePop(cb, size, s, stack);
      return if n == 0 then Ended(Some(s)) else Goes(s, stack[..n]);
    }
    ResumeNext(cb, size, s, stack);
    var visited := Visit(cb, size, s, top.children[top.idx], stack[..n] + [top.(idx := top.idx + 1)]);
    return if visited.None? then Ended(None) else Goes(visited.value.0, visited.value.1);
  }

  lemma ResumePushWeight<P>(stack: seq<Frame<P>>, frame: Frame<P>)
    requires InBounds(stack) && frame.idx <= |frame.children|
    ensures InBounds(stack + [frame])
    ensures WeightStack(stack + [frame]) == WeightStack(stack) + 1 + WeightAll(frame.children[frame.idx..])
  {
    assert (stack + [frame])[..|stack|] == stack;
  }

  /**
  `iter_node`: the stack has one frame for the start and one for every open folder. The state
  after all callbacks is that of the recursive walk; without a failing callback the walk fails
  exactly when folders are nested as deep as the stack is large.
  */
  method IterNode<S, P>(node: Node, stackSize: nat, cb: Visitor<S, P>, s0: S, parentData: P) returns (r: Option<S>)
    requires stackSize > 0
    ensures r == if Depth(node) < stackSize then Walk(cb, s0, node, parentData) else None
  {
    WalkToIsWalk(cb, stackSize - 1, s0, node, parentData);
    ghost var whole := WalkTo(cb, stackSize - 1, s0, node, parentData);
    var start := [Frame([], 0, parentData)];
    StartFrame(cb, stackSize, s0, node, parentData);
    var visited := Visit(cb, stackSize, s0, node, start);
    if visited.None? {
      return None;
    }
    var (s, stack) := visited.value;
    while true
      invariant 0 < |stack| <= stackSize && InBounds(stack)
      invariant whole == Resume(cb, stackSize, s, stack)
      decreases WeightStack(stack)
    {
      var round := Round(cb, stackSize, s, stack);
      match round {
        case Ended(result) =>
          return result;
        case Goes(s', stack') =>
          s, stack := s', stack';
      }
    }
  }

  lemma StartFrame<S, P>(cb: Visitor<S, P>, size: nat, s: S, node: Node, pd: P)
    requires size > 0
    ensures VisitAndResume(cb, size, s, node, [Frame([], 0, pd)]) == WalkTo(cb, size - 1, s, node, pd)
  {
    var start := [Frame([], 0, pd)];
    match WalkTo(cb, size - 1, s, node, pd)
    case None =>
    case Some(s1) =>
      assert start[..0] == [];
      assert Resume(cb, size, s1, start) == Some(s1);
  }

  /** Callback failures aside, only the depth makes a walk fail. */
  lemma {:induction false} WalkSucceeds<S(!new), P(!new)>(cb: Visitor<S, P>, s: S, node: Node, pd: P)
    requires forall s, node, pd :: cb(s, node, pd).Some?
    ensures Walk(cb, s, node, pd).Some?
    decreases node, 0
  {
    if node.Folder? {
      var (s1, pd1) := cb(s, node, pd).value;
      WalkAllSucceeds(cb, s1, node.children, pd1);
    }
  }

  lemma {:induction false} WalkAllSucceeds<S(!new), P(!new)>(cb: Visitor<S, P>, s: S, nodes: seq<Node>, pd: P)
    requires forall s, node, pd :: cb(s, node, pd).Some?
    ensures WalkAll(cb, s, nodes, pd).Some?
    decreases nodes, 1
  {
    if nodes != [] {
      WalkSucceeds(cb, s, nodes[0], pd);
      WalkAllSucceeds(cb, Walk(cb, s, nodes[0], pd).value, nodes[1..], pd);
    }
  }

  const MAX_NODE_ITER_DEPTH: nat := 128

  /** `iter_roots`: every root in turn, all under the same parent data. Fails without any root. */
  method IterRoots<S, P>(roots: seq<Node>, cb: Visitor<S, P>, s0: S, parentData: P) returns (r: Option<S>)
    ensures r == if roots != [] && DepthAll(roots) < MAX_NODE_ITER_DEPTH then WalkAll(cb, s0, roots, parentData) else None
  {
    if roots == [] {
      return None;
    }
    var s := s0;
    for i := 0 to |roots|
      invariant DepthAll(roots) < MAX_NODE_ITER_DEPTH <==> DepthAll(roots[i..]) < MAX_NODE_ITER_DEPTH
      invariant DepthAll(roots) < MAX_NODE_ITER_DEPTH ==>
        WalkAll(cb, s0, roots, parentData) == WalkAll(cb, s, roots[i..], parentData)
    {
      var step := IterNode(roots[i], MAX_NODE_ITER_DEPTH, cb, s, parentData);
      assert roots[i..][1..] == roots[i + 1..];
      if step.None? {
        return None;
      }
      s := step.value;
    }
    return Some(s);
  }
}
