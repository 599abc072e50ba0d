/**
 * The tree utilities of lib/nodeUtils.js over ESTree-shaped syntax trees:
 * child enumeration, bounded depth-first and breadth-first traversals, the
 * subtree walk, the boilerplate classifiers and the group-equality predicates.
 *
 * A node is a value carrying a numeric identity (`id`), its `type` tag, its own
 * properties in key order and its source location. Two occurrences of the same
 * source text are different nodes because their ids differ.
 */
module NodeUtils {
  import opened Common

  type NodeId = nat

  datatype Position = Position(line: int, column: int)

  datatype Loc = Loc(source: string, start: Position, end: Position)

  /** The value of one property of a node, as JavaScript sees it. */
  datatype Value =
    | Absent                  // the property is missing (undefined)
    | Null
    | Str(s: string)
    | Num(n: real)            // a number, exact rather than rounded to a double
    | Bool(b: bool)
    | Child(node: Node)       // an object with a `type`: a node
    | List(items: seq<Node>)  // an array of nodes
    | Plain(ref: nat)         // any other object, identified by reference

  datatype Field = Field(key: string, val: Value)

  datatype Node = Node(id: NodeId, nodeType: string, fields: seq<Field>, loc: Loc)

  /** `node[key]`: the first property with that key, or undefined. */
  function Get(n: Node, key: string): Value
  {
    GetFrom(n.fields, key)
  }

  function GetFrom(fs: seq<Field>, key: string): Value
  {
    if fs == [] then Absent
    else if fs[0].key == key then fs[0].val
    else GetFrom(fs[1..], key)
  }

  /** `v[key]` when v is a node; undefined otherwise. */
  function Prop(v: Value, key: string): Value
  {
    if v.Child? then Get(v.node, key) else Absent
  }

  /** v is a node whose type is t. */
  predicate IsNodeOf(v: Value, t: string)
  {
    v.Child? && v.node.nodeType == t
  }

  // ---------------------------------------------------------------------------
  // Child enumeration (getChildren)
  // ---------------------------------------------------------------------------

  /** What one property contributes to the children: a node with a (truthy)
      type is one child, an array is spliced in, anything else is nothing. */
  function FieldNodes(v: Value): seq<Node>
  {
    match v
    case Child(c) => if c.nodeType != "" then [c] else []
    case List(items) => items
    case _ => []
  }

  function ChildrenFrom(fs: seq<Field>): seq<Node>
  {
    if fs == [] then [] else FieldNodes(fs[0].val) + ChildrenFrom(fs[1..])
  }

  lemma {:induction false} ChildrenFromBelow(n: Node, k: nat)
    requires k <= |n.fields|
    ensures forall i :: 0 <= i < |ChildrenFrom(n.fields[k..])| ==> ChildrenFrom(n.fields[k..])[i] < n
    decreases |n.fields| - k
  {
    if k < |n.fields| {
      assert n.fields[k..][1..] == n.fields[k + 1..];
      ChildrenFromBelow(n, k + 1);
      var f := n.fields[k];
      assert f < n;
      assert f.val < n;
    }
  }

  /** The children of a node, in property order. Each child is a strict part of
      the node, which is what makes every traversal below terminate. */
  function Children(n: Node): (r: seq<Node>)
    ensures forall i :: 0 <= i < |r| ==> r[i] < n
  {
    ChildrenFromBelow(n, 0);
    assert n.fields[0..] == n.fields;
    ChildrenFrom(n.fields)
  }

  lemma {:induction false} ChildrenFromSnoc(fs: seq<Field>, f: Field)
    ensures ChildrenFrom(fs + [f]) == ChildrenFrom(fs) + FieldNodes(f.val)
  {
    if fs != [] {
      assert (fs + [f])[1..] == fs[1..] + [f];
      ChildrenFromSnoc(fs[1..], f);
    } else {
      assert fs + [f] == [f];
    }
  }

  lemma {:induction false} ChildrenFromMember(fs: seq<Field>, c: Node)
    ensures c in ChildrenFrom(fs) <==>
      exists i :: 0 <= i < |fs| && c in FieldNodes(fs[i].val)
  {
    if fs != [] {
      ChildrenFromMember(fs[1..], c);
      if c in ChildrenFrom(fs[1..]) {
        var i :| 0 <= i < |fs[1..]| && c in FieldNodes(fs[1..][i].val);
        assert c in FieldNodes(fs[i + 1].val);
      }
      if exists i :: 0 <= i < |fs| && c in FieldNodes(fs[i].val) {
        var i :| 0 <= i < |fs| && c in FieldNodes(fs[i].val);
        if i > 0 {
          assert c in FieldNodes(fs[1..][i - 1].val);
        }
      }
    }
  }

  /** A node is a child exactly when some property holds it directly (with a
      non-empty type) or holds an array containing it. */
  lemma ChildrenMember(n: Node, c: Node)
    ensures c in Children(n) <==>
      exists i :: 0 <= i < |n.fields| &&
        ((n.fields[i].val.Child? && n.fields[i].val.node == c && c.nodeType != "") ||
         (n.fields[i].val.List? && c in n.fields[i].val.items))
  {
    ChildrenFromMember(n.fields, c);
    forall i | 0 <= i < |n.fields|
      ensures c in FieldNodes(n.fields[i].val) <==>
        ((n.fields[i].val.Child? && n.fields[i].val.node == c && c.nodeType != "") ||
         (n.fields[i].val.List? && c in n.fields[i].val.items))
    {
    }
  }

  /** getChildren: walks the node's properties in order, pushing a typed object
      and concatenating an array. */
  method GetChildren(node: Node) returns (res: seq<Node>)
    ensures res == Children(node)
  {
    res := [];
    for i := 0 to |node.fields|
      invariant res == ChildrenFrom(node.fields[..i])
    {
      var val := node.fields[i].val;
      ChildrenFromSnoc(node.fields[..i], node.fields[i]);
      assert node.fields[..i + 1] == node.fields[..i] + [node.fields[i]];
      match val {
        case Child(c) =>
          if c.nodeType != "" {
            res := res + [c];
          }
        case List(items) =>
          res := res + items;
        case _ =>
      }
    }
    assert node.fields[..|node.fields|] == node.fields;
  }

  // ---------------------------------------------------------------------------
  // Pre-order traversal
  // ---------------------------------------------------------------------------

  /** The unbounded pre-order (depth-first) traversal: the node, then the
      traversals of its children in order. */
  function PreOrder(n: Node): seq<Node>
    decreases n
  {
    var cs := Children(n);
    [n] + Flatten(seq(|cs|, i requires 0 <= i < |cs| => PreOrder(cs[i])))
  }

  /** The traversals of a sequence of trees, one after another. */
  function PreOrderAll(q: seq<Node>): seq<Node>
  {
    if q == [] then [] else PreOrder(q[0]) + PreOrderAll(q[1..])
  }

  lemma {:induction false} FlattenPreOrders(q: seq<Node>)
    ensures Flatten(seq(|q|, i requires 0 <= i < |q| => PreOrder(q[i]))) == PreOrderAll(q)
  {
    if q != [] {
      var s := seq(|q|, i requires 0 <= i < |q| => PreOrder(q[i]));
      FlattenPreOrders(q[1..]);
      assert s[1..] == seq(|q[1..]|, i requires 0 <= i < |q[1..]| => PreOrder(q[1..][i]));
    }
  }

  lemma PreOrderUnfold(n: Node)
    ensures PreOrder(n) == [n] + PreOrderAll(Children(n))
  {
    FlattenPreOrders(Children(n));
  }

  lemma {:induction false} PreOrderAllAppend(a: seq<Node>, b: seq<Node>)
    ensures PreOrderAll(a + b) == PreOrderAll(a) + PreOrderAll(b)
  {
    if a != [] {
      assert (a + b)[1..] == a[1..] + b;
      PreOrderAllAppend(a[1..], b);
    } else {
      assert a + b == b;
    }
  }

  lemma PreOrderAllSnoc(q: seq<Node>, i: nat)
    requires i < |q|
    ensures PreOrderAll(q[..i + 1]) == PreOrderAll(q[..i]) + PreOrder(q[i])
  {
    assert q[..i + 1] == q[..i] + [q[i]];
    PreOrderAllAppend(q[..i], [q[i]]);
  }

  /** Every node of the traversal of a forest is part of one of its trees. */
  lemma {:induction false} PreOrderAllBelow(q: seq<Node>, parent: Node)
    requires forall i :: 0 <= i < |q| ==> q[i] < parent
    ensures forall j :: 0 <= j < |PreOrderAll(q)| ==> PreOrderAll(q)[j] < parent
    decreases parent, 0, |q|
  {
    if q != [] {
      PreOrderBelow(q[0]);
      PreOrderAllBelow(q[1..], parent);
      var a, b := PreOrder(q[0]), PreOrderAll(q[1..]);
      forall j | 0 <= j < |a + b| ensures (a + b)[j] < parent {
        if j >= |a| {
          assert (a + b)[j] == b[j - |a|];
        }
      }
    }
  }

  /** The traversal starts with the node itself; every later entry is a strict
      descendant, so the node occurs exactly once. */
  lemma {:induction false} PreOrderBelow(n: Node)
    ensures |PreOrder(n)| >= 1 && PreOrder(n)[0] == n
    ensures forall j :: 1 <= j < |PreOrder(n)| ==> PreOrder(n)[j] < n
    decreases n, 1, 0
  {
    PreOrderUnfold(n);
    PreOrderAllBelow(Children(n), n);
  }

  // ---------------------------------------------------------------------------
  // getDFSTraversal
  // ---------------------------------------------------------------------------

  /** JavaScript truthiness of the optional bound `n`: undefined and 0 switch it off. */
  predicate Limited(n: Option<int>)
  {
    n.Some? && n.value != 0
  }

  /** The first k elements, or all of them when there are fewer. */
  function Take<T>(s: seq<T>, k: nat): (r: seq<T>)
    ensures |r| == Min(|s|, k)
  {
    if |s| <= k then s else s[..k]
  }

  /** What the inner `dfs` closure leaves in `res` when called on `node` with
      `res` already holding some nodes. */
  function DfsResult(res: seq<Node>, node: Node, n: Option<int>): seq<Node>
  {
    if !Limited(n) then res + PreOrder(node)
    else if |res| >= n.value then res
    else Take(res + PreOrder(node), n.value)
  }

  /** The bound applied to a partial result: the first n nodes when n is truthy. */
  function Cut(s: seq<Node>, n: Option<int>): seq<Node>
  {
    if Limited(n) && n.value > 0 then Take(s, n.value) else s
  }

  /** Cutting before or after appending a further traversal gives the same prefix. */
  lemma DfsStep(x: seq<Node>, c: Node, n: Option<int>)
    requires Limited(n) ==> n.value >= 1
    ensures DfsResult(Cut(x, n), c, n) == Cut(x + PreOrder(c), n)
  {
    if Limited(n) && |x| >= n.value {
      assert (x + PreOrder(c))[..n.value] == x[..n.value];
    }
  }

  /** One iteration of the loop over the children in Dfs keeps its invariant. */
  lemma DfsLoopStep(done: seq<Node>, cs: seq<Node>, i: nat, n: Option<int>, prev: seq<Node>, next: seq<Node>)
    requires i < |cs|
    requires Limited(n) ==> n.value >= 1
    requires prev == Cut(done + PreOrderAll(cs[..i]), n)
    requires next == DfsResult(prev, cs[i], n)
    ensures next == Cut(done + PreOrderAll(cs[..i + 1]), n)
  {
    DfsStep(done + PreOrderAll(cs[..i]), cs[i], n);
    PreOrderAllSnoc(cs, i);
    Associative(done, PreOrderAll(cs[..i]), PreOrder(cs[i]));
  }

  /** The recursive `dfs` closure of getDFSTraversal: stop once `res` holds n
      nodes, otherwise push the node and recurse into its children. */
  method Dfs(node: Node, n: Option<int>, res: seq<Node>) returns (out: seq<Node>)
    ensures out == DfsResult(res, node, n)
    decreases node
  {
    if Limited(n) && |res| >= n.value {
      return res;
    }
    out := res + [node];
    var cs := GetChildren(node);
    ghost var done := res + [node];
    for i := 0 to |cs|
      invariant out == Cut(done + PreOrderAll(cs[..i]), n)
    {
      ghost var prev := out;
      out := Dfs(cs[i], n, out);
      DfsLoopStep(done, cs, i, n, prev, out);
    }
    assert cs[..|cs|] == cs;
    PreOrderUnfold(node);
    Associative(res, [node], PreOrderAll(cs));
  }

  /** getDFSTraversal(node, n): the pre-order traversal, cut to its first n
      nodes when n is a positive bound; empty when n is zero or negative. */
  method GetDFSTraversal(node: Node, n: Option<int>) returns (r: seq<Node>)
    ensures n.None? ==> r == PreOrder(node)
    ensures n.Some? && n.value <= 0 ==> r == []
    ensures n.Some? && n.value > 0 ==> r == Take(PreOrder(node), n.value)
    ensures r == PreOrder(node)[..|r|]
    ensures (n.None? || n.value > 0) ==> |r| >= 1 && r[0] == node
  {
    var res := Dfs(node, n, []);
    PreOrderBelow(node);
    if n.None? {
      r := res;
    } else {
      r := Slice(res, 0, n.value);
    }
  }

  // ---------------------------------------------------------------------------
  // getBFSTraversal
  // ---------------------------------------------------------------------------

  /** Removing the head of a queue and enqueuing its children shrinks the
      number of nodes still reachable from the queue by one. */
  lemma LevelShrinks(queue: seq<Node>)
    requires queue != []
    ensures |PreOrderAll(queue[1..] + Children(queue[0]))| < |PreOrderAll(queue)|
  {
    PreOrderAllAppend(queue[1..], Children(queue[0]));
    PreOrderUnfold(queue[0]);
  }

  /** What a breadth-first traversal appends while it drains `queue`: the
      children of each dequeued node, in the order the nodes were enqueued. */
  function LevelRest(queue: seq<Node>): seq<Node>
    decreases |PreOrderAll(queue)|
  {
    if queue == [] then []
    else
      var cs := Children(queue[0]);
      LevelShrinks(queue);
      cs + LevelRest(queue[1..] + cs)
  }

  lemma LevelRestUnfold(queue: seq<Node>)
    requires queue != []
    ensures LevelRest(queue) == Children(queue[0]) + LevelRest(queue[1..] + Children(queue[0]))
  {
  }

  /** The unbounded level-order traversal: the node, then its descendants level by level. */
  function LevelOrder(node: Node): seq<Node>
  {
    [node] + LevelRest([node])
  }

  lemma Associative<T>(a: seq<T>, b: seq<T>, c: seq<T>)
    ensures a + (b + c) == (a + b) + c
  {
  }

  /** Pushing the next element of s extends the prefix taken so far; at the end the whole of s is there. */
  lemma AppendNext<T>(a: seq<T>, s: seq<T>, i: nat)
    requires i <= |s|
    ensures i < |s| ==> (a + s[..i]) + [s[i]] == a + s[..i + 1]
    ensures i == |s| ==> a + s[..i] == a + s
  {
    if i < |s| {
      assert s[..i + 1] == s[..i] + [s[i]];
    }
  }

  lemma PermStep<T>(x: T, rest: seq<T>, cs: seq<T>, tail: seq<T>, pr: seq<T>, pc: seq<T>)
    requires multiset(rest + cs + tail) == multiset(pr + pc)
    ensures multiset([x] + rest + cs + tail) == multiset([x] + pc + pr)
  {
    assert [x] + rest + cs + tail == [x] + (rest + cs + tail);
    assert [x] + pc + pr == [x] + (pc + pr);
  }

  /** Draining a queue lists every node of its trees exactly once, counting the queue itself. */
  lemma {:induction false} LevelRestPerm(queue: seq<Node>)
    ensures multiset(queue + LevelRest(queue)) == multiset(PreOrderAll(queue))
    decreases |PreOrderAll(queue)|
  {
    if queue != [] {
      var x, rest, cs := queue[0], queue[1..], Children(queue[0]);
      LevelRestUnfold(queue);
      var tail := LevelRest(rest + cs);
      assert queue + LevelRest(queue) == [x] + rest + cs + tail by {
        assert queue == [x] + rest;
      }
      var pr, pc := PreOrderAll(rest), PreOrderAll(cs);
      assert PreOrderAll(queue) == [x] + pc + pr by {
        PreOrderUnfold(x);
      }
      LevelShrinks(queue);
      LevelRestPerm(rest + cs);
      PreOrderAllAppend(rest, cs);
      PermStep(x, rest, cs, tail, pr, pc);
    }
  }

  /** Breadth-first and depth-first traversals visit the same nodes, each as often. */
  lemma LevelOrderPerm(node: Node)
    ensures multiset(LevelOrder(node)) == multiset(PreOrder(node))
    ensures LevelOrder(node)[0] == node
  {
    LevelRestPerm([node]);
    assert [node][1..] == [];
    assert PreOrderAll([node]) == PreOrder(node) + [];
  }

  /** One dequeue-and-enqueue round of the breadth-first loop keeps what is
      still to come equal to the rest of the traversal. */
  lemma BfsStep(full: seq<Node>, res: seq<Node>, queue: seq<Node>)
    requires queue != []
    requires res + LevelRest(queue) == full
    ensures (res + Children(queue[0])) + LevelRest(queue[1..] + Children(queue[0])) == full
  {
    LevelRestUnfold(queue);
    var cs := Children(queue[0]);
    Associative(res, cs, LevelRest(queue[1..] + cs));
  }

  /** A prefix of the traversal that already holds k nodes, cut to k, is the traversal cut to k. */
  lemma BfsCut(full: seq<Node>, res: seq<Node>, rest: seq<Node>, k: int)
    requires res + rest == full
    requires 0 < k <= |res|
    ensures Slice(res, 0, k) == Take(full, k)
  {
    assert full[..k] == res[..k];
  }

  /** getBFSTraversal(node, n): the level-order traversal, cut to its first n
      nodes when n is a positive bound; empty when n is zero or negative. */
  method GetBFSTraversal(node: Node, n: Option<int>) returns (r: seq<Node>)
    ensures n.None? ==> r == LevelOrder(node)
    ensures n.Some? && n.value <= 0 ==> r == []
    ensures n.Some? && n.value > 0 ==> r == Take(LevelOrder(node), n.value)
    ensures (n.None? || n.value > 0) ==> |r| >= 1 && r[0] == node
  {
    ghost var full := LevelOrder(node);
    var queue := [node];
    var res := [node];
    while queue != []
      invariant res + LevelRest(queue) == full
      invariant 1 <= |res| && res[0] == node
      invariant Limited(n) && n.value < 0 ==> |res| == 1
      decreases |PreOrderAll(queue)|
    {
      ghost var q0 := queue;
      ghost var res0 := res;
      var cur := queue[0];
      queue := queue[1..];
      if Limited(n) && |res| >= n.value {
        if n.value > 0 {
          BfsCut(full, res, LevelRest(q0), n.value);
        }
        return Slice(res, 0, n.value);
      }
      var children := GetChildren(cur);
      for i := 0 to |children|
        invariant queue == q0[1..] + children[..i]
        invariant res == res0 + children[..i]
      {
        AppendNext(q0[1..], children, i);
        AppendNext(res0, children, i);
        queue := queue + [children[i]];
        res := res + [children[i]];
      }
      AppendNext(q0[1..], children, |children|);
      AppendNext(res0, children, |children|);
      BfsStep(full, res0, q0);
      LevelShrinks(q0);
    }
    assert res == full;
    if n.None? {
      r := res;
    } else {
      r := Slice(res, 0, n.value);
    }
  }

  // ---------------------------------------------------------------------------
  // walkSubtrees
  // ---------------------------------------------------------------------------

  /** One call of the walk's callback: the node, its parent (null for the
      root's children) and the ancestors below the root. */
  datatype Visit = Visit(node: Node, parent: Option<Node>, ancestors: seq<Node>)

  /** The callbacks made by the inner `visit` closure, in call order. */
  function VisitTree(node: Node, parent: Option<Node>, ancestors: seq<Node>): seq<Visit>
    decreases node
  {
    var cs := Children(node);
    [Visit(node, parent, ancestors)]
      + Flatten(seq(|cs|, i requires 0 <= i < |cs| => VisitTree(cs[i], Some(node), ancestors + [node])))
  }

  /** walkSubtrees(root, fn): the callbacks made for every subtree below the root. */
  function WalkSubtrees(root: Node): seq<Visit>
  {
    var cs := Children(root);
    Flatten(seq(|cs|, i requires 0 <= i < |cs| => VisitTree(cs[i], None, [])))
  }

  function VisitedNodes(vs: seq<Visit>): seq<Node>
  {
    if vs == [] then [] else [vs[0].node] + VisitedNodes(vs[1..])
  }

  lemma {:induction false} VisitedNodesAppend(a: seq<Visit>, b: seq<Visit>)
    ensures VisitedNodes(a + b) == VisitedNodes(a) + VisitedNodes(b)
  {
    if a != [] {
      assert (a + b)[1..] == a[1..] + b;
      VisitedNodesAppend(a[1..], b);
    } else {
      assert a + b == b;
    }
  }

  lemma {:induction false} VisitedNodesFlatten(ss: seq<seq<Visit>>)
    ensures VisitedNodes(Flatten(ss)) == Flatten(seq(|ss|, i requires 0 <= i < |ss| => VisitedNodes(ss[i])))
  {
    if ss != [] {
      VisitedNodesAppend(ss[0], Flatten(ss[1..]));
      VisitedNodesFlatten(ss[1..]);
      var m := seq(|ss|, i requires 0 <= i < |ss| => VisitedNodes(ss[i]));
      assert m[1..] == seq(|ss[1..]|, i requires 0 <= i < |ss[1..]| => VisitedNodes(ss[1..][i]));
    }
  }

  /** The visit closure reports the nodes of the subtree in pre-order. */
  lemma {:induction false} VisitTreeNodes(node: Node, parent: Option<Node>, ancestors: seq<Node>)
    ensures VisitedNodes(VisitTree(node, parent, ancestors)) == PreOrder(node)
    decreases node
  {
    var cs := Children(node);
    var subs := seq(|cs|, i requires 0 <= i < |cs| => VisitTree(cs[i], Some(node), ancestors + [node]));
    forall i | 0 <= i < |cs|
      ensures VisitedNodes(subs[i]) == PreOrder(cs[i])
    {
      VisitTreeNodes(cs[i], Some(node), ancestors + [node]);
    }
    VisitedNodesFlatten(subs);
    assert seq(|subs|, i requires 0 <= i < |subs| => VisitedNodes(subs[i]))
        == seq(|cs|, i requires 0 <= i < |cs| => PreOrder(cs[i]));
    VisitedNodesAppend([Visit(node, parent, ancestors)], Flatten(subs));
  }

  /** walkSubtrees calls back on every node below the root, in pre-order, and
      never on the root itself. */
  lemma WalkSubtreesNodes(root: Node)
    ensures VisitedNodes(WalkSubtrees(root)) == PreOrderAll(Children(root))
    ensures forall j :: 0 <= j < |VisitedNodes(WalkSubtrees(root))| ==> VisitedNodes(WalkSubtrees(root))[j] != root
  {
    var cs := Children(root);
    var subs := seq(|cs|, i requires 0 <= i < |cs| => VisitTree(cs[i], None, []));
    forall i | 0 <= i < |cs|
      ensures VisitedNodes(subs[i]) == PreOrder(cs[i])
    {
      VisitTreeNodes(cs[i], None, []);
    }
    VisitedNodesFlatten(subs);
    assert seq(|subs|, i requires 0 <= i < |subs| => VisitedNodes(subs[i]))
        == seq(|cs|, i requires 0 <= i < |cs| => PreOrder(cs[i]));
    FlattenPreOrders(cs);
    PreOrderAllBelow(cs, root);
  }

  /** The last ancestor, or null when there is none. */
  function LastOf(ancestors: seq<Node>): Option<Node>
  {
    if ancestors == [] then None else Some(ancestors[|ancestors| - 1])
  }

  /** p runs from a child of root downwards, each entry a child of the one before. */
  predicate Path(root: Node, p: seq<Node>)
  {
    |p| >= 1 && p[0] in Children(root) &&
    forall k :: 0 <= k < |p| - 1 ==> p[k + 1] in Children(p[k])
  }

  /** A callback whose ancestors are exactly the path from the root's child
      down to the parent, and whose parent is the last of them. */
  predicate ValidVisit(root: Node, v: Visit)
  {
    Path(root, v.ancestors + [v.node]) && v.parent == LastOf(v.ancestors)
  }

  lemma PathSnoc(root: Node, p: seq<Node>, c: Node)
    requires Path(root, p) && c in Children(p[|p| - 1])
    ensures Path(root, p + [c])
  {
    var q := p + [c];
    forall k | 0 <= k < |q| - 1
      ensures q[k + 1] in Children(q[k])
    {
      if k < |p| - 1 {
        assert q[k + 1] == p[k + 1] && q[k] == p[k];
      }
    }
  }

  lemma {:induction false} VisitTreeValid(root: Node, node: Node, parent: Option<Node>, ancestors: seq<Node>)
    requires Path(root, ancestors + [node]) && parent == LastOf(ancestors)
    ensures forall v :: v in VisitTree(node, parent, ancestors) ==> ValidVisit(root, v)
    decreases node
  {
    var cs := Children(node);
    var down := ancestors + [node];
    var subs := seq(|cs|, i requires 0 <= i < |cs| => VisitTree(cs[i], Some(node), down));
    forall v | v in VisitTree(node, parent, ancestors)
      ensures ValidVisit(root, v)
    {
      if v != Visit(node, parent, ancestors) {
        assert v in Flatten(subs);
        FlattenMember(subs, v);
        var i :| 0 <= i < |subs| && v in subs[i];
        assert cs[i] in Children(down[|down| - 1]);
        PathSnoc(root, down, cs[i]);
        assert LastOf(down) == Some(node);
        VisitTreeValid(root, cs[i], Some(node), down);
      }
    }
  }

  /** Every callback of walkSubtrees gets the path from the root's child down
      to the parent as its ancestors, and the last of them as its parent. */
  lemma WalkSubtreesValid(root: Node)
    ensures forall v :: v in WalkSubtrees(root) ==> ValidVisit(root, v)
  {
    var cs := Children(root);
    var subs := seq(|cs|, i requires 0 <= i < |cs| => VisitTree(cs[i], None, []));
    forall v | v in WalkSubtrees(root)
      ensures ValidVisit(root, v)
    {
      FlattenMember(subs, v);
      var i :| 0 <= i < |subs| && v in subs[i];
      assert [] + [cs[i]] == [cs[i]];
      VisitTreeValid(root, cs[i], None, []);
    }
  }

  // ---------------------------------------------------------------------------
  // Boilerplate classifiers
  // ---------------------------------------------------------------------------

  /** isES6ModuleImport: the window starts with an import declaration. */
  predicate IsES6ModuleImport(nodes: seq<Node>)
  {
    |nodes| > 0 && nodes[0].nodeType == "ImportDeclaration"
  }

  /** isES6ClassBoilerplate: the window ends in a class declaration or class
      body. The source reads the type of the last entry, so an empty window
      is not a valid argument. */
  predicate IsES6ClassBoilerplate(nodes: seq<Node>)
    requires |nodes| > 0
  {
    var last := nodes[|nodes| - 1];
    last.nodeType == "ClassDeclaration" || last.nodeType == "ClassBody"
  }

  /** Only the first node decides an import and only the last node decides
      class boilerplate: what else the window holds does not matter. */
  lemma ES6WindowEnds(first: Node, last: Node, middle: seq<Node>)
    ensures IsES6ModuleImport([first] + middle) <==> first.nodeType == "ImportDeclaration"
    ensures IsES6ClassBoilerplate(middle + [last]) <==>
      (last.nodeType == "ClassDeclaration" || last.nodeType == "ClassBody")
  {
  }

  /** hasAMDName: the value is a node whose name is `define` or `require`. */
  predicate HasAMDName(v: Value)
  {
    Prop(v, "name") == Str("define") || Prop(v, "name") == Str("require")
  }

  /** A statement calling define/require, directly or as a property. */
  predicate IsAMDStatement(s: Node)
  {
    var expr := Get(s, "expression");
    var callee := Prop(expr, "callee");
    s.nodeType == "ExpressionStatement" && IsNodeOf(expr, "CallExpression") &&
    (HasAMDName(callee) || (IsNodeOf(callee, "MemberExpression") && HasAMDName(Prop(callee, "property"))))
  }

  /** The first index isAMD looks at: it examines at most the last five entries. */
  function AMDWindowStart(len: nat): (r: nat)
    ensures r <= len && len - r <= 5
    ensures len >= 5 ==> r == len - 5
  {
    if len >= 5 then len - 5 else 0
  }

  /** isAMD: scans the last five entries from the end and reports whether one
      of them is an AMD define/require call. */
  method IsAMD(nodes: seq<Node>) returns (b: bool)
    ensures b <==> exists i :: AMDWindowStart(|nodes|) <= i < |nodes| && IsAMDStatement(nodes[i])
  {
    var i := |nodes| - 1;
    while i >= |nodes| - 5
      invariant |nodes| - 6 <= i < |nodes|
      invariant forall j :: 0 <= j < |nodes| && i < j ==> !IsAMDStatement(nodes[j])
      decreases i - (|nodes| - 6)
    {
      if i < 0 {
        // nodes[i] is undefined
        return false;
      }
      var stmt := nodes[i];
      var expr := Get(stmt, "expression");
      if stmt.nodeType != "ExpressionStatement" || !IsNodeOf(expr, "CallExpression") {
        i := i - 1;
        continue;
      }
      var callee := Prop(expr, "callee");
      if HasAMDName(callee) {
        return true;
      } else if IsNodeOf(callee, "MemberExpression") && HasAMDName(Prop(callee, "property")) {
        return true;
      }
      i := i - 1;
    }
    return false;
  }

  /** A declarator whose initialiser is a call to `require`. */
  predicate IsRequireDeclarator(d: Node)
  {
    var init := Get(d, "init");
    d.nodeType == "VariableDeclarator" && IsNodeOf(init, "CallExpression") &&
    Prop(Prop(init, "callee"), "name") == Str("require")
  }

  /** A statement that is a `require(...)` call, or a declaration with some
      declarator initialised by one. */
  predicate IsCommonJSStatement(s: Node)
  {
    var expr := Get(s, "expression");
    var decls := Get(s, "declarations");
    (s.nodeType == "ExpressionStatement" && IsNodeOf(expr, "CallExpression") &&
     Prop(Prop(expr, "callee"), "name") == Str("require")) ||
    (s.nodeType == "VariableDeclaration" && decls.List? &&
     exists j :: 0 <= j < |decls.items| && IsRequireDeclarator(decls.items[j]))
  }

  /** isCommonJS: looks only at the first entry of the window. */
  method IsCommonJS(nodes: seq<Node>) returns (b: bool)
    ensures b <==> |nodes| > 0 && IsCommonJSStatement(nodes[0])
  {
    if |nodes| == 0 {
      return false;
    }
    var first := nodes[0];
    var expr := Get(first, "expression");
    var decls := Get(first, "declarations");
    if first.nodeType == "ExpressionStatement" && IsNodeOf(expr, "CallExpression") &&
       Prop(Prop(expr, "callee"), "name") == Str("require") {
      return true;
    } else if first.nodeType == "VariableDeclaration" && decls.List? {
      for j := 0 to |decls.items|
        invariant forall k :: 0 <= k < j ==> !IsRequireDeclarator(decls.items[k])
      {
        var declaration := decls.items[j];
        var init := Get(declaration, "init");
        if declaration.nodeType == "VariableDeclarator" && IsNodeOf(init, "CallExpression") &&
           Prop(Prop(init, "callee"), "name") == Str("require") {
          return true;
        }
      }
    }
    return false;
  }

  /** Both classifiers are local: isAMD depends only on the last five entries
      and isCommonJS only on the first. */
  lemma {:induction false} ClassifiersLocal(nodes: seq<Node>, before: seq<Node>, after: seq<Node>)
    requires |nodes| >= 5
    ensures (exists i :: AMDWindowStart(|before + nodes|) <= i < |before + nodes| && IsAMDStatement((before + nodes)[i]))
        <==> (exists i :: AMDWindowStart(|nodes|) <= i < |nodes| && IsAMDStatement(nodes[i]))
    ensures IsCommonJSStatement((nodes + after)[0]) <==> IsCommonJSStatement(nodes[0])
  {
    var whole := before + nodes;
    if exists i :: AMDWindowStart(|whole|) <= i < |whole| && IsAMDStatement(whole[i]) {
      var i :| AMDWindowStart(|whole|) <= i < |whole| && IsAMDStatement(whole[i]);
      assert whole[i] == nodes[i - |before|];
    }
    if exists i :: AMDWindowStart(|nodes|) <= i < |nodes| && IsAMDStatement(nodes[i]) {
      var i :| AMDWindowStart(|nodes|) <= i < |nodes| && IsAMDStatement(nodes[i]);
      assert whole[i + |before|] == nodes[i];
    }
  }

  // ---------------------------------------------------------------------------
  // Group-equality predicates
  // ---------------------------------------------------------------------------

  /** typesMatch: every node has the first node's type (vacuous for no nodes). */
  function TypesMatch(nodes: seq<Node>): (r: bool)
    ensures r <==> forall i, j :: 0 <= i < |nodes| && 0 <= j < |nodes| ==> nodes[i].nodeType == nodes[j].nodeType
  {
    forall i :: 0 <= i < |nodes| ==> nodes[i].nodeType == nodes[0].nodeType
  }

  /** identifiersMatch: there is a first node and every node has its name. */
  function IdentifiersMatch(nodes: seq<Node>): (r: bool)
    ensures r <==> (|nodes| > 0 &&
      forall i, j :: 0 <= i < |nodes| && 0 <= j < |nodes| ==> Get(nodes[i], "name") == Get(nodes[j], "name"))
  {
    |nodes| > 0 && forall i :: 0 <= i < |nodes| ==> Get(nodes[i], "name") == Get(nodes[0], "name")
  }

  /** A node whose type mentions `Literal`. */
  predicate IsLiteral(n: Node)
  {
    Contains(n.nodeType, "Literal")
  }

  /** literalsMatch: there is a first node, and every literal node carries the
      first node's value; non-literal nodes are not compared. */
  function LiteralsMatch(nodes: seq<Node>): (r: bool)
    ensures r <==> (|nodes| > 0 &&
      forall i, j ::
        (0 <= i < |nodes| && 0 <= j < |nodes| && (i == 0 || IsLiteral(nodes[i])) && (j == 0 || IsLiteral(nodes[j])))
        ==> Get(nodes[i], "value") == Get(nodes[j], "value"))
  {
    |nodes| > 0 && forall i :: 0 <= i < |nodes| ==> !IsLiteral(nodes[i]) || Get(nodes[i], "value") == Get(nodes[0], "value")
  }
}
