/** The flat node list of binarytree/bt.py: a Python list of triples
    [payload, leftIndex, rightIndex], the root at index 0 and -1 for "no
    child". This module states the invariants of that list as predicates on
    values and proves, once, that linking a new node preserves them and that
    the search walk can follow them.

    The shape is described by a ghost companion `paths`: paths[j] lists the
    indices of node j's ancestors, root first. */
module Arena {
  import opened PyValues

  /** The triple [payload, leftIndex, rightIndex]. */
  datatype Node = Node(payload: Key, left: int, right: int)

  const NoChild: int := -1

  /** chosenNode[p] for the slot p in {1, 2}. */
  function Child(n: Node, p: int): int
    requires p == 1 || p == 2
  {
    if p == 1 then n.left else n.right
  }

  /** chosenNode[p] = c: one slot changes, the payload and the other slot
      stay. */
  function SetChild(n: Node, p: int, c: int): (r: Node)
    requires p == 1 || p == 2
    ensures r.payload == n.payload && Child(r, p) == c && Child(r, 3 - p) == Child(n, 3 - p)
  {
    if p == 1 then n.(left := c) else n.(right := c)
  }

  // ---------------------------------------------------------------------
  // Child references

  /** A child reference of node i is -1 or a later index of the list. */
  predicate ChildRef(nodes: seq<Node>, i: int, c: int)
  {
    c == NoChild || i < c < |nodes|
  }

  predicate LinkedAt(nodes: seq<Node>, i: int)
    requires 0 <= i < |nodes|
  {
    ChildRef(nodes, i, nodes[i].left) && ChildRef(nodes, i, nodes[i].right)
    && (nodes[i].left == NoChild || nodes[i].left != nodes[i].right)
  }

  /** Every reference is -1 or points forward, and the two slots of a node
      never name the same child: the list has no cycles. */
  predicate Linked(nodes: seq<Node>)
  {
    forall i :: 0 <= i < |nodes| ==> LinkedAt(nodes, i)
  }

  predicate IsChild(nodes: seq<Node>, a: int, c: int)
    requires 0 <= a < |nodes|
  {
    c != NoChild && (c == nodes[a].left || c == nodes[a].right)
  }

  // ---------------------------------------------------------------------
  // Shape: ancestor paths

  /** The node that follows the t-th ancestor on the way from the root to j. */
  function Next(paths: seq<seq<int>>, j: int, t: int): int
    requires 0 <= j < |paths| && 0 <= t < |paths[j]|
  {
    if t + 1 < |paths[j]| then paths[j][t + 1] else j
  }

  ghost predicate ShapedStep(nodes: seq<Node>, paths: seq<seq<int>>, j: int, t: int)
    requires |paths| == |nodes| && 0 <= j < |nodes| && 0 <= t < |paths[j]|
  {
    var a := paths[j][t];
    0 <= a < |nodes| && paths[a] == paths[j][..t] && IsChild(nodes, a, Next(paths, j, t))
  }

  /** The children of node i have i's path extended by i. */
  ghost predicate ParentOf(nodes: seq<Node>, paths: seq<seq<int>>, i: int)
    requires |paths| == |nodes| && 0 <= i < |nodes|
  {
    (0 <= nodes[i].left < |nodes| ==> paths[nodes[i].left] == paths[i] + [i])
    && (0 <= nodes[i].right < |nodes| ==> paths[nodes[i].right] == paths[i] + [i])
  }

  /** paths describes a tree rooted at index 0 in which every other node
      hangs from exactly the chain of ancestors its path lists. */
  ghost predicate Shaped(nodes: seq<Node>, paths: seq<seq<int>>)
  {
    |paths| == |nodes|
    && (|nodes| > 0 ==> paths[0] == [])
    && (forall j :: 0 < j < |nodes| ==> paths[j] != [])
    && (forall j, t :: 0 <= j < |nodes| && 0 <= t < |paths[j]| ==> ShapedStep(nodes, paths, j, t))
    && (forall i :: 0 <= i < |nodes| ==> ParentOf(nodes, paths, i))
  }

  // ---------------------------------------------------------------------
  // Search-tree order

  /** At the t-th ancestor a of node j, key k takes the turn the path to j
      takes: left (slot 1) exactly when k < a's payload, right (slot 2)
      exactly when it is not. */
  ghost predicate Agrees(nodes: seq<Node>, paths: seq<seq<int>>, k: Key, j: int, t: int)
    requires |paths| == |nodes| && 0 <= j < |nodes| && 0 <= t < |paths[j]|
  {
    var a := paths[j][t];
    var nx := Next(paths, j, t);
    0 <= a < |nodes| ==>
      (nx == nodes[a].left ==> Less(k, nodes[a].payload) == Some(true))
      && (nx == nodes[a].right ==> Less(k, nodes[a].payload) == Some(false))
  }

  /** Every payload agrees with every turn on its own path: left subtrees
      hold smaller payloads, right subtrees payloads that are not smaller. */
  ghost predicate Ordered(nodes: seq<Node>, paths: seq<seq<int>>)
    requires |paths| == |nodes|
  {
    forall j, t :: 0 <= j < |nodes| && 0 <= t < |paths[j]| ==> Agrees(nodes, paths, nodes[j].payload, j, t)
  }

  /** Key k agrees with every turn on the path to node cur: the insertion or
      search walk for k passes through cur. */
  ghost predicate Routed(nodes: seq<Node>, paths: seq<seq<int>>, k: Key, cur: int)
    requires |paths| == |nodes| && 0 <= cur < |nodes|
  {
    forall t :: 0 <= t < |paths[cur]| ==> Agrees(nodes, paths, k, cur, t)
  }

  /** The invariant of the node list. */
  ghost predicate SearchTree(nodes: seq<Node>, paths: seq<seq<int>>)
  {
    Linked(nodes) && Shaped(nodes, paths) && Ordered(nodes, paths)
  }

  /** cur is the ancestor of j at depth |paths[cur]|. */
  ghost predicate OnPathAt(paths: seq<seq<int>>, j: int, cur: int)
    requires 0 <= j < |paths| && 0 <= cur < |paths|
  {
    |paths[cur]| < |paths[j]| && paths[j][|paths[cur]|] == cur
  }

  // ---------------------------------------------------------------------
  // Linking a new node

  /** `chosenNode[p] = len(structure)` followed by
      `structure.append([k, -1, -1])`. */
  function Attach(nodes: seq<Node>, k: Key, par: int, p: int): (r: seq<Node>)
    requires 0 <= par < |nodes| && (p == 1 || p == 2)
    ensures |r| == |nodes| + 1 && r[|nodes|] == Node(k, NoChild, NoChild)
    ensures r[par].payload == nodes[par].payload
    ensures Child(r[par], p) == |nodes| && Child(r[par], 3 - p) == Child(nodes[par], 3 - p)
    ensures forall i :: 0 <= i < |nodes| && i != par ==> r[i] == nodes[i]
  {
    nodes[par := SetChild(nodes[par], p, |nodes|)] + [Node(k, NoChild, NoChild)]
  }

  /** Where the walk for k ends: an empty slot p of node par, reached by
      turns that all agree with k. */
  ghost predicate Placed(nodes: seq<Node>, paths: seq<seq<int>>, k: Key, par: int, p: int)
  {
    |paths| == |nodes| && 0 <= par < |nodes| && (p == 1 || p == 2)
    && Child(nodes[par], p) == NoChild
    && Less(k, nodes[par].payload) == Some(p == 1)
    && Routed(nodes, paths, k, par)
  }

  lemma AttachKeepsLinked(nodes: seq<Node>, k: Key, par: int, p: int)
    requires Linked(nodes) && 0 <= par < |nodes| && (p == 1 || p == 2)
    requires Child(nodes[par], p) == NoChild
    ensures Linked(Attach(nodes, k, par, p))
  {
    var r := Attach(nodes, k, par, p);
    forall i | 0 <= i < |r|
      ensures LinkedAt(r, i)
    {
      if i < |nodes| {
        assert LinkedAt(nodes, i);
      }
    }
  }

  lemma AttachKeepsShaped(nodes: seq<Node>, paths: seq<seq<int>>, k: Key, par: int, p: int)
    requires Linked(nodes) && Shaped(nodes, paths)
    requires 0 <= par < |nodes| && (p == 1 || p == 2) && Child(nodes[par], p) == NoChild
    ensures Shaped(Attach(nodes, k, par, p), paths + [paths[par] + [par]])
  {
    var n := |nodes|;
    var r := Attach(nodes, k, par, p);
    var ps := paths + [paths[par] + [par]];
    forall j, t | 0 <= j < |r| && 0 <= t < |ps[j]|
      ensures ShapedStep(r, ps, j, t)
    {
      if j < n {
        assert ShapedStep(nodes, paths, j, t);
        assert Next(ps, j, t) == Next(paths, j, t);
      } else if t < |paths[par]| {
        assert ShapedStep(nodes, paths, par, t);
        assert Next(ps, j, t) == Next(paths, par, t);
        assert ps[j][..t] == paths[par][..t];
      } else {
        assert ps[j][..t] == paths[par];
      }
    }
    forall i | 0 <= i < |r|
      ensures ParentOf(r, ps, i)
    {
      if i < n {
        assert ParentOf(nodes, paths, i);
        assert LinkedAt(nodes, i);
      }
    }
  }

  lemma AttachKeepsOrdered(nodes: seq<Node>, paths: seq<seq<int>>, k: Key, par: int, p: int)
    requires Linked(nodes) && Shaped(nodes, paths) && Ordered(nodes, paths)
    requires Placed(nodes, paths, k, par, p)
    ensures Ordered(Attach(nodes, k, par, p), paths + [paths[par] + [par]])
  {
    var n := |nodes|;
    var r := Attach(nodes, k, par, p);
    var ps := paths + [paths[par] + [par]];
    assert LinkedAt(nodes, par);
    forall j, t | 0 <= j < |r| && 0 <= t < |ps[j]|
      ensures Agrees(r, ps, r[j].payload, j, t)
    {
      if j < n {
        assert ShapedStep(nodes, paths, j, t);
        assert Agrees(nodes, paths, nodes[j].payload, j, t);
        assert Next(ps, j, t) == Next(paths, j, t);
      } else if t < |paths[par]| {
        assert ShapedStep(nodes, paths, par, t);
        assert Agrees(nodes, paths, k, par, t);
        assert Next(ps, j, t) == Next(paths, par, t);
      }
    }
  }

  /** Linking k at the end of its walk keeps the whole invariant. */
  lemma AttachKeepsSearchTree(nodes: seq<Node>, paths: seq<seq<int>>, k: Key, par: int, p: int)
    requires SearchTree(nodes, paths) && Placed(nodes, paths, k, par, p)
    ensures SearchTree(Attach(nodes, k, par, p), paths + [paths[par] + [par]])
  {
    AttachKeepsLinked(nodes, k, par, p);
    AttachKeepsShaped(nodes, paths, k, par, p);
    AttachKeepsOrdered(nodes, paths, k, par, p);
  }

  /** A single node [k, -1, -1] is a search tree. */
  lemma RootIsSearchTree(k: Key)
    ensures SearchTree([Node(k, NoChild, NoChild)], [[]])
  {
  }

  // ---------------------------------------------------------------------
  // Walking down

  /** One step of the insertion walk: taking the turn k asks for at cur
      keeps k routed. */
  lemma RouteStep(nodes: seq<Node>, paths: seq<seq<int>>, k: Key, cur: int, p: int)
    requires Linked(nodes) && Shaped(nodes, paths)
    requires 0 <= cur < |nodes| && (p == 1 || p == 2) && Routed(nodes, paths, k, cur)
    requires Less(k, nodes[cur].payload) == Some(p == 1)
    requires Child(nodes[cur], p) != NoChild
    ensures cur < Child(nodes[cur], p) < |nodes|
    ensures Routed(nodes, paths, k, Child(nodes[cur], p))
  {
    var c := Child(nodes[cur], p);
    assert LinkedAt(nodes, cur) && ParentOf(nodes, paths, cur);
    forall t | 0 <= t < |paths[c]|
      ensures Agrees(nodes, paths, k, c, t)
    {
      if t < |paths[cur]| {
        assert Agrees(nodes, paths, k, cur, t);
        assert Next(paths, c, t) == Next(paths, cur, t);
      }
    }
  }

  /** The first ancestor of every non-root node is the root. */
  lemma PathsStartAtRoot(nodes: seq<Node>, paths: seq<seq<int>>)
    requires Shaped(nodes, paths)
    ensures forall j :: 0 < j < |nodes| ==> OnPathAt(paths, j, 0)
  {
    forall j | 0 < j < |nodes|
      ensures OnPathAt(paths, j, 0)
    {
      assert ShapedStep(nodes, paths, j, 0);
    }
  }

  /** All payloads have the root's kind, so an int tree only ever holds ints
      and a str tree only strs. */
  lemma SameKindAsRoot(nodes: seq<Node>, paths: seq<seq<int>>)
    requires SearchTree(nodes, paths) && |nodes| > 0
    ensures forall j :: 0 <= j < |nodes| ==> SameKind(nodes[j].payload, nodes[0].payload)
  {
    PathsStartAtRoot(nodes, paths);
    forall j | 0 < j < |nodes|
      ensures SameKind(nodes[j].payload, nodes[0].payload)
    {
      assert ShapedStep(nodes, paths, j, 0);
      assert Agrees(nodes, paths, nodes[j].payload, j, 0);
    }
  }

  /** One step of the search walk: if node j holds k and the walk for k has
      reached an ancestor cur of j, the turn k asks for at cur leads to an
      existing child that is j or still an ancestor of j. */
  lemma Descend(nodes: seq<Node>, paths: seq<seq<int>>, k: Key, cur: int, p: int)
    requires SearchTree(nodes, paths)
    requires 0 <= cur < |nodes| && (p == 1 || p == 2)
    requires Less(k, nodes[cur].payload) == Some(p == 1)
    ensures forall j :: 0 <= j < |nodes| && nodes[j].payload == k && OnPathAt(paths, j, cur) ==>
      var c := Child(nodes[cur], p);
      0 <= c < |nodes| && (c == j || OnPathAt(paths, j, c))
  {
    var c := Child(nodes[cur], p);
    assert LinkedAt(nodes, cur) && ParentOf(nodes, paths, cur);
    forall j | 0 <= j < |nodes| && nodes[j].payload == k && OnPathAt(paths, j, cur)
      ensures 0 <= c < |nodes| && (c == j || OnPathAt(paths, j, c))
    {
      var d := |paths[cur]|;
      assert ShapedStep(nodes, paths, j, d);
      assert Agrees(nodes, paths, k, j, d);
    }
  }

  // ---------------------------------------------------------------------
  // The search tree in its textbook form

  /** The indices of the subtree hanging from reference c (none for -1). */
  ghost function Below(nodes: seq<Node>, c: int): (s: set<int>)
    requires Linked(nodes)
    ensures forall j :: j in s ==> 0 <= c <= j < |nodes|
    decreases if 0 <= c < |nodes| then |nodes| - c else 0
  {
    if c < 0 || c >= |nodes| then {}
    else
      assert LinkedAt(nodes, c);
      {c} + Below(nodes, nodes[c].left) + Below(nodes, nodes[c].right)
  }

  /** A node of the subtree of i other than i has i on its path. */
  lemma {:induction false} BelowOnPath(nodes: seq<Node>, paths: seq<seq<int>>, i: int)
    requires Linked(nodes) && Shaped(nodes, paths) && 0 <= i < |nodes|
    ensures forall j :: j in Below(nodes, i) && j != i ==> OnPathAt(paths, j, i)
    decreases |nodes| - i
  {
    assert LinkedAt(nodes, i) && ParentOf(nodes, paths, i);
    forall j | j in Below(nodes, i) && j != i
      ensures OnPathAt(paths, j, i)
    {
      var c := if j in Below(nodes, nodes[i].left) then nodes[i].left else nodes[i].right;
      assert j in Below(nodes, c);
      if j != c {
        BelowOnPath(nodes, paths, c);
        assert OnPathAt(paths, j, c);
        assert ShapedStep(nodes, paths, j, |paths[c]|);
        assert paths[j][|paths[i]|] == paths[c][|paths[i]|];
      }
    }
  }

  /** A node below child c of i reaches c from i: i is its ancestor at
      depth |paths[i]| and the next step is c. */
  lemma BelowChild(nodes: seq<Node>, paths: seq<seq<int>>, i: int, c: int, j: int)
    requires Linked(nodes) && Shaped(nodes, paths) && 0 <= i < |nodes|
    requires c == nodes[i].left || c == nodes[i].right
    requires j in Below(nodes, c)
    ensures 0 <= j < |nodes| && |paths[i]| < |paths[j]|
    ensures paths[j][|paths[i]|] == i && Next(paths, j, |paths[i]|) == c
  {
    assert LinkedAt(nodes, i) && ParentOf(nodes, paths, i);
    var t := |paths[i]|;
    if j != c {
      BelowOnPath(nodes, paths, c);
      assert OnPathAt(paths, j, c);
      assert ShapedStep(nodes, paths, j, t + 1);
      assert paths[j][t] == paths[c][t];
    }
  }

  /** The search-tree property as usually stated: every payload in the left
      subtree of a node is smaller than its payload, and no payload in its
      right subtree is. */
  lemma SubtreesOrdered(nodes: seq<Node>, paths: seq<seq<int>>, i: int)
    requires SearchTree(nodes, paths) && 0 <= i < |nodes|
    ensures forall j :: j in Below(nodes, nodes[i].left) ==> Less(nodes[j].payload, nodes[i].payload) == Some(true)
    ensures forall j :: j in Below(nodes, nodes[i].right) ==> Less(nodes[j].payload, nodes[i].payload) == Some(false)
  {
    var t := |paths[i]|;
    forall j | j in Below(nodes, nodes[i].left)
      ensures Less(nodes[j].payload, nodes[i].payload) == Some(true)
    {
      BelowChild(nodes, paths, i, nodes[i].left, j);
      assert Agrees(nodes, paths, nodes[j].payload, j, t);
    }
    forall j | j in Below(nodes, nodes[i].right)
      ensures Less(nodes[j].payload, nodes[i].payload) == Some(false)
    {
      BelowChild(nodes, paths, i, nodes[i].right, j);
      assert Agrees(nodes, paths, nodes[j].payload, j, t);
    }
  }

  /** Node j lies in the subtree of each of its ancestors. */
  lemma {:induction false} InAncestorSubtrees(nodes: seq<Node>, paths: seq<seq<int>>, j: int, t: int)
    requires Linked(nodes) && Shaped(nodes, paths)
    requires 0 <= j < |nodes| && 0 <= t < |paths[j]|
    ensures 0 <= paths[j][t] < |nodes| && j in Below(nodes, paths[j][t])
    decreases |paths[j]| - t
  {
    assert ShapedStep(nodes, paths, j, t);
    var a := paths[j][t];
    assert LinkedAt(nodes, a);
    if t + 1 < |paths[j]| {
      InAncestorSubtrees(nodes, paths, j, t + 1);
    }
  }

  /** Every node is reachable from the root, and nothing else is. */
  lemma AllReachable(nodes: seq<Node>, paths: seq<seq<int>>)
    requires Linked(nodes) && Shaped(nodes, paths) && |nodes| > 0
    ensures forall j :: j in Below(nodes, 0) <==> 0 <= j < |nodes|
  {
    PathsStartAtRoot(nodes, paths);
    forall j | 0 < j < |nodes|
      ensures j in Below(nodes, 0)
    {
      InAncestorSubtrees(nodes, paths, j, 0);
      assert OnPathAt(paths, j, 0) && paths[j][0] == 0;
    }
    assert LinkedAt(nodes, 0);
  }

  /** A node is the child of at most one node, through one slot only. */
  lemma UniqueParent(nodes: seq<Node>, paths: seq<seq<int>>, a: int, b: int, c: int)
    requires Linked(nodes) && Shaped(nodes, paths)
    requires 0 <= a < |nodes| && 0 <= b < |nodes| && IsChild(nodes, a, c) && IsChild(nodes, b, c)
    ensures a == b
    ensures !(c == nodes[a].left && c == nodes[a].right)
  {
    assert LinkedAt(nodes, a) && LinkedAt(nodes, b);
    assert ParentOf(nodes, paths, a) && ParentOf(nodes, paths, b);
    assert paths[c][|paths[c]| - 1] == a;
  }
}
