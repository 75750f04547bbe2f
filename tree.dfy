/** The BinaryTree class of binarytree/bt.py: an unbalanced binary search
    tree kept in one flat list of nodes, with insertion (add_nodes) and
    lookup (find_nodes) taking any number of arguments. */
module BinaryTrees {
  import opened PyValues
  import opened Arena

  /** The exceptions the class raises, one per message. */
  datatype Error =
    | NoNodePassed        // "No node was passed to the function."
    | UnrecognizedValue   // "Can't recognized the value inside the node."
    | AddFailed           // "There was an error while adding the node."
    | ExploreFailed       // "Error while exploring the tree."

  datatype Result<+T> = Ok(value: T) | Err(error: Error)

  /** find_nodes returns the bare boolean for one argument and the list of
      booleans otherwise. */
  datatype Answer = Bare(b: bool) | Listed(bs: seq<bool>)

  // ---------------------------------------------------------------------
  // What the operations mean, in terms of the keys inserted so far

  /** What a lookup of k answers once `contents` have been inserted: None is
      the exception raised on an empty tree (indexing None) or by comparing
      k with payloads of the other kind. */
  function Lookup(contents: seq<Key>, k: Key): (r: Option<bool>)
    ensures r.None? <==> contents == [] || !SameKind(k, contents[0])
    ensures r.Some? ==> (r.value <==> exists i :: 0 <= i < |contents| && contents[i] == k)
  {
    if contents == [] || !SameKind(k, contents[0]) then None else Some(k in contents)
  }

  /** One argument of find_nodes: checked, then looked up. */
  function Probe(contents: seq<Key>, v: Value): (r: Result<bool>)
    ensures r == Err(UnrecognizedValue) <==> CheckNode(v).None?
    ensures r == Err(ExploreFailed) <==> CheckNode(v).Some? && Lookup(contents, CheckNode(v).value).None?
    ensures r.Err? ==> r.error == UnrecognizedValue || r.error == ExploreFailed
    ensures r.Ok? ==> exists k :: ValueOf(k) == v && Lookup(contents, k) == Some(r.value)
  {
    match CheckNode(v)
    case None => Err(UnrecognizedValue)
    case Some(k) =>
      match Lookup(contents, k)
      case None => Err(ExploreFailed)
      case Some(b) => Ok(b)
  }

  /** The loop of find_nodes over its arguments. */
  function ProbeAll(contents: seq<Key>, vs: seq<Value>): (r: Result<seq<bool>>)
    ensures r.Ok? <==> forall i :: 0 <= i < |vs| ==> Probe(contents, vs[i]).Ok?
    ensures r.Ok? ==> |r.value| == |vs|
    ensures r.Ok? ==> forall i :: 0 <= i < |vs| ==> Probe(contents, vs[i]) == Ok(r.value[i])
    ensures r.Err? ==> r.error == UnrecognizedValue || r.error == ExploreFailed
    decreases |vs|
  {
    if vs == [] then Ok([])
    else
      match Probe(contents, vs[0])
      case Err(e) => Err(e)
      case Ok(b) =>
        match ProbeAll(contents, vs[1..])
        case Err(e) => Err(e)
        case Ok(bs) => Ok([b] + bs)
  }

  /** find_nodes(*vs). */
  function FindNodesSpec(contents: seq<Key>, vs: seq<Value>): (r: Result<Answer>)
    ensures r == Err(NoNodePassed) <==> vs == []
    ensures r.Ok? ==> (r.value.Bare? <==> |vs| == 1)
    ensures r.Ok? && r.value.Bare? ==> Probe(contents, vs[0]) == Ok(r.value.b)
    ensures r.Ok? && r.value.Listed? ==> ProbeAll(contents, vs) == Ok(r.value.bs)
    ensures vs != [] && r.Err? ==> ProbeAll(contents, vs) == Err(r.error)
  {
    if vs == [] then Err(NoNodePassed)
    else
      match ProbeAll(contents, vs)
      case Err(e) => Err(e)
      case Ok(bs) => Ok(if |bs| != 1 then Listed(bs) else Bare(bs[0]))
  }

  /** One argument of add_nodes: checked, then inserted unless comparing it
      with the root raises. */
  function Admit(contents: seq<Key>, v: Value): (r: Result<Key>)
    ensures r.Ok? ==> ValueOf(r.value) == v && (contents == [] || SameKind(r.value, contents[0]))
    ensures r == Err(UnrecognizedValue) <==> !(v.Int? || v.Str?)
    ensures r == Err(AddFailed) <==> exists k :: ValueOf(k) == v && contents != [] && !SameKind(k, contents[0])
    ensures r.Err? ==> r.error == UnrecognizedValue || r.error == AddFailed
  {
    match CheckNode(v)
    case None => Err(UnrecognizedValue)
    case Some(k) => if contents == [] || SameKind(k, contents[0]) then Ok(k) else Err(AddFailed)
  }

  /** The loop of add_nodes: the keys inserted and how it ended. It stops at
      the first argument it cannot insert, and keeps what came before. */
  function AddAll(contents: seq<Key>, vs: seq<Value>): (r: (seq<Key>, Result<()>))
    ensures |contents| <= |r.0| <= |contents| + |vs| && r.0[..|contents|] == contents
    ensures r.1.Ok? <==> |r.0| == |contents| + |vs|
    ensures forall i :: |contents| <= i < |r.0| ==> ValueOf(r.0[i]) == vs[i - |contents|]
    ensures forall i :: |contents| <= i < |r.0| ==> i == 0 || SameKind(r.0[i], r.0[0])
    ensures r.1.Err? ==> Admit(r.0, vs[|r.0| - |contents|]) == Err(r.1.error)
    decreases |vs|
  {
    if vs == [] then (contents, Ok(()))
    else
      match Admit(contents, vs[0])
      case Err(e) => (contents, Err(e))
      case Ok(k) => AddAll(contents + [k], vs[1..])
  }

  /** Every key add_nodes' loop appends was admissible on the keys
      appended before it: an int or str of the tree's kind. */
  lemma AddAllAdmitsEach(contents: seq<Key>, vs: seq<Value>)
    ensures var r := AddAll(contents, vs);
      forall i :: |contents| <= i < |r.0| ==> Admit(r.0[..i], vs[i - |contents|]) == Ok(r.0[i])
  {
  }

  /** add_nodes(*vs). */
  function AddNodesSpec(contents: seq<Key>, vs: seq<Value>): (r: (seq<Key>, Result<()>))
    ensures r.1 == Err(NoNodePassed) <==> vs == []
    ensures vs == [] ==> r.0 == contents
    ensures |contents| <= |r.0| <= |contents| + |vs| && r.0[..|contents|] == contents
    ensures r.1.Ok? <==> |r.0| == |contents| + |vs| && vs != []
    ensures forall i :: |contents| <= i < |r.0| ==> ValueOf(r.0[i]) == vs[i - |contents|]
    ensures forall i :: |contents| <= i < |r.0| ==> Admit(r.0[..i], vs[i - |contents|]) == Ok(r.0[i])
    ensures vs != [] && r.1.Err? ==> Admit(r.0, vs[|r.0| - |contents|]) == Err(r.1.error)
  {
    if vs == [] then (contents, Err(NoNodePassed)) else AddAll(contents, vs)
  }

  /** Result ++ tail: `bs` found first, then whatever the rest yields. */
  function Then(bs: seq<bool>, rest: Result<seq<bool>>): Result<seq<bool>>
  {
    match rest
    case Ok(cs) => Ok(bs + cs)
    case Err(e) => Err(e)
  }

  /** find_nodes stops at the first argument that raises, and raises what
      that argument raises. */
  lemma {:induction false} ProbeAllFirstError(contents: seq<Key>, vs: seq<Value>)
    requires ProbeAll(contents, vs).Err?
    ensures exists i :: (0 <= i < |vs| && Probe(contents, vs[i]) == Err(ProbeAll(contents, vs).error)
      && forall j :: 0 <= j < i ==> Probe(contents, vs[j]).Ok?)
    decreases |vs|
  {
    if Probe(contents, vs[0]).Err? {
      assert Probe(contents, vs[0]) == Err(ProbeAll(contents, vs).error);
    } else {
      ProbeAllFirstError(contents, vs[1..]);
      var i :| 0 <= i < |vs| - 1 && Probe(contents, vs[1..][i]) == Err(ProbeAll(contents, vs[1..]).error)
        && forall j :: 0 <= j < i ==> Probe(contents, vs[1..][j]).Ok?;
      assert Probe(contents, vs[i + 1]) == Err(ProbeAll(contents, vs).error);
      assert forall j :: 0 <= j < i + 1 ==> Probe(contents, vs[j]).Ok? by {
        forall j | 0 <= j < i + 1
          ensures Probe(contents, vs[j]).Ok?
        {
          if j > 0 {
            assert vs[j] == vs[1..][j - 1];
          }
        }
      }
    }
  }

  /** One argument gives the bare answer for it; several give one answer
      per argument, in argument order. */
  lemma FindNodesUnwraps(contents: seq<Key>, vs: seq<Value>)
    ensures |vs| == 1 ==> (FindNodesSpec(contents, vs) ==
      match Probe(contents, vs[0])
      case Ok(b) => Ok(Bare(b))
      case Err(e) => Err(e))
    ensures |vs| > 1 && FindNodesSpec(contents, vs).Ok? ==> (
      var a := FindNodesSpec(contents, vs).value;
      a.Listed? && |a.bs| == |vs| && forall i :: 0 <= i < |vs| ==> Probe(contents, vs[i]) == Ok(a.bs[i]))
  {
  }

  lemma ThenEmpty(rest: Result<seq<bool>>)
    ensures Then([], rest) == rest
  {
    if rest.Ok? {
      assert [] + rest.value == rest.value;
    }
  }

  lemma ThenThen(bs: seq<bool>, b: bool, rest: Result<seq<bool>>)
    ensures Then(bs, Then([b], rest)) == Then(bs + [b], rest)
  {
    if rest.Ok? {
      assert bs + ([b] + rest.value) == (bs + [b]) + rest.value;
    }
  }

  /** ProbeAll on a suffix of the arguments, one argument at a time. */
  lemma ProbeAllStep(contents: seq<Key>, vs: seq<Value>, i: int)
    requires 0 <= i < |vs|
    ensures ProbeAll(contents, vs[i..]) ==
      match Probe(contents, vs[i])
      case Err(e) => Err(e)
      case Ok(b) => Then([b], ProbeAll(contents, vs[i + 1..]))
  {
    assert vs[i..][0] == vs[i] && vs[i..][1..] == vs[i + 1..];
  }

  // ---------------------------------------------------------------------
  // The class

  class BinaryTree {
    /** self.__structure; the empty list stands for Python's None. */
    var structure: seq<Node>
    /** self.__name */
    var name: Option<string>
    /** The keys inserted so far, in insertion order. */
    ghost var Contents: seq<Key>
    /** Paths[j]: the indices of the ancestors of node j, root first. */
    ghost var Paths: seq<seq<int>>

    ghost predicate Valid()
      reads this
    {
      SearchTree(structure, Paths)
      && |Contents| == |structure|
      && (forall i :: 0 <= i < |structure| ==> structure[i].payload == Contents[i])
    }

    /** Every inserted key is found, and all payloads share the root's kind:
        a tree holds ints only or strs only. */
    lemma InsertedKeysAreFound()
      requires Valid()
      ensures forall i :: 0 <= i < |Contents| ==> SameKind(Contents[i], Contents[0])
      ensures forall k :: k in Contents ==> Lookup(Contents, k) == Some(true)
    {
      if structure != [] {
        SameKindAsRoot(structure, Paths);
      }
    }

    /** __init__ */
    constructor (name: Option<string>)
      ensures Valid() && structure == [] && Contents == [] && this.name == name
    {
      structure := [];
      this.name := name;
      Contents := [];
      Paths := [];
    }

    /** __add_node: walks from the root, left when k is smaller than the
        payload and right otherwise, and links [k, -1, -1] at the end of
        the list into the empty slot it reaches. False is the TypeError of
        comparing k with payloads of the other kind; nothing changes then. */
    method AddNode(k: Key) returns (ok: bool)
      requires Valid()
      modifies this
      ensures Valid() && name == old(name)
      ensures ok <==> (old(Contents) == [] || SameKind(k, old(Contents)[0]))
      ensures ok ==> Contents == old(Contents) + [k]
      ensures !ok ==> structure == old(structure) && Contents == old(Contents)
      ensures old(structure) == [] ==> structure == [Node(k, NoChild, NoChild)]
      ensures ok && old(structure) != [] ==>
        exists par, p :: Placed(old(structure), old(Paths), k, par, p)
          && structure == Attach(old(structure), k, par, p)
    {
      if structure == [] {
        RootIsSearchTree(k);
        structure := [Node(k, NoChild, NoChild)];
        Contents := [k];
        Paths := [[]];
        return true;
      }
      SameKindAsRoot(structure, Paths);
      var cur := 0;
      while true
        invariant structure == old(structure) && Contents == old(Contents) && Paths == old(Paths)
        invariant name == old(name)
        invariant 0 <= cur < |structure|
        invariant Routed(structure, Paths, k, cur)
        invariant cur > 0 ==> SameKind(k, structure[0].payload)
        decreases |structure| - cur
      {
        var less := Less(k, structure[cur].payload);
        if less.None? {
          return false;
        }
        var p := if less.value then 1 else 2;
        if Child(structure[cur], p) == NoChild {
          assert Placed(structure, Paths, k, cur, p);
          AttachKeepsSearchTree(structure, Paths, k, cur, p);
          structure := Attach(structure, k, cur, p);
          Contents := Contents + [k];
          Paths := Paths + [Paths[cur] + [cur]];
          return true;
        }
        RouteStep(structure, Paths, k, cur, p);
        cur := Child(structure[cur], p);
      }
    }

    /** __find_node: walks the insertion path of k and answers whether k was
        inserted; None is the exception raised on an empty tree or by
        comparing k with payloads of the other kind. */
    method FindNode(k: Key) returns (r: Option<bool>)
      requires Valid()
      ensures r == Lookup(Contents, k)
    {
      if structure == [] {
        return None;
      }
      SameKindAsRoot(structure, Paths);
      PathsStartAtRoot(structure, Paths);
      var cur := 0;
      while structure[cur].payload != k
        invariant 0 <= cur < |structure|
        invariant cur > 0 ==> SameKind(k, structure[0].payload)
        invariant forall j :: 0 <= j < |structure| && j != cur && structure[j].payload == k ==> OnPathAt(Paths, j, cur)
        decreases |structure| - cur
      {
        var less := Less(k, structure[cur].payload);
        if less.None? {
          return None;
        }
        var p := if less.value then 1 else 2;
        Descend(structure, Paths, k, cur, p);
        assert LinkedAt(structure, cur);
        var next := if less.value then structure[cur].left else structure[cur].right;
        if next == NoChild {
          return Some(false);
        }
        cur := next;
      }
      return Some(true);
    }

    /** add_nodes(self, *vs): not atomic; the keys before the first argument
        that fails stay inserted. */
    method AddNodes(vs: seq<Value>) returns (r: Result<()>)
      requires Valid()
      modifies this
      ensures Valid() && name == old(name)
      ensures (Contents, r) == AddNodesSpec(old(Contents), vs)
    {
      if |vs| == 0 {
        return Err(NoNodePassed);
      }
      var i := 0;
      while i < |vs|
        invariant 0 <= i <= |vs|
        invariant Valid() && name == old(name)
        invariant AddAll(Contents, vs[i..]) == AddAll(old(Contents), vs)
      {
        assert vs[i..][1..] == vs[i + 1..];
        var key := CheckNode(vs[i]);
        if key.None? {
          return Err(UnrecognizedValue);
        }
        var ok := AddNode(key.value);
        if !ok {
          return Err(AddFailed);
        }
        i := i + 1;
      }
      return Ok(());
    }

    /** find_nodes(self, *vs): one answer per argument in argument order,
        unwrapped when there is exactly one. */
    method FindNodes(vs: seq<Value>) returns (r: Result<Answer>)
      requires Valid()
      ensures r == FindNodesSpec(Contents, vs)
    {
      if |vs| == 0 {
        return Err(NoNodePassed);
      }
      var results: seq<bool> := [];
      var i := 0;
      ThenEmpty(ProbeAll(Contents, vs));
      assert vs[0..] == vs;
      while i < |vs|
        invariant 0 <= i <= |vs|
        invariant ProbeAll(Contents, vs) == Then(results, ProbeAll(Contents, vs[i..]))
      {
        ProbeAllStep(Contents, vs, i);
        var key := CheckNode(vs[i]);
        if key.None? {
          return Err(UnrecognizedValue);
        }
        var found := FindNode(key.value);
        if found.None? {
          return Err(ExploreFailed);
        }
        ThenThen(results, found.value, ProbeAll(Contents, vs[i + 1..]));
        results := results + [found.value];
        i := i + 1;
      }
      assert results + [] == results;
      return Ok(if |results| != 1 then Listed(results) else Bare(results[0]));
    }
  }

  const Sample: seq<Key> := [IntKey(5), IntKey(3), IntKey(8), IntKey(1), IntKey(4), IntKey(7), IntKey(9)]

  /** add_nodes inserts an admissible first argument and carries on with
      the rest. */
  lemma AddAllFirst(contents: seq<Key>, v: Value, vs: seq<Value>, k: Key)
    requires Admit(contents, v) == Ok(k)
    ensures AddAll(contents, [v] + vs) == AddAll(contents + [k], vs)
  {
    assert ([v] + vs)[0] == v && ([v] + vs)[1..] == vs;
  }

  lemma SampleBuilt()
    ensures AddNodesSpec([], [Int(5), Int(3), Int(8), Int(1), Int(4), Int(7), Int(9)]) == (Sample, Ok(()))
  {
    SampleTail();
    AddAllFirst([], Int(5), [Int(3), Int(8), Int(1), Int(4), Int(7), Int(9)], IntKey(5));
    AddAllFirst([IntKey(5)], Int(3), [Int(8), Int(1), Int(4), Int(7), Int(9)], IntKey(3));
    assert [] + [IntKey(5)] == [IntKey(5)] && [IntKey(5)] + [IntKey(3)] == Sample[..2];
  }

  /** The last five insertions of the sample, AddAll unfolded one argument
      at a time. */
  lemma SampleTail()
    ensures AddAll(Sample[..2], [Int(8), Int(1), Int(4), Int(7), Int(9)]) == (Sample, Ok(()))
  {
    AddAllFirst(Sample[..2], Int(8), [Int(1), Int(4), Int(7), Int(9)], IntKey(8));
    AddAllFirst(Sample[..3], Int(1), [Int(4), Int(7), Int(9)], IntKey(1));
    AddAllFirst(Sample[..4], Int(4), [Int(7), Int(9)], IntKey(4));
    AddAllFirst(Sample[..5], Int(7), [Int(9)], IntKey(7));
    AddAllFirst(Sample[..6], Int(9), [], IntKey(9));
    assert Sample[..2] + [IntKey(8)] == Sample[..3] && Sample[..3] + [IntKey(1)] == Sample[..4];
    assert Sample[..4] + [IntKey(4)] == Sample[..5] && Sample[..5] + [IntKey(7)] == Sample[..6];
    assert Sample[..6] + [IntKey(9)] == Sample;
    assert [Int(9)] + [] == [Int(9)];
  }

  lemma SampleFound()
    ensures FindNodesSpec(Sample, [Int(4)]) == Ok(Bare(true))
    ensures FindNodesSpec(Sample, [Int(6), Int(8)]) == Ok(Listed([false, true]))
    ensures FindNodesSpec(Sample, [Str("x")]) == Err(ExploreFailed)
  {
    assert IntKey(4) in Sample && IntKey(8) in Sample && IntKey(6) !in Sample;
    var two := [Int(6), Int(8)];
    assert two[1..] == [Int(8)];
    assert Probe(Sample, two[0]) == Ok(false) && Probe(Sample, Int(8)) == Ok(true);
    var one := [Int(8)];
    assert one[0] == Int(8) && one[1..] == [] && [true] + [] == [true];
    assert ProbeAll(Sample, one) == Ok([true]);
    assert [false] + [true] == [false, true];
  }

  /** A client: the tree built from 5, 3, 8, 1, 4, 7, 9 finds 4 and not 6,
      and a lookup of a str in it raises. */
  method ClientExample()
  {
    SampleBuilt();
    SampleFound();
    var t := new BinaryTree(None);
    var r := t.AddNodes([Int(5), Int(3), Int(8), Int(1), Int(4), Int(7), Int(9)]);
    assert r == Ok(());
    var a := t.FindNodes([Int(4)]);
    assert a == Ok(Bare(true));
    a := t.FindNodes([Int(6), Int(8)]);
    assert a == Ok(Listed([false, true]));
    a := t.FindNodes([Str("x")]);
    assert a == Err(ExploreFailed);
  }
}
