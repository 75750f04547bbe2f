# binarytree: an arena binary search tree, modelled in Dafny

The repository's one piece of logic is the `BinaryTree` class in
`binarytree/bt.py`. It is an unbalanced binary search tree. All nodes live in one
flat list of triples `[payload, leftIndex, rightIndex]`. `-1` means "no
child" and the root is always at index 0. `add_nodes` inserts any number of
payloads: the walk goes left when the new payload is smaller and right
otherwise, so equal payloads go right. The new triple is appended to the
list, and the one empty slot that the walk reached is set to point at it.
`find_nodes` looks up any number of payloads by the same walk. It answers a
bare boolean for one argument and a list otherwise. Only Python `int` and
`str` values are accepted.

The model has three modules:

- `PyValues` (`pyvalues.dfy`): the payloads (`Key`: an int or a str), the
  arguments (`Value`: an int, a str, or any other Python object), the type
  check `CheckNode`, and Python's `<` (`Less`). `Less` returns `None` for the
  `TypeError` Python raises when an int is compared with a str. A tree may
  hold ints or strs, as in the source. A payload of the other kind fails at
  the first comparison, so every tree holds one kind only. This is proved,
  not assumed (`Arena.SameKindAsRoot`). Lemmas show that `<` is a strict
  total order within one kind.
- `Arena` (`arena.dfy`): the node list as a `seq<Node>`, together with its
  invariant, stated on values. That invariant is `SearchTree`:
  - `Linked`: every child reference is `-1` or a strictly later index in
    the list, so there are no cycles.
  - `Shaped`: a ghost companion `paths` gives, for every node, the indices
    of its ancestors from the root down.
  - `Ordered`: at every ancestor, the payload of a node takes the same turn
    that its path takes.

  `Attach` is the one state change insertion makes. The lemmas prove that
  `Attach` preserves the invariant, that the walks move along it, and that
  the invariant implies the textbook search-tree property: left subtrees
  hold smaller payloads, right subtrees none smaller, every node is
  reachable from the root, and no node has two parents.
- `BinaryTrees` (`tree.dfy`): the class `BinaryTree` with a `seq<Node>`
  field `structure` and the ghost `Contents`, which holds the payloads in
  insertion order. `AddNode` and `FindNode` are the two `while` loops of
  the source, and `AddNodes` and `FindNodes` are the variadic wrappers.
  `FindNode`, `AddNodes` and `FindNodes` are proved against functions of
  `Contents`. `AddNode` is proved to append k to `Contents` and to turn the
  node list into `Attach` of the old list at a `Placed` slot: the empty
  slot at the end of a walk whose every turn agrees with k. `Lookup` is what a
  lookup means: `None` for an exception, `Some(k in Contents)` otherwise.
  `AddAll` and `ProbeAll` are the argument loops with their error paths.
  `Result` carries the exceptions of the source, one `Error` constructor per
  message; `add_nodes` returns nothing, which is `Result<()>`.

`FindNode` has no `modifies` clause, so Dafny checks that a lookup never
changes the tree. Python's `None` for an empty structure is the empty
sequence: `__add_node` treats both as "no root", and `__find_node` fails on
both. `chosenNode` is a reference into the list. The model follows it by its
index `cur` and writes each change back into the sequence.

`__check_node` accepts only `int` and `str`, so floats are rejected
(binarytree/bt.py:27). A lookup on an empty tree raises at
`self.__structure[0]` (binarytree/bt.py:65), and `find_nodes` re-raises that
as its exploring error (binarytree/bt.py:58-61).

## Model

| member | source | states |
|---|---|---|
| `PyValues.CheckNode` | binarytree/bt.py:26-27 | accepts exactly the int and str values, returns the key that is that value, and no key is a rejected value |
| `PyValues.StrLess` | binarytree/bt.py:36 | Python `<` on strs is the lexicographic order by code point: a proper prefix is smaller, otherwise the first differing char decides |
| `PyValues.LexLessDrop` | binarytree/bt.py:36 | an equal first char does not change which of two strs is smaller |
| `PyValues.Less` | binarytree/bt.py:36 | Python `<` on payloads: an answer exactly when both are ints or both are strs (otherwise the TypeError); smaller keys are distinct |
| `PyValues.StrLessIrreflexive` | binarytree/bt.py:36 | no str is smaller than itself |
| `PyValues.StrLessTrichotomy` | binarytree/bt.py:36-39 | of two strs, exactly one is smaller or they are equal |
| `PyValues.StrLessTransitive` | binarytree/bt.py:36-39 | str `<` is transitive |
| `PyValues.EqualKeysGoRight` | binarytree/bt.py:36-39 | a payload equal to the node's is not smaller, so it is routed to slot 2 (right) |
| `PyValues.LessTrichotomy` | binarytree/bt.py:36-39 | within one kind, exactly one of a < b, a == b, b < a |
| `PyValues.LessTransitive` | binarytree/bt.py:36-39 | `<` on payloads is transitive |
| `Arena.SetChild` | binarytree/bt.py:41 | `chosenNode[p] = c` changes slot p only; payload and other slot are kept |
| `Arena.Attach` | binarytree/bt.py:40-44 | the list grows by one, `[k, -1, -1]` is last, slot p of the parent goes to the old length, its payload and other slot are kept, every other node is unchanged |
| `Arena.AttachKeepsLinked` | binarytree/bt.py:40-44 | after linking, every reference is still -1 or a later valid index, and the two slots of a node never name the same child |
| `Arena.AttachKeepsShaped` | binarytree/bt.py:40-44 | after linking, the new node's ancestors are the parent's plus the parent, and every path is still a chain of parent-child links from the root |
| `Arena.AttachKeepsOrdered` | binarytree/bt.py:36-44 | linking a key at the end of a walk whose every turn agreed with it keeps the search-tree order |
| `Arena.AttachKeepsSearchTree` | binarytree/bt.py:33-44 | insertion into a non-empty tree preserves the whole invariant |
| `Arena.RootIsSearchTree` | binarytree/bt.py:30-32 | the one-node list `[[k, -1, -1]]` satisfies the invariant |
| `Arena.RouteStep` | binarytree/bt.py:36-43 | taking the turn k asks for at a node leads to a later existing node, and every turn so far still agrees with k |
| `Arena.PathsStartAtRoot` | binarytree/bt.py:33 | every non-root node has index 0 as its first ancestor |
| `Arena.SameKindAsRoot` | binarytree/bt.py:36 | every payload of the tree has the kind of the root's payload |
| `Arena.Descend` | binarytree/bt.py:66-72 | if node j holds k and the walk is at an ancestor of j, the turn for k leads to an existing node that is j or still an ancestor of j |
| `Arena.BelowOnPath` | binarytree/bt.py:40-43 | every node of the subtree of i, other than i, has i among its ancestors |
| `Arena.BelowChild` | binarytree/bt.py:40-43 | a node below child c of i has i as ancestor and c as the next step from i |
| `Arena.SubtreesOrdered` | binarytree/bt.py:36-44 | all payloads of a node's left subtree are smaller than its payload; none of its right subtree is |
| `Arena.InAncestorSubtrees` | binarytree/bt.py:40-43 | a node lies in the subtree of each of its ancestors |
| `Arena.AllReachable` | binarytree/bt.py:33-44 | the nodes reachable from the root are exactly all indices of the list |
| `Arena.UniqueParent` | binarytree/bt.py:40-41 | a node is the child of one node only, through one slot only |
| `BinaryTrees.Lookup` | binarytree/bt.py:64-75 | a lookup raises exactly when the tree is empty or k is of the other kind than the root; otherwise it answers whether some inserted position holds k |
| `BinaryTrees.Probe` | binarytree/bt.py:56-61 | one find_nodes argument raises the unrecognized-value error exactly when it is not an int or str, the exploring error exactly when its lookup raises, and otherwise answers the lookup of the key that is that value |
| `BinaryTrees.ProbeAll` | binarytree/bt.py:54-61 | find_nodes' loop succeeds exactly when every argument is checked and looked up without raising, and then gives one answer per argument, in order |
| `BinaryTrees.ProbeAllFirstError` | binarytree/bt.py:55-61 | when it raises, it raises what the first raising argument raises, and all earlier arguments succeeded |
| `BinaryTrees.FindNodesUnwraps` | binarytree/bt.py:62 | one argument gives the bare answer for it; several give a list with one answer per argument |
| `BinaryTrees.FindNodesSpec` | binarytree/bt.py:50-62 | fails with the no-node error exactly when there are no arguments; a bare answer exactly for one argument, which is that argument's answer; otherwise the list of `ProbeAll`; any other failure is `ProbeAll`'s |
| `BinaryTrees.Admit` | binarytree/bt.py:19-24 | one add_nodes argument is accepted as the key that is that value when it is an int or str and the tree is empty or of its kind; it fails with the unrecognized-value error exactly for other values, and with the adding error exactly for a key of the other kind than the root |
| `BinaryTrees.AddAll` | binarytree/bt.py:18-24 | add_nodes' loop keeps the old keys and appends the arguments in order, each one admissible (an int or str of the tree's kind) on the keys before it; it succeeds exactly when it appends them all, and otherwise stops at the first argument that is not admissible and fails with that argument's error |
| `BinaryTrees.AddNodesSpec` | binarytree/bt.py:14-24 | fails with the no-node error exactly when there are no arguments, then changing nothing; otherwise keeps the old keys and appends the arguments in order, each one admissible on the keys before it; it succeeds exactly when it appends them all, and otherwise stops at the first argument that is not admissible and fails with that argument's error |
| `BinaryTrees.AddAllAdmitsEach` | binarytree/bt.py:19-24 | every key add_nodes' loop appends is what `Admit` accepts for its argument on the keys appended before it |
| `BinaryTrees.AddAllFirst` | binarytree/bt.py:18-22 | an admissible first argument is inserted and the loop carries on with the rest |
| `BinaryTrees.SampleTail` | binarytree/bt.py:18-24 | adding 8, 1, 4, 7, 9 after 5, 3 succeeds and gives the seven sample keys in order |
| `BinaryTrees.SampleBuilt` | binarytree/bt.py:12-24 | adding 5, 3, 8, 1, 4, 7, 9 to an empty tree succeeds and stores them in that order |
| `BinaryTrees.SampleFound` | binarytree/bt.py:46-75 | in that tree 4 is found, 6 is not, both answers of a two-argument call come in order, and looking up a str raises |
| `BinaryTrees.BinaryTree.InsertedKeysAreFound` | binarytree/bt.py:64-75 | all payloads share the root's kind, and every inserted key is found |
| `BinaryTrees.BinaryTree.constructor` | binarytree/bt.py:7-10 | a new tree is valid, empty, and carries the given name |
| `BinaryTrees.BinaryTree.AddNode` | binarytree/bt.py:29-44 | fails (TypeError) exactly when the tree is non-empty and k is of the other kind, changing nothing; an empty tree becomes `[[k, -1, -1]]`; otherwise the list is `Attach` at the empty slot where every turn agreed with k, Contents gains k, and the invariant is kept |
| `BinaryTrees.BinaryTree.FindNode` | binarytree/bt.py:64-75 | raises on an empty tree or a key of the other kind, and otherwise answers whether k was inserted; never changes the tree |
| `BinaryTrees.BinaryTree.AddNodes` | binarytree/bt.py:12-24 | fails with no arguments; otherwise new Contents and outcome are those of `AddAll`, so keys before a failing argument stay inserted |
| `BinaryTrees.BinaryTree.FindNodes` | binarytree/bt.py:46-62 | fails with no arguments; otherwise answers as `ProbeAll` does, unwrapped for one argument; never changes the tree |

## Left out

- `store`, `load`, `delete` and `__check_file` (binarytree/bt.py:77-100): file I/O through `open`, `os.listdir`, `os.remove` and `pickle`, with nothing to check without a file system.
- The random ten-letter name `store` falls back on (binarytree/bt.py:80-81): nondeterministic, and part of `store`.
- The module-level instance `bn = BinaryTree()` (binarytree/bt.py:103): glue.
- The `name` field is kept by every operation but read by none, as in the modelled part of the source.
- Python `bool` values are ints to `isinstance`, so `True` and `False` are accepted; the model has no separate bool case (they are `Int(1)` and `Int(0)`).
- Exception messages: each is one constructor of `Error`; the texts themselves are not modelled.
- Python ints are unbounded, like Dafny's `int`, so no width is modelled.
- str comparison is by code point over Dafny `char`, which has no lone surrogates; Python strs that contain one are not modelled.
- A structure set to `[]` from outside (by `load`) behaves as Python's `None` here; since `load` is left out this never arises.
- The in-place update of the inner list `chosenNode` is modelled as an update of the node sequence at index `cur`; no other reference sees the inner list in the modelled part, so no aliasing is lost.
