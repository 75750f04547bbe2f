/** The Python values that binarytree/bt.py handles: the payloads a tree may
    hold (int or str), the arguments a caller may hand to add_nodes and
    find_nodes (anything at all), and Python's `<` between two payloads,
    including the TypeError it raises between an int and a str. */
module PyValues {

  datatype Option<+T> = None | Some(value: T)

  /** A payload the tree stores: a Python int or a Python str. */
  datatype Key = IntKey(i: int) | StrKey(s: string)

  /** An argument of add_nodes / find_nodes. `Other` stands for any Python
      object that is neither an int nor a str (a float, None, a list, ...). */
  datatype Value = Int(i: int) | Str(s: string) | Other

  /** The Python object a key is. */
  function ValueOf(k: Key): Value
  {
    match k
    case IntKey(i) => Int(i)
    case StrKey(s) => Str(s)
  }

  /** __check_node: only an int or a str is accepted, and the accepted
      value is the key stored. */
  function CheckNode(v: Value): (r: Option<Key>)
    ensures r.Some? <==> (v.Int? || v.Str?)
    ensures r.Some? ==> ValueOf(r.value) == v
    ensures r.None? ==> forall k :: ValueOf(k) != v
  {
    match v
    case Int(i) => Some(IntKey(i))
    case Str(s) => Some(StrKey(s))
    case Other => None
  }

  /** Two payloads Python can order against each other. */
  predicate SameKind(a: Key, b: Key)
  {
    a.IntKey? == b.IntKey?
  }

  /** Lexicographic order, stated directly: a is a proper prefix of b, or
      the first position where they differ holds a smaller char in a. */
  ghost predicate LexLess(a: string, b: string)
  {
    (|a| < |b| && a == b[..|a|])
      || exists i :: 0 <= i < |a| && i < |b| && a[..i] == b[..i] && a[i] < b[i]
  }

  /** Python's `<` on str: code point by code point, and a proper prefix
      is smaller. */
  function StrLess(a: string, b: string): (r: bool)
    ensures r <==> LexLess(a, b)
    decreases |a|
  {
    if a == [] then b != []
    else if b == [] then false
    else if a[0] != b[0] then (assert a[..0] == b[..0]; a[0] < b[0])
    else (LexLessDrop(a, b); StrLess(a[1..], b[1..]))
  }

  /** Dropping an equal first char keeps the lexicographic order. */
  lemma LexLessDrop(a: string, b: string)
    requires a != [] && b != [] && a[0] == b[0]
    ensures LexLess(a, b) <==> LexLess(a[1..], b[1..])
  {
    var a', b' := a[1..], b[1..];
    if LexLess(a', b') {
      if !(|a'| < |b'| && a' == b'[..|a'|]) {
        var i :| 0 <= i < |a'| && i < |b'| && a'[..i] == b'[..i] && a'[i] < b'[i];
        assert a[..i + 1] == [a[0]] + a'[..i] && b[..i + 1] == [b[0]] + b'[..i];
      } else {
        assert a == [a[0]] + a' && b[..|a|] == [b[0]] + b'[..|a'|];
      }
    }
    if LexLess(a, b) {
      if !(|a| < |b| && a == b[..|a|]) {
        var i :| 0 <= i < |a| && i < |b| && a[..i] == b[..i] && a[i] < b[i];
        assert i > 0;
        assert a'[..i - 1] == a[..i][1..] && b'[..i - 1] == b[..i][1..];
      } else {
        assert a' == a[1..] && b'[..|a'|] == b[..|a|][1..];
      }
    }
  }

  /** Python's `a < b` on two payloads; None is the TypeError raised when
      an int is compared with a str. */
  function Less(a: Key, b: Key): (r: Option<bool>)
    ensures r.Some? <==> SameKind(a, b)
    ensures r == Some(true) ==> a != b
  {
    match (a, b)
    case (IntKey(x), IntKey(y)) => Some(x < y)
    case (StrKey(x), StrKey(y)) => StrLessIrreflexive(x); Some(StrLess(x, y))
    case _ => None
  }

  lemma {:induction false} StrLessIrreflexive(s: string)
    ensures !StrLess(s, s)
  {
    if s != [] {
      StrLessIrreflexive(s[1..]);
    }
  }

  lemma {:induction false} StrLessTrichotomy(a: string, b: string)
    ensures StrLess(a, b) || a == b || StrLess(b, a)
    ensures !(StrLess(a, b) && StrLess(b, a))
    decreases |a|
  {
    if a != [] && b != [] && a[0] == b[0] {
      StrLessTrichotomy(a[1..], b[1..]);
      if a[1..] == b[1..] {
        assert a == [a[0]] + a[1..] && b == [b[0]] + b[1..];
      }
    }
  }

  lemma {:induction false} StrLessTransitive(a: string, b: string, c: string)
    requires StrLess(a, b) && StrLess(b, c)
    ensures StrLess(a, c)
    decreases |a|
  {
    if a != [] && a[0] == b[0] && b[0] == c[0] {
      StrLessTransitive(a[1..], b[1..], c[1..]);
    }
  }

  /** A key is never smaller than itself, so an insertion that meets an
      equal payload turns right (slot 2). */
  lemma EqualKeysGoRight(k: Key)
    ensures Less(k, k) == Some(false)
  {
  }

  /** Between payloads of one kind, `<` is a strict total order: exactly
      one of a < b, a == b, b < a holds. */
  lemma LessTrichotomy(a: Key, b: Key)
    requires SameKind(a, b)
    ensures (Less(a, b) == Some(true)) || a == b || (Less(b, a) == Some(true))
    ensures !(Less(a, b) == Some(true) && Less(b, a) == Some(true))
  {
    if a.StrKey? {
      StrLessTrichotomy(a.s, b.s);
    }
  }

  lemma LessTransitive(a: Key, b: Key, c: Key)
    requires Less(a, b) == Some(true) && Less(b, c) == Some(true)
    ensures Less(a, c) == Some(true)
  {
    if a.StrKey? {
      StrLessTransitive(a.s, b.s, c.s);
    }
  }
}
