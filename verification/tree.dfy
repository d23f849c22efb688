/** The Huffman code tree: a strict binary tree whose leaves carry byte symbols. */
module CodeTree {

  /** One unsigned byte, 0..255. */
  type Byte = x: int | 0 <= x < 256

  /** Every node has either no children (a leaf) or exactly two. */
  datatype Tree = Leaf(sym: Byte) | Node(left: Tree, right: Tree)

  /** The symbols carried by the leaves of `t`. */
  function LeafSet(t: Tree): set<Byte>
  {
    match t
    case Leaf(s) => {s}
    case Node(l, r) => LeafSet(l) + LeafSet(r)
  }

  /** No symbol labels two leaves. */
  predicate DistinctLeaves(t: Tree)
  {
    match t
    case Leaf(_) => true
    case Node(l, r) => DistinctLeaves(l) && DistinctLeaves(r) && LeafSet(l) !! LeafSet(r)
  }

  /** The child reached by one step: `false` (bit 0) goes left, `true` (bit 1) goes right. */
  function Child(t: Tree, bit: bool): (c: Tree)
    requires t.Node?
    ensures c < t
    ensures LeafSet(c) <= LeafSet(t)
  {
    if bit then t.right else t.left
  }

  /** Following `p` from the root of `t` ends exactly on a leaf labelled `s`. */
  predicate PathTo(t: Tree, p: seq<bool>, s: Byte)
    decreases t
  {
    match t
    case Leaf(x) => p == [] && x == s
    case Node(_, _) => |p| > 0 && PathTo(Child(t, p[0]), p[1..], s)
  }

  /** Following `p` from the root of `t` never lands on a leaf: `p` stops part-way through a code. */
  predicate StaysInternal(t: Tree, p: seq<bool>)
    decreases t
  {
    t.Node? && (|p| == 0 || StaysInternal(Child(t, p[0]), p[1..]))
  }

  /** A path that ends on a leaf has no proper extension that also ends on a leaf. */
  lemma {:induction false} PathToPrefixFree(t: Tree, p: seq<bool>, q: seq<bool>, s: Byte, s': Byte)
    requires PathTo(t, p, s) && PathTo(t, p + q, s')
    ensures q == [] && s == s'
    decreases t
  {
    match t
    case Leaf(_) =>
    case Node(_, _) =>
      assert (p + q)[0] == p[0];
      assert (p + q)[1..] == p[1..] + q;
      PathToPrefixFree(Child(t, p[0]), p[1..], q, s, s');
  }

  /** A path ending on a leaf names a symbol of the tree. */
  lemma {:induction false} PathToInLeafSet(t: Tree, p: seq<bool>, s: Byte)
    requires PathTo(t, p, s)
    ensures s in LeafSet(t)
    decreases t
  {
    match t
    case Leaf(_) =>
    case Node(_, _) =>
      PathToInLeafSet(Child(t, p[0]), p[1..], s);
  }

  /** When symbols are distinct, a symbol has exactly one path. */
  lemma {:induction false} PathToUnique(t: Tree, p: seq<bool>, p': seq<bool>, s: Byte)
    requires DistinctLeaves(t)
    requires PathTo(t, p, s) && PathTo(t, p', s)
    ensures p == p'
    decreases t
  {
    match t
    case Leaf(_) =>
    case Node(l, r) =>
      if p[0] != p'[0] {
        PathToInLeafSet(Child(t, p[0]), p[1..], s);
        PathToInLeafSet(Child(t, p'[0]), p'[1..], s);
        assert false;
      }
      PathToUnique(Child(t, p[0]), p[1..], p'[1..], s);
      assert p == [p[0]] + p[1..];
      assert p' == [p'[0]] + p'[1..];
  }

  /** An internal node of a tree with distinct symbols carries at least two symbols. */
  lemma {:induction false} NodeHasTwoSymbols(t: Tree)
    requires DistinctLeaves(t) && t.Node?
    ensures |LeafSet(t)| >= 2
  {
    LeafSetNonEmpty(t.left);
    LeafSetNonEmpty(t.right);
    var a :| a in LeafSet(t.left);
    var b :| b in LeafSet(t.right);
    assert {a, b} <= LeafSet(t);
    assert |{a, b}| == 2;
    SubsetCardinality({a, b}, LeafSet(t));
  }

  lemma {:induction false} LeafSetNonEmpty(t: Tree)
    ensures LeafSet(t) != {}
  {
    match t
    case Leaf(s) => assert s in LeafSet(t);
    case Node(l, _) => LeafSetNonEmpty(l);
  }

  lemma SubsetCardinality<T>(a: set<T>, b: set<T>)
    requires a <= b
    ensures |a| <= |b|
  {
    assert b == a + (b - a);
  }
}
