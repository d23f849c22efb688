/** Greedy Huffman tree construction (lines 113-125). */
module TreeBuilder {
  import opened Wrappers
  import opened CodecErrors
  import opened CodeTree
  import opened Frequency

  /** A queue entry: a subtree and its frequency (the source's `Node::freq`). */
  datatype Weighted = Weighted(weight: nat, tree: Tree)

  /** The sum of the frequencies of the leaves of `t`. */
  function TreeWeight(t: Tree, freq: map<Byte, nat>): nat
  {
    match t
    case Leaf(s) => if s in freq then freq[s] else 0
    case Node(l, r) => TreeWeight(l, freq) + TreeWeight(r, freq)
  }

  function TotalWeight(q: seq<Weighted>): nat
  {
    if |q| == 0 then 0 else q[0].weight + TotalWeight(q[1..])
  }

  /** Every symbol carried by some tree of the queue. */
  function LeafUnion(q: seq<Weighted>): set<Byte>
  {
    if |q| == 0 then {} else LeafSet(q[0].tree) + LeafUnion(q[1..])
  }

  /** Each entry's weight is its tree's frequency, and no symbol occurs twice in the queue. */
  predicate QueueInvariant(q: seq<Weighted>, freq: map<Byte, nat>)
  {
    && (forall i :: 0 <= i < |q| ==>
          DistinctLeaves(q[i].tree) && q[i].weight == TreeWeight(q[i].tree, freq))
    && (forall i, j :: 0 <= i < j < |q| ==> LeafSet(q[i].tree) !! LeafSet(q[j].tree))
  }

  lemma {:induction false} TotalWeightAppend(a: seq<Weighted>, b: seq<Weighted>)
    ensures TotalWeight(a + b) == TotalWeight(a) + TotalWeight(b)
  {
    if |a| == 0 {
      assert a + b == b;
    } else {
      assert (a + b)[1..] == a[1..] + b;
      TotalWeightAppend(a[1..], b);
    }
  }

  lemma {:induction false} LeafUnionAppend(a: seq<Weighted>, b: seq<Weighted>)
    ensures LeafUnion(a + b) == LeafUnion(a) + LeafUnion(b)
  {
    if |a| == 0 {
      assert a + b == b;
    } else {
      assert (a + b)[1..] == a[1..] + b;
      LeafUnionAppend(a[1..], b);
    }
  }

  /** `q` without its `k`-th entry, the rest in order. */
  function RemoveAt(q: seq<Weighted>, k: nat): (r: seq<Weighted>)
    requires k < |q|
    ensures |r| == |q| - 1
  {
    q[..k] + q[k + 1..]
  }

  lemma RemoveAtIndex(q: seq<Weighted>, k: nat)
    requires k < |q|
    ensures forall i :: 0 <= i < |q| - 1 ==> RemoveAt(q, k)[i] == q[if i < k then i else i + 1]
  {
  }

  lemma RemoveAtMultiset(q: seq<Weighted>, k: nat)
    requires k < |q|
    ensures multiset(RemoveAt(q, k)) + multiset{q[k]} == multiset(q)
  {
    assert q == q[..k] + [q[k]] + q[k + 1..];
  }

  lemma SplitAt(q: seq<Weighted>, k: nat)
    requires k < |q|
    ensures q == q[..k] + ([q[k]] + q[k + 1..])
    ensures ([q[k]] + q[k + 1..])[1..] == q[k + 1..]
    ensures RemoveAt(q, k) == q[..k] + q[k + 1..]
  {
  }

  lemma RemoveAtTotals(q: seq<Weighted>, k: nat)
    requires k < |q|
    ensures TotalWeight(q) == q[k].weight + TotalWeight(RemoveAt(q, k))
    ensures LeafUnion(q) == LeafSet(q[k].tree) + LeafUnion(RemoveAt(q, k))
  {
    RemoveAtTotalWeight(q, k);
    RemoveAtLeafUnion(q, k);
  }

  lemma RemoveAtTotalWeight(q: seq<Weighted>, k: nat)
    requires k < |q|
    ensures TotalWeight(q) == q[k].weight + TotalWeight(RemoveAt(q, k))
  {
    var front, back := q[..k], q[k + 1..];
    var mid := [q[k]] + back;
    SplitAt(q, k);
    TotalWeightAppend(front, mid);
    TotalWeightAppend(front, back);
  }

  lemma RemoveAtLeafUnion(q: seq<Weighted>, k: nat)
    requires k < |q|
    ensures LeafUnion(q) == LeafSet(q[k].tree) + LeafUnion(RemoveAt(q, k))
  {
    var front, back := q[..k], q[k + 1..];
    var mid := [q[k]] + back;
    SplitAt(q, k);
    LeafUnionAppend(front, mid);
    LeafUnionAppend(front, back);
  }

  lemma RemoveAtInvariant(q: seq<Weighted>, k: nat, freq: map<Byte, nat>)
    requires k < |q| && QueueInvariant(q, freq)
    ensures QueueInvariant(RemoveAt(q, k), freq)
    ensures forall i :: 0 <= i < |q| - 1 ==> LeafSet(RemoveAt(q, k)[i].tree) !! LeafSet(q[k].tree)
  {
    var r := RemoveAt(q, k);
    RemoveAtIndex(q, k);
    forall i, j | 0 <= i < j < |r|
      ensures LeafSet(r[i].tree) !! LeafSet(r[j].tree)
    {
      var i' := if i < k then i else i + 1;
      var j' := if j < k then j else j + 1;
      assert i' < j';
    }
    forall i | 0 <= i < |r|
      ensures LeafSet(r[i].tree) !! LeafSet(q[k].tree)
    {
      var i' := if i < k then i else i + 1;
      if i' < k {
        assert LeafSet(q[i'].tree) !! LeafSet(q[k].tree);
      } else {
        assert LeafSet(q[k].tree) !! LeafSet(q[i'].tree);
      }
    }
  }

  /** Index of the first entry of least weight: the documented tie-break among equal weights. */
  function MinIndex(q: seq<Weighted>): (k: nat)
    requires |q| > 0
    ensures k < |q|
    ensures forall i :: 0 <= i < |q| ==> q[k].weight <= q[i].weight
    ensures forall i :: 0 <= i < k ==> q[k].weight < q[i].weight
  {
    if |q| == 1 then 0
    else
      var k := MinIndex(q[..|q| - 1]);
      if q[|q| - 1].weight < q[k].weight then |q| - 1 else k
  }

  /** The internal node joining `a` (left) and `b` (right), weighing both together. */
  function Merge(a: Weighted, b: Weighted): Weighted
  {
    Weighted(a.weight + b.weight, Node(a.tree, b.tree))
  }

  /** One iteration of the merge loop: pop the two lightest entries, join them under a new
      internal node (first popped on the left) and push it. */
  method MergeStep(q: seq<Weighted>, freq: map<Byte, nat>) returns (first: Weighted, second: Weighted, r: seq<Weighted>)
    requires |q| >= 2
    ensures |r| == |q| - 1
    ensures multiset(q) == multiset(r[..|r| - 1]) + multiset{first, second}
    ensures forall i :: 0 <= i < |q| ==> first.weight <= q[i].weight
    ensures forall i :: 0 <= i < |r| - 1 ==> second.weight <= r[i].weight
    ensures r[|r| - 1] == Weighted(first.weight + second.weight, Node(first.tree, second.tree))
    ensures TotalWeight(r) == TotalWeight(q)
    ensures LeafUnion(r) == LeafUnion(q)
    ensures QueueInvariant(q, freq) ==> QueueInvariant(r, freq)
  {
    var k1 := MinIndex(q);
    first := q[k1];
    var q1 := RemoveAt(q, k1);
    var k2 := MinIndex(q1);
    second := q1[k2];
    var q2 := RemoveAt(q1, k2);
    r := q2 + [Merge(first, second)];
    assert r[..|r| - 1] == q2;
    PopTwo(q, k1, k2);
    RemoveAtIndex(q1, k2);
    MergeTotals(q, k1, k2);
    if QueueInvariant(q, freq) {
      MergeKeepsInvariant(q, k1, k2, freq);
    }
  }

  lemma PopTwo(q: seq<Weighted>, k1: nat, k2: nat)
    requires k1 < |q| && k2 < |q| - 1
    ensures var q1 := RemoveAt(q, k1);
      multiset(q) == multiset(RemoveAt(q1, k2)) + multiset{q[k1], q1[k2]}
  {
    RemoveAtMultiset(q, k1);
    RemoveAtMultiset(RemoveAt(q, k1), k2);
  }

  lemma MergeTotals(q: seq<Weighted>, k1: nat, k2: nat)
    requires k1 < |q| && k2 < |q| - 1
    ensures var q1 := RemoveAt(q, k1);
      var r := RemoveAt(q1, k2) + [Merge(q[k1], q1[k2])];
      TotalWeight(r) == TotalWeight(q) && LeafUnion(r) == LeafUnion(q)
  {
    var q1 := RemoveAt(q, k1);
    var q2 := RemoveAt(q1, k2);
    var m := Merge(q[k1], q1[k2]);
    RemoveAtTotals(q, k1);
    RemoveAtTotals(q1, k2);
    PushTotals(q2, m);
  }

  lemma PushTotals(q: seq<Weighted>, m: Weighted)
    ensures TotalWeight(q + [m]) == TotalWeight(q) + m.weight
    ensures LeafUnion(q + [m]) == LeafUnion(q) + LeafSet(m.tree)
  {
    assert [m][1..] == [];
    TotalWeightAppend(q, [m]);
    LeafUnionAppend(q, [m]);
  }

  lemma MergeKeepsInvariant(q: seq<Weighted>, k1: nat, k2: nat, freq: map<Byte, nat>)
    requires k1 < |q| && k2 < |q| - 1
    requires QueueInvariant(q, freq)
    ensures var q1 := RemoveAt(q, k1);
      QueueInvariant(RemoveAt(q1, k2) + [Merge(q[k1], q1[k2])], freq)
  {
    var q1 := RemoveAt(q, k1);
    var q2 := RemoveAt(q1, k2);
    var m := Merge(q[k1], q1[k2]);
    RemoveAtInvariant(q, k1, freq);
    RemoveAtInvariant(q1, k2, freq);
    RemoveAtIndex(q1, k2);
    assert LeafSet(q1[k2].tree) !! LeafSet(q[k1].tree);
    forall i | 0 <= i < |q2|
      ensures LeafSet(q2[i].tree) !! LeafSet(m.tree)
    {
      assert q2[i] == q1[if i < k2 then i else i + 1];
    }
    AppendInvariant(q2, m, freq);
  }

  lemma AppendInvariant(q: seq<Weighted>, m: Weighted, freq: map<Byte, nat>)
    requires QueueInvariant(q, freq)
    requires DistinctLeaves(m.tree) && m.weight == TreeWeight(m.tree, freq)
    requires forall i :: 0 <= i < |q| ==> LeafSet(q[i].tree) !! LeafSet(m.tree)
    ensures QueueInvariant(q + [m], freq)
  {
  }

  /** One leaf per key of `freq` from symbol `b` upward, in ascending symbol order. */
  function LeafQueue(freq: map<Byte, nat>, b: nat): (q: seq<Weighted>)
    requires b <= 256
    ensures forall i :: 0 <= i < |q| ==>
      q[i].tree.Leaf? && b <= q[i].tree.sym && q[i].tree.sym in freq && q[i].weight == freq[q[i].tree.sym]
    ensures forall i, j :: 0 <= i < j < |q| ==> q[i].tree.sym < q[j].tree.sym
    ensures LeafUnion(q) == set c | c in freq && b <= c
    ensures TotalWeight(q) == SumFreq(freq, b)
    decreases 256 - b
  {
    if b == 256 then []
    else if b in freq then [Weighted(freq[b], Leaf(b))] + LeafQueue(freq, b + 1)
    else LeafQueue(freq, b + 1)
  }

  /** A queue of leaves with strictly increasing symbols, each weighing its count,
      satisfies the queue invariant. */
  lemma LeafQueueInvariant(q: seq<Weighted>, freq: map<Byte, nat>)
    requires forall i :: 0 <= i < |q| ==>
      q[i].tree.Leaf? && q[i].tree.sym in freq && q[i].weight == freq[q[i].tree.sym]
    requires forall i, j :: 0 <= i < j < |q| ==> q[i].tree.sym < q[j].tree.sym
    ensures QueueInvariant(q, freq)
  {
    forall i, j | 0 <= i < j < |q|
      ensures LeafSet(q[i].tree) !! LeafSet(q[j].tree)
    {
      assert LeafSet(q[i].tree) == {q[i].tree.sym};
      assert LeafSet(q[j].tree) == {q[j].tree.sym};
    }
  }

  lemma SingleEntry(q: seq<Weighted>)
    requires |q| == 1
    ensures LeafUnion(q) == LeafSet(q[0].tree) && TotalWeight(q) == q[0].weight
  {
    assert q[1..] == [];
  }

  /** The merge loop. The root carries every counted symbol exactly once, and its
      frequency is the sum of all counts. */
  method BuildTree(freq: map<Byte, nat>) returns (root: Tree, weight: nat)
    requires |freq| > 0
    ensures LeafSet(root) == freq.Keys
    ensures DistinctLeaves(root)
    ensures weight == TreeWeight(root, freq) && weight == SumFreq(freq, 0)
  {
    var q := LeafQueue(freq, 0);
    LeafQueueInvariant(q, freq);
    assert LeafUnion(q) == freq.Keys by {
      assert forall c :: c in freq ==> 0 <= c;
    }
    while |q| > 1
      invariant |q| >= 1
      invariant TotalWeight(q) == SumFreq(freq, 0)
      invariant LeafUnion(q) == freq.Keys
      invariant QueueInvariant(q, freq)
      decreases |q|
    {
      var first, second;
      first, second, q := MergeStep(q, freq);
    }
    SingleEntry(q);
    root := q[0].tree;
    weight := q[0].weight;
  }

  /** Frequency counting followed by tree building, as `compress` does before writing
      anything; an empty input stops here. */
  method HuffmanTree(input: seq<Byte>) returns (r: Result<Tree, CodecError>)
    ensures |input| == 0 <==> r.Failure?
    ensures r.Failure? ==> r.error == EmptyInput
    ensures r.Success? ==> LeafSet(r.value) == Symbols(input) && DistinctLeaves(r.value)
    ensures r.Success? ==> TreeWeight(r.value, FrequencyTable(input)) == |input|
    ensures r.Success? ==> (r.value.Node? <==> |Symbols(input)| >= 2)
  {
    var freq := CountFrequencies(input);
    if |freq| == 0 {
      return Failure(EmptyInput);
    }
    assert freq == FrequencyTable(input);
    var root, weight := BuildTree(freq);
    FrequencyTotal(input);
    if root.Node? {
      NodeHasTwoSymbols(root);
    }
    return Success(root);
  }
}
