/** The tree walk that turns bits back into symbols (lines 204-213). */
module Decoding {
  import opened Wrappers
  import opened CodecErrors
  import opened CodeTree
  import opened Codes

  /** The symbols emitted when walking `bits` from `cur`: each bit steps to a child, and
      reaching a leaf emits its symbol and returns to `root`. Bits left over part-way
      through a code emit nothing. */
  function Walk(root: Tree, cur: Tree, bits: seq<bool>): (out: seq<Byte>)
    requires root.Node? && cur.Node?
    requires LeafSet(cur) <= LeafSet(root)
    ensures |out| <= |bits|
    ensures forall i :: 0 <= i < |out| ==> out[i] in LeafSet(root)
    decreases |bits|
  {
    if |bits| == 0 then []
    else
      var next := Child(cur, bits[0]);
      if next.Leaf? then [next.sym] + Walk(root, root, bits[1..])
      else Walk(root, next, bits[1..])
  }

  /** The whole walk from the root. A leaf root has no children: the source would step
      to a null child on the first bit, so any bit there is an error. */
  function DecodeBits(root: Tree, bits: seq<bool>): Result<seq<Byte>, CodecError>
  {
    if root.Leaf? then
      if |bits| == 0 then Success([]) else Failure(NullChild)
    else Success(Walk(root, root, bits))
  }

  /** The decode loop as written: one step per bit, `current` reset to the root after
      every emitted symbol. */
  method DecodeLoop(root: Tree, bits: seq<bool>) returns (r: Result<seq<Byte>, CodecError>)
    ensures r == DecodeBits(root, bits)
    ensures r.Success? ==> |r.value| <= |bits|
    ensures r.Success? ==> forall i :: 0 <= i < |r.value| ==> r.value[i] in LeafSet(root)
  {
    if root.Leaf? {
      if |bits| == 0 {
        return Success([]);
      }
      return Failure(NullChild);
    }
    var out: seq<Byte> := [];
    var current := root;
    var i := 0;
    while i < |bits|
      invariant 0 <= i <= |bits|
      invariant current.Node? && LeafSet(current) <= LeafSet(root)
      invariant out + Walk(root, current, bits[i..]) == Walk(root, root, bits)
    {
      assert bits[i..][1..] == bits[i + 1..];
      current := Child(current, bits[i]);
      if current.Leaf? {
        out := out + [current.sym];
        current := root;
      }
      i := i + 1;
    }
    assert Walk(root, current, bits[i..]) == [];
    assert out + [] == out;
    return Success(out);
  }

  /** Walking a complete code from `cur` emits its symbol and returns to the root. */
  lemma {:induction false} WalkCode(root: Tree, cur: Tree, p: seq<bool>, s: Byte, rest: seq<bool>)
    requires root.Node? && cur.Node? && LeafSet(cur) <= LeafSet(root)
    requires PathTo(cur, p, s)
    ensures Walk(root, cur, p + rest) == [s] + Walk(root, root, rest)
    decreases |p|
  {
    var next := Child(cur, p[0]);
    assert (p + rest)[0] == p[0];
    assert (p + rest)[1..] == p[1..] + rest;
    if next.Node? {
      WalkCode(root, next, p[1..], s, rest);
    }
  }

  /** Walking the encoding of `input` and then `tail` emits `input` and then whatever
      `tail` emits, for any table whose codes are root-to-leaf paths of their symbols. */
  lemma {:induction false} WalkEncoded(root: Tree, table: map<Byte, seq<bool>>, input: seq<Byte>, tail: seq<bool>)
    requires root.Node?
    requires forall s :: s in table ==> PathTo(root, table[s], s)
    requires forall i :: 0 <= i < |input| ==> input[i] in table
    ensures Walk(root, root, EncodeBits(table, input) + tail) == input + Walk(root, root, tail)
    decreases |input|
  {
    if |input| == 0 {
      assert EncodeBits(table, input) + tail == tail;
    } else {
      var code := table[input[0]];
      var rest := EncodeBits(table, input[1..]);
      assert EncodeBits(table, input) + tail == code + (rest + tail);
      WalkCode(root, root, code, input[0], rest + tail);
      WalkEncoded(root, table, input[1..], tail);
      assert input == [input[0]] + input[1..];
    }
  }

  /** Bits that stop part-way through a code emit nothing: the walk ignores them. */
  lemma {:induction false} WalkStaysInternal(root: Tree, cur: Tree, p: seq<bool>)
    requires root.Node? && LeafSet(cur) <= LeafSet(root)
    requires StaysInternal(cur, p)
    ensures Walk(root, cur, p) == []
    decreases |p|
  {
    if |p| > 0 {
      WalkStaysInternal(root, Child(cur, p[0]), p[1..]);
    }
  }

  /** Decoding the encoded input recovers it exactly, for a tree whose root is internal and
      that carries every input symbol, even when trailing bits stop part-way through a code. */
  lemma DecodeEncoded(root: Tree, input: seq<Byte>, tail: seq<bool>)
    requires root.Node?
    requires forall i :: 0 <= i < |input| ==> input[i] in LeafSet(root)
    requires StaysInternal(root, tail)
    ensures DecodeBits(root, EncodeBits(CodeTable(root), input) + tail) == Success(input)
  {
    WalkEncoded(root, CodeTable(root), input, tail);
    WalkStaysInternal(root, root, tail);
    assert input + [] == input;
  }
}
