/** The compressed container and the two top-level operations, `compress` and `decompress`:
    [pre-order tree]['\n'][pad count][packed code bits]. */
module Codec {
  import opened Wrappers
  import opened CodecErrors
  import opened CodeTree
  import opened Codes
  import opened TreeFormat
  import opened BitPacking
  import opened Decoding
  import opened Frequency
  import opened TreeBuilder

  /** The newline written after the tree. */
  const Separator: Byte := 10

  /** The header, pad byte and data that `compress` writes for the built tree `t`
      (lines 126-147). */
  function Container(t: Tree, input: seq<Byte>): seq<Byte>
  {
    Frame(t, EncodeBits(CodeTable(t), input))
  }

  /** Tree, separator, pad count, then `bits` padded and packed. */
  function Frame(t: Tree, bits: seq<bool>): seq<Byte>
  {
    Serialize(t) + [Separator, PadCount(|bits|)] + Pack(PadBits(bits))
  }

  /** Reads the tree, skips the separator if it is the next byte, reads the pad byte, and
      expands the remaining bytes to bits without the padding (lines 174-196). */
  function ReadFrame(c: seq<Byte>): Result<(Tree, seq<bool>), CodecError>
  {
    match Parse(c)
    case None => Failure(TruncatedTree)
    case Some((t, rest)) =>
      var body := if |rest| > 0 && rest[0] == Separator then rest[1..] else rest;
      if |body| == 0 then Failure(MissingPadByte)
      else Success((t, StripPad(Unpack(body[1..]), body[0])))
  }

  /** `decompress`: the frame's bits walked down its tree. */
  function Decompress(c: seq<Byte>): Result<seq<Byte>, CodecError>
  {
    match ReadFrame(c)
    case Failure(e) => Failure(e)
    case Success((t, bits)) => DecodeBits(t, bits)
  }

  /** Reading a frame gives back its tree and its unpadded bits. */
  lemma ReadFrameOfFrame(t: Tree, bits: seq<bool>)
    ensures ReadFrame(Frame(t, bits)) == Success((t, bits))
  {
    var tail := [Separator, PadCount(|bits|)] + Pack(PadBits(bits));
    assert Frame(t, bits) == Serialize(t) + tail;
    ParseSerialize(t, tail);
    assert tail[1..][1..] == Pack(PadBits(bits));
    PadRoundTrip(bits);
  }

  /** A container built from a tree with an internal root that carries every input symbol
      decompresses to the input. */
  lemma ContainerRoundTrip(t: Tree, input: seq<Byte>)
    requires t.Node?
    requires forall i :: 0 <= i < |input| ==> input[i] in LeafSet(t)
    ensures Decompress(Container(t, input)) == Success(input)
  {
    var bits := EncodeBits(CodeTable(t), input);
    ReadFrameOfFrame(t, bits);
    DecodeEncoded(t, input, []);
    assert bits + [] == bits;
  }

  /** Cutting a container anywhere before its pad byte makes decompression fail: inside
      the tree it is truncated, after it the pad byte is missing. */
  lemma TruncatedContainerRejected(t: Tree, input: seq<Byte>, k: nat)
    requires k < |Serialize(t)| + 2
    ensures Decompress(Container(t, input)[..k]).Failure?
  {
    var c := Container(t, input);
    var n := |Serialize(t)|;
    if k < n {
      assert c[..k] == Serialize(t)[..k];
      TruncatedTreeRejected(t, k);
    } else {
      var rest := if k == n then [] else [Separator];
      assert c[..k] == Serialize(t) + rest;
      ParseSerialize(t, rest);
    }
  }

  lemma {:induction false} EncodeBitsEmptyCodes(table: map<Byte, seq<bool>>, input: seq<Byte>)
    requires forall i :: 0 <= i < |input| ==> Lookup(table, input[i]) == []
    ensures EncodeBits(table, input) == []
    decreases |input|
  {
    if |input| > 0 {
      EncodeBitsEmptyCodes(table, input[1..]);
    }
  }

  /** A tree of one leaf gives its symbol the empty code, so every run of that one symbol
      decompresses to nothing. */
  lemma SingleSymbolLost(s: Byte, input: seq<Byte>)
    requires |input| > 0
    requires forall i :: 0 <= i < |input| ==> input[i] == s
    ensures Decompress(Container(Leaf(s), input)) == Success([])
    ensures Decompress(Container(Leaf(s), input)) != Success(input)
  {
    EncodeBitsEmptyCodes(CodeTable(Leaf(s)), input);
    ReadFrameOfFrame(Leaf(s), []);
  }

  /** `compress`: an empty input is refused; otherwise the container of the Huffman tree.
      It decompresses to the input when the input has two or more distinct bytes, and to
      nothing when it has only one. */
  method Compress(input: seq<Byte>) returns (r: Result<seq<Byte>, CodecError>)
    ensures |input| == 0 <==> r.Failure?
    ensures r.Failure? ==> r.error == EmptyInput
    ensures r.Success? && |Symbols(input)| >= 2 ==> Decompress(r.value) == Success(input)
    ensures r.Success? && |Symbols(input)| == 1 ==> Decompress(r.value) == Success([])
  {
    var tree := HuffmanTree(input);
    if tree.Failure? {
      return Failure(tree.error);
    }
    var t := tree.value;
    r := Success(Container(t, input));
    if t.Node? {
      ContainerRoundTrip(t, input);
    } else {
      forall i | 0 <= i < |input|
        ensures input[i] == t.sym
      {
        assert input[i] in Symbols(input);
      }
      SingleSymbolLost(t.sym, input);
    }
  }

  /** "aaabb" under the two-leaf tree with 'b', the lighter entry, on the left: codes
      b = 0 and a = 1, bits 11100 and three pad bits, one data byte 11100000. */
  lemma AaabbExample()
    ensures Container(Node(Leaf(98), Leaf(97)), [97, 97, 97, 98, 98])
         == [48, 49, 98, 49, 97, 10, 3, 224]
    ensures Decompress([48, 49, 98, 49, 97, 10, 3, 224]) == Success([97, 97, 97, 98, 98])
  {
    AaabbContainer();
    AaabbRoundTrip(Node(Leaf(98), Leaf(97)), [97, 97, 97, 98, 98]);
  }

  lemma AaabbRoundTrip(t: Tree, input: seq<Byte>)
    requires t == Node(Leaf(98), Leaf(97)) && input == [97, 97, 97, 98, 98]
    ensures Decompress(Container(t, input)) == Success(input)
  {
    assert LeafSet(t) == {97, 98};
    forall i | 0 <= i < |input|
      ensures input[i] in LeafSet(t)
    {
    }
    ContainerRoundTrip(t, input);
  }

  lemma AaabbContainer()
    ensures Container(Node(Leaf(98), Leaf(97)), [97, 97, 97, 98, 98])
         == [48, 49, 98, 49, 97, 10, 3, 224]
  {
    var t := Node(Leaf(98), Leaf(97));
    var bits := [true, true, true, false, false];
    AaabbCodes();
    AaabbEncoded(CodeTable(t));
    AaabbPacked();
    assert Serialize(t) == [48, 49, 98, 49, 97];
    assert Frame(t, bits) == [48, 49, 98, 49, 97] + [10, 3] + [224];
  }

  lemma AaabbEncoded(table: map<Byte, seq<bool>>)
    requires Lookup(table, 97) == [true] && Lookup(table, 98) == [false]
    ensures EncodeBits(table, [97, 97, 97, 98, 98]) == [true, true, true, false, false]
  {
    var e0 := EncodeBits(table, []);
    var e1 := EncodeBits(table, [98]);
    var e2 := EncodeBits(table, [98, 98]);
    var e3 := EncodeBits(table, [97, 98, 98]);
    var e4 := EncodeBits(table, [97, 97, 98, 98]);
    assert e1 == [false] + e0 by { assert [98][1..] == []; }
    assert e2 == [false] + e1 by { assert [98, 98][1..] == [98]; }
    assert e3 == [true] + e2 by { assert [97, 98, 98][1..] == [98, 98]; }
    assert e4 == [true] + e3 by { assert [97, 97, 98, 98][1..] == [97, 98, 98]; }
    assert EncodeBits(table, [97, 97, 97, 98, 98]) == [true] + e4 by {
      assert [97, 97, 97, 98, 98][1..] == [97, 97, 98, 98];
    }
  }

  lemma AaabbCodes()
    ensures Lookup(CodeTable(Node(Leaf(98), Leaf(97))), 97) == [true]
    ensures Lookup(CodeTable(Node(Leaf(98), Leaf(97))), 98) == [false]
  {
    assert CodesFrom(Leaf(98), [false]) == map[98 := [false]];
    assert CodesFrom(Leaf(97), [true]) == map[97 := [true]];
  }

  lemma AaabbPacked()
    ensures PadCount(5) == 3
    ensures Pack(PadBits([true, true, true, false, false])) == [224]
  {
    var padded := [true, true, true, false, false, false, false, false];
    assert PadBits([true, true, true, false, false]) == padded;
    AaabbByte();
    assert padded[..8] == padded;
    assert padded[8..] == [];
    assert Pack(padded) == [ByteOfBits(padded)] + Pack([]);
  }

  lemma AaabbByte()
    ensures BitsValue([true, true, true, false, false, false, false, false]) == 224
  {
    var g3 := [true, true, true];
    BitsValueSnoc([], true);
    BitsValueSnoc([true], true);
    BitsValueSnoc([true, true], true);
    assert BitsValue(g3) == 7 by {
      assert [] + [true] == [true];
      assert [true] + [true] == [true, true];
      assert [true, true] + [true] == g3;
    }
    var g4 := g3 + [false];
    var g5 := g4 + [false];
    var g6 := g5 + [false];
    var g7 := g6 + [false];
    var g8 := g7 + [false];
    BitsValueSnoc(g3, false);
    BitsValueSnoc(g4, false);
    BitsValueSnoc(g5, false);
    BitsValueSnoc(g6, false);
    BitsValueSnoc(g7, false);
    assert g8 == [true, true, true, false, false, false, false, false];
  }
}
