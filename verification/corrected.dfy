/** The codec with the single-symbol case repaired: a tree that is one leaf gives its
    symbol the one-bit code "0", and decoding under a leaf root emits the symbol once per
    bit. Every other case is unchanged. */
module CorrectedCodec {
  import opened Wrappers
  import opened CodecErrors
  import opened CodeTree
  import opened Codes
  import opened BitPacking
  import opened Decoding
  import opened Frequency
  import opened TreeBuilder
  import opened Codec

  /** The code table with a one-bit code for a lone leaf. */
  function CodeTableFixed(t: Tree): (m: map<Byte, seq<bool>>)
    ensures m.Keys == LeafSet(t)
    ensures forall s :: s in m ==> |m[s]| > 0
  {
    if t.Leaf? then map[t.sym := [false]]
    else
      CodeTableNonEmpty(t);
      CodeTable(t)
  }

  /** The walk, except that a leaf root emits its symbol for each bit. */
  function DecodeBitsFixed(root: Tree, bits: seq<bool>): Result<seq<Byte>, CodecError>
  {
    if root.Leaf? then Success(seq(|bits|, _ => root.sym))
    else Success(Walk(root, root, bits))
  }

  function ContainerFixed(t: Tree, input: seq<Byte>): seq<Byte>
  {
    Frame(t, EncodeBits(CodeTableFixed(t), input))
  }

  function DecompressFixed(c: seq<Byte>): Result<seq<Byte>, CodecError>
  {
    match ReadFrame(c)
    case Failure(e) => Failure(e)
    case Success((t, bits)) => DecodeBitsFixed(t, bits)
  }

  lemma {:induction false} EncodeBitsOneBitCode(s: Byte, input: seq<Byte>)
    requires forall i :: 0 <= i < |input| ==> input[i] == s
    ensures EncodeBits(map[s := [false]], input) == seq(|input|, _ => false)
    decreases |input|
  {
    if |input| > 0 {
      EncodeBitsOneBitCode(s, input[1..]);
    }
  }

  /** Every input whose bytes all appear in the tree decompresses to itself, including a
      run of a single byte value. */
  lemma ContainerFixedRoundTrip(t: Tree, input: seq<Byte>)
    requires forall i :: 0 <= i < |input| ==> input[i] in LeafSet(t)
    ensures DecompressFixed(ContainerFixed(t, input)) == Success(input)
  {
    var bits := EncodeBits(CodeTableFixed(t), input);
    ReadFrameOfFrame(t, bits);
    if t.Node? {
      DecodeEncoded(t, input, []);
      assert bits + [] == bits;
    } else {
      EncodeBitsOneBitCode(t.sym, input);
      assert seq(|bits|, _ => t.sym) == input;
    }
  }

  /** `compress` with the repair: an empty input is refused, and every other input
      decompresses to itself. */
  method CompressFixed(input: seq<Byte>) returns (r: Result<seq<Byte>, CodecError>)
    ensures |input| == 0 <==> r.Failure?
    ensures r.Failure? ==> r.error == EmptyInput
    ensures r.Success? ==> DecompressFixed(r.value) == Success(input)
  {
    var tree := HuffmanTree(input);
    if tree.Failure? {
      return Failure(tree.error);
    }
    var t := tree.value;
    forall i | 0 <= i < |input|
      ensures input[i] in LeafSet(t)
    {
      assert input[i] in Symbols(input);
    }
    ContainerFixedRoundTrip(t, input);
    r := Success(ContainerFixed(t, input));
  }
}
