/** Padding the encoded bits to whole bytes, packing them MSB-first, and the reverse. */
module BitPacking {
  import opened CodeTree

  /** `extraBits`: the number of zero bits that bring `n` bits up to a multiple of 8. */
  function PadCount(n: nat): (e: nat)
    ensures e < 8 && (n + e) % 8 == 0
    ensures e == 0 <==> n % 8 == 0
  {
    (8 - n % 8) % 8
  }

  /** `bits` followed by `PadCount(|bits|)` zero bits. */
  function PadBits(bits: seq<bool>): (padded: seq<bool>)
    ensures |padded| % 8 == 0 && |padded| == |bits| + PadCount(|bits|)
    ensures padded[..|bits|] == bits
    ensures forall i :: |bits| <= i < |padded| ==> !padded[i]
  {
    bits + seq(PadCount(|bits|), _ => false)
  }

  function Pow2(n: nat): (p: nat)
    ensures p >= 1
  {
    if n == 0 then 1 else 2 * Pow2(n - 1)
  }

  /** The unsigned value of `g` read most significant bit first (`bitset<N>(string)`). */
  function BitsValue(g: seq<bool>): (v: nat)
    ensures v < Pow2(|g|)
    ensures |g| > 0 ==> (g[0] <==> v >= Pow2(|g| - 1))
  {
    if |g| == 0 then 0
    else 2 * BitsValue(g[..|g| - 1]) + (if g[|g| - 1] then 1 else 0)
  }

  /** The `w` bits of `v`, most significant first (`bitset<N>(v).to_string()`). */
  function ValueBits(v: nat, w: nat): (g: seq<bool>)
    requires v < Pow2(w)
    ensures |g| == w
    ensures w > 0 ==> (g[0] <==> v >= Pow2(w - 1))
  {
    if w == 0 then [] else ValueBits(v / 2, w - 1) + [v % 2 == 1]
  }

  /** Appending a bit doubles the value and adds the bit. */
  lemma BitsValueSnoc(g: seq<bool>, b: bool)
    ensures BitsValue(g + [b]) == 2 * BitsValue(g) + (if b then 1 else 0)
  {
    assert (g + [b])[..|g|] == g;
  }

  lemma {:induction false} ValueBitsOfBitsValue(g: seq<bool>)
    ensures ValueBits(BitsValue(g), |g|) == g
  {
    if |g| > 0 {
      var init := g[..|g| - 1];
      ValueBitsOfBitsValue(init);
      assert init + [g[|g| - 1]] == g;
    }
  }

  lemma {:induction false} BitsValueOfValueBits(v: nat, w: nat)
    requires v < Pow2(w)
    ensures BitsValue(ValueBits(v, w)) == v
  {
    if w > 0 {
      var g := ValueBits(v, w);
      BitsValueOfValueBits(v / 2, w - 1);
      assert g[..|g| - 1] == ValueBits(v / 2, w - 1);
    }
  }

  /** One output byte from a group of eight bits, the first bit most significant. */
  function ByteOfBits(g: seq<bool>): Byte
    requires |g| == 8
  {
    assert Pow2(8) == 256;
    BitsValue(g)
  }

  /** The eight bits of `b`, most significant first. */
  function BitsOfByte(b: Byte): (g: seq<bool>)
    ensures |g| == 8
  {
    assert Pow2(8) == 256;
    ValueBits(b, 8)
  }

  /** Bytes from consecutive groups of eight bits (the loop at lines 143-147). */
  function Pack(bits: seq<bool>): (bytes: seq<Byte>)
    requires |bits| % 8 == 0
    ensures |bytes| * 8 == |bits|
    decreases |bits|
  {
    if |bits| == 0 then [] else [ByteOfBits(bits[..8])] + Pack(bits[8..])
  }

  /** The bits of every byte, in order (the loop at lines 191-194). */
  function Unpack(bytes: seq<Byte>): (bits: seq<bool>)
    ensures |bits| == 8 * |bytes|
  {
    if |bytes| == 0 then [] else BitsOfByte(bytes[0]) + Unpack(bytes[1..])
  }

  /** Expanding packed bytes restores the byte-aligned bit string. */
  lemma {:induction false} UnpackPack(bits: seq<bool>)
    requires |bits| % 8 == 0
    ensures Unpack(Pack(bits)) == bits
    decreases |bits|
  {
    if |bits| > 0 {
      var p := Pack(bits);
      assert p[0] == ByteOfBits(bits[..8]);
      assert p[1..] == Pack(bits[8..]);
      assert Pow2(8) == 256;
      ValueBitsOfBitsValue(bits[..8]);
      UnpackPack(bits[8..]);
      assert bits == bits[..8] + bits[8..];
    }
  }

  /** Packing expanded bytes restores the bytes. */
  lemma {:induction false} PackUnpack(bytes: seq<Byte>)
    ensures Pack(Unpack(bytes)) == bytes
  {
    if |bytes| > 0 {
      var u := Unpack(bytes);
      assert u[..8] == BitsOfByte(bytes[0]);
      assert u[8..] == Unpack(bytes[1..]);
      assert Pow2(8) == 256;
      BitsValueOfValueBits(bytes[0], 8);
      PackUnpack(bytes[1..]);
      assert bytes == [bytes[0]] + bytes[1..];
    }
  }

  /** Drops the last `extra` bits, but only when the pad byte is 1..8 and that many bits
      exist; any other pad byte leaves the bits as they are. */
  function StripPad(bits: seq<bool>, extra: Byte): seq<bool>
  {
    if 0 < extra <= 8 && |bits| >= extra then bits[..|bits| - extra] else bits
  }

  /** Pad, pack, unpack and strip give back the bits that were encoded. */
  lemma PadRoundTrip(bits: seq<bool>)
    ensures StripPad(Unpack(Pack(PadBits(bits))), PadCount(|bits|)) == bits
  {
    UnpackPack(PadBits(bits));
  }
}
