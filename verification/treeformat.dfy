/** The pre-order tree header of the container (`writeTree` / `readTree`). */
module TreeFormat {
  import opened Wrappers
  import opened CodeTree

  /** ASCII '0': an internal node follows as its left then right subtree. */
  const InternalMarker: Byte := 48
  /** ASCII '1': the next byte is a leaf's symbol. */
  const LeafMarker: Byte := 49

  /** Pre-order bytes of `t`: '0' before an internal node's children, '1' and the symbol for a leaf. */
  function Serialize(t: Tree): seq<Byte>
  {
    match t
    case Leaf(s) => [LeafMarker, s]
    case Node(l, r) => [InternalMarker] + Serialize(l) + Serialize(r)
  }

  /** Reads one tree from the front of `s` and returns it with the unread rest, or `None`
      when `s` runs out while a marker or a leaf's symbol is still expected. Any marker
      other than '1' reads as an internal node. */
  function Parse(s: seq<Byte>): (r: Option<(Tree, seq<Byte>)>)
    ensures r.Some? ==> |r.value.1| < |s| && r.value.1 == s[|s| - |r.value.1|..]
    decreases |s|
  {
    if |s| == 0 then None
    else if s[0] == LeafMarker then
      if |s| < 2 then None else Some((Leaf(s[1]), s[2..]))
    else
      match Parse(s[1..])
      case None => None
      case Some((l, rest)) =>
        match Parse(rest)
        case None => None
        case Some((r, rest')) => Some((Node(l, r), rest'))
  }

  /** Parsing a serialised tree followed by anything gives the tree back and leaves
      exactly what followed it unread. */
  lemma {:induction false} ParseSerialize(t: Tree, rest: seq<Byte>)
    ensures Parse(Serialize(t) + rest) == Some((t, rest))
  {
    match t
    case Leaf(s) =>
      assert (Serialize(t) + rest)[2..] == rest;
    case Node(l, r) =>
      var s := Serialize(t) + rest;
      assert s[1..] == Serialize(l) + (Serialize(r) + rest);
      ParseSerialize(l, Serialize(r) + rest);
      ParseSerialize(r, rest);
  }

  /** Bytes appended after a tree the parser already accepted are left unread. */
  lemma {:induction false} ParseExtend(s: seq<Byte>, x: seq<Byte>)
    requires Parse(s).Some?
    ensures Parse(s + x) == Some((Parse(s).value.0, Parse(s).value.1 + x))
    decreases |s|
  {
    if s[0] == LeafMarker {
      assert (s + x)[2..] == s[2..] + x;
    } else {
      assert (s + x)[1..] == s[1..] + x;
      ParseExtend(s[1..], x);
      var rest := Parse(s[1..]).value.1;
      ParseExtend(rest, x);
    }
  }

  /** Every strict prefix of a serialised tree is rejected as truncated. */
  lemma TruncatedTreeRejected(t: Tree, k: nat)
    requires k < |Serialize(t)|
    ensures Parse(Serialize(t)[..k]) == None
  {
    var p := Serialize(t)[..k];
    var x := Serialize(t)[k..];
    assert p + x == Serialize(t) + [];
    ParseSerialize(t, []);
    assert |x| > 0;
    if Parse(p).Some? {
      ParseExtend(p, x);
      assert false;
    }
  }
}
