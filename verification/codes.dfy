/** Code generation (`buildCode`) and the encoding of an input as one bit string. */
module Codes {
  import opened CodeTree

  /** The code of every leaf below `t`, each prefixed with `prefix`, the path already walked.
      Leaves are visited left before right, and a later leaf overwrites an earlier one with
      the same symbol, as a map assignment does. */
  function CodesFrom(t: Tree, prefix: seq<bool>): (m: map<Byte, seq<bool>>)
    ensures m.Keys == LeafSet(t)
    ensures forall s :: s in m ==> CodeBelow(t, prefix, m[s], s)
  {
    match t
    case Leaf(s) =>
      assert prefix[|prefix|..] == [];
      map[s := prefix]
    case Node(l, r) =>
      var ml := CodesFrom(l, prefix + [false]);
      var mr := CodesFrom(r, prefix + [true]);
      JoinCodes(t, prefix, ml, mr);
      ml + mr
  }

  /** `c` is `prefix` followed by a path from the root of `t` to the leaf `s`. */
  predicate CodeBelow(t: Tree, prefix: seq<bool>, c: seq<bool>, s: Byte)
  {
    |prefix| <= |c| && c[..|prefix|] == prefix && PathTo(t, c[|prefix|..], s)
  }

  lemma JoinCodes(t: Tree, prefix: seq<bool>, ml: map<Byte, seq<bool>>, mr: map<Byte, seq<bool>>)
    requires t.Node?
    requires forall s :: s in ml ==> CodeBelow(t.left, prefix + [false], ml[s], s)
    requires forall s :: s in mr ==> CodeBelow(t.right, prefix + [true], mr[s], s)
    ensures forall s :: s in ml + mr ==> CodeBelow(t, prefix, (ml + mr)[s], s)
  {
    forall s | s in ml + mr
      ensures CodeBelow(t, prefix, (ml + mr)[s], s)
    {
      if s in mr {
        ExtendPath(t, prefix, true, mr[s], s);
      } else {
        ExtendPath(t, prefix, false, ml[s], s);
      }
    }
  }

  /** A code found one level down, below the step `bit`, is a code of the parent. */
  lemma ExtendPath(t: Tree, prefix: seq<bool>, bit: bool, c: seq<bool>, s: Byte)
    requires t.Node?
    requires |prefix| + 1 <= |c| && c[..|prefix| + 1] == prefix + [bit]
    requires PathTo(Child(t, bit), c[|prefix| + 1..], s)
    ensures |prefix| <= |c| && c[..|prefix|] == prefix && PathTo(t, c[|prefix|..], s)
  {
    var q := c[|prefix|..];
    assert c[..|prefix|] == c[..|prefix| + 1][..|prefix|];
    assert q[0] == c[..|prefix| + 1][|prefix|] == bit;
    assert q[1..] == c[|prefix| + 1..];
  }

  /** The code table `buildCode(root, "")` fills in. */
  function CodeTable(t: Tree): (m: map<Byte, seq<bool>>)
    ensures m.Keys == LeafSet(t)
    ensures forall s :: s in m ==> PathTo(t, m[s], s)
  {
    var m := CodesFrom(t, []);
    assert forall s :: s in m ==> CodeBelow(t, [], m[s], s) && m[s][0..] == m[s];
    m
  }

  /** `a` is a prefix of `b`. */
  predicate IsPrefix(a: seq<bool>, b: seq<bool>)
  {
    |a| <= |b| && b[..|a|] == a
  }

  /** No code in the table is a prefix of a different symbol's code, and every code
      is the root-to-leaf path of its own symbol. */
  lemma CodeTablePrefixFree(t: Tree)
    ensures forall s, s' :: s in CodeTable(t) && s' in CodeTable(t) && s != s' ==>
      !IsPrefix(CodeTable(t)[s], CodeTable(t)[s'])
  {
    var m := CodeTable(t);
    forall s, s' | s in m && s' in m && IsPrefix(m[s], m[s'])
      ensures s == s'
    {
      var p := m[s];
      var q := m[s'][|p|..];
      assert m[s'] == p + q;
      PathToPrefixFree(t, p, q, s, s');
    }
  }

  /** Below an internal root every code has at least one bit; a lone leaf gets the empty code. */
  lemma CodeTableNonEmpty(t: Tree)
    ensures t.Node? ==> forall s :: s in CodeTable(t) ==> |CodeTable(t)[s]| > 0
    ensures t.Leaf? ==> CodeTable(t) == map[t.sym := []]
  {
  }

  /** With distinct symbols, the table holds exactly the root-to-leaf paths: `p` is the code
      of `s` if and only if following `p` from the root ends on the leaf labelled `s`. */
  lemma CodeTableIsPaths(t: Tree, s: Byte, p: seq<bool>)
    requires DistinctLeaves(t)
    ensures PathTo(t, p, s) <==> s in CodeTable(t) && CodeTable(t)[s] == p
  {
    if PathTo(t, p, s) {
      PathToInLeafSet(t, p, s);
      PathToUnique(t, p, CodeTable(t)[s], s);
    }
  }

  /** The code of `b`; a symbol missing from the table reads as the empty string, as
      `huffmanCode[ch]` does for a key that was never assigned. */
  function Lookup(table: map<Byte, seq<bool>>, b: Byte): seq<bool>
  {
    if b in table then table[b] else []
  }

  /** The concatenation, in input order, of each input byte's code. */
  function EncodeBits(table: map<Byte, seq<bool>>, input: seq<Byte>): seq<bool>
  {
    if |input| == 0 then [] else Lookup(table, input[0]) + EncodeBits(table, input[1..])
  }
}
