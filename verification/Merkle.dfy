/**
The Merkle root of `client-core/src/file_chunker.rs`: pair up neighbours, duplicate an odd last
one, repeat until one digest is left.

A hash is symbolic but is data like any other: its 32 octets remember what was hashed, so two
hashes are equal exactly when they hash the same octets.  As in the source nothing tells the
hash of a chunk from the hash of two concatenated digests: a chunk may itself consist of the
64 octets of two digests.
*/
module Merkle {
  import opened Prelude

  /** A plain octet, or one of the 32 octets of the hash of something. */
  datatype Octet = Plain(value: byte) | OfHash(digest: Digest, index: nat)

  type Text = seq<Octet>

  datatype Digest = ZeroDigest | Sha256(preimage: Text)

  function OctetsOf(d: Digest): (octets: Text)
    ensures |octets| == 32
  {
    seq(32, (i: nat) => if d.ZeroDigest? then Plain(0) else OfHash(d, i))
  }

  function Join(left: Digest, right: Digest): (text: Text)
    ensures |text| == 64
  {
    OctetsOf(left) + OctetsOf(right)
  }

  function Node(left: Digest, right: Digest): Digest { Sha256(Join(left, right)) }

  lemma {:induction false} OctetsInjective(d: Digest, e: Digest)
    requires OctetsOf(d) == OctetsOf(e)
    ensures d == e
  {
    assert OctetsOf(d)[0] == if d.ZeroDigest? then Plain(0) else OfHash(d, 0);
    assert OctetsOf(e)[0] == if e.ZeroDigest? then Plain(0) else OfHash(e, 0);
  }

  lemma {:induction false} NodeInjective(l: Digest, r: Digest, l': Digest, r': Digest)
    requires Node(l, r) == Node(l', r')
    ensures l == l' && r == r'
  {
    var text, text' := Join(l, r), Join(l', r');
    assert OctetsOf(l) == text[..32] && OctetsOf(r) == text[32..];
    assert OctetsOf(l') == text'[..32] && OctetsOf(r') == text'[32..];
    OctetsInjective(l, l');
    OctetsInjective(r, r');
  }

  /** One round: neighbours are paired, an odd last digest is paired with itself. */
  function NextLevel(level: seq<Digest>): (next: seq<Digest>)
    ensures |next| == (|level| + 1) / 2
  {
    seq((|level| + 1) / 2, i requires 0 <= i < (|level| + 1) / 2 =>
      Node(level[2 * i], if 2 * i + 1 < |level| then level[2 * i + 1] else level[2 * i]))
  }

  method ComputeMerkleRoot(hashes: seq<Digest>) returns (root: Digest)
    ensures root == MerkleRoot(hashes)
  {
    if |hashes| == 0 {
      return ZeroDigest;
    }
    if |hashes| == 1 {
      return hashes[0];
    }
    var level := hashes;
    while |level| > 1
      invariant |level| > 0
      invariant MerkleRoot(level) == MerkleRoot(hashes)
      decreases |level|
    {
      var nextLevel: seq<Digest> := [];
      var i := 0;
      while i < |level|
        invariant i == 2 * |nextLevel| || (i == |level| && |nextLevel| == (|level| + 1) / 2)
        invariant 0 <= i <= |level|
        invariant nextLevel <= NextLevel(level)
      {
        var second := if i + 1 < |level| then level[i + 1] else level[i];
        nextLevel := nextLevel + [Node(level[i], second)];
        i := if i + 2 <= |level| then i + 2 else |level|;
      }
      assert nextLevel == NextLevel(level);
      RootOfNextLevel(level);
      level := nextLevel;
    }
    root := level[0];
  }

  // ----- The tree the loop computes, top down -----

  function Pow2(h: nat): (p: nat)
    ensures p > 0
  {
    if h == 0 then 1 else 2 * Pow2(h - 1)
  }

  /** ceil(log2 n). */
  function Height(n: nat): nat {
    if n <= 1 then 0 else 1 + Height((n + 1) / 2)
  }

  /** The tree of height `h`.  Leaves that fit in the left half make both halves the same. */
  ghost function Tree(h: nat, leaves: seq<Digest>): Digest
    requires |leaves| > 0
  {
    if h == 0 then leaves[0]
    else if |leaves| <= Pow2(h - 1) then
      var half := Tree(h - 1, leaves);
      Node(half, half)
    else
      Node(Tree(h - 1, leaves[..Pow2(h - 1)]), Tree(h - 1, leaves[Pow2(h - 1)..]))
  }

  ghost function MerkleRoot(hashes: seq<Digest>): Digest {
    if |hashes| == 0 then ZeroDigest
    else Tree(Height(|hashes|), hashes)
  }

  /** The height is the least one whose tree has room for `n` leaves. */
  lemma {:induction false} HeightIsCeilLog2(n: nat)
    ensures n <= Pow2(Height(n))
    ensures n > 1 ==> Pow2(Height(n) - 1) < n
  {
    if n > 1 {
      HeightIsCeilLog2((n + 1) / 2);
    }
  }

  lemma {:induction false} HalfFits(n: nat, half: nat)
    ensures (n + 1) / 2 <= half <==> n <= 2 * half
  {
  }

  /** Parts of even length are paired separately. */
  lemma {:induction false} NextLevelOfParts(level: seq<Digest>, half: nat)
    requires 2 * half <= |level|
    ensures half <= |NextLevel(level)|
    ensures NextLevel(level)[..half] == NextLevel(level[..2 * half])
    ensures NextLevel(level)[half..] == NextLevel(level[2 * half..])
  {
    hide Node;
  }

  lemma {:induction false} TreeOfHalves(h: nat, leaves: seq<Digest>)
    requires |leaves| > 0
    ensures
      var half := Pow2(h);
      Tree(h + 1, leaves) ==
        if |leaves| <= half then Node(Tree(h, leaves), Tree(h, leaves))
        else Node(Tree(h, leaves[..half]), Tree(h, leaves[half..]))
  {
    hide Node;
  }

  lemma {:induction false} FirstOfNextLevel(level: seq<Digest>)
    requires |level| > 0
    ensures Tree(1, level) == Tree(0, NextLevel(level))
  {
    hide Node;
    TreeOfHalves(0, level);
  }

  lemma {:induction false} HeightMonotone(m: nat, n: nat)
    requires m <= n
    ensures Height(m) <= Height(n)
  {
    if n > 1 && m > 1 {
      HeightMonotone((m + 1) / 2, (n + 1) / 2);
    }
  }

  /** A round takes off the lowest layer of the tree. */
  lemma {:induction false} TreeOfNextLevel(h: nat, level: seq<Digest>)
    requires |level| > 0
    ensures Tree(h + 1, level) == Tree(h, NextLevel(level))
  {
    hide Node, Tree, NextLevel;
    if h == 0 {
      FirstOfNextLevel(level);
    } else {
      var half := Pow2(h - 1);
      TreeOfHalves(h, level);
      TreeOfHalves(h - 1, NextLevel(level));
      HalfFits(|level|, half);
      if |level| <= 2 * half {
        TreeOfNextLevel(h - 1, level);
      } else {
        NextLevelOfParts(level, half);
        TreeOfNextLevel(h - 1, level[..2 * half]);
        TreeOfNextLevel(h - 1, level[2 * half..]);
      }
    }
  }

  lemma {:induction false} RootOfNextLevel(level: seq<Digest>)
    requires |level| > 1
    ensures MerkleRoot(NextLevel(level)) == MerkleRoot(level)
  {
    hide Node, Tree;
    HeightIsCeilLog2(|level|);
    TreeOfNextLevel(Height(|level|) - 1, level);
  }

  // ----- The root, octet by octet -----

  function OctetAt(d: Digest, i: nat): Octet { if d.ZeroDigest? then Plain(0) else OfHash(d, i) }

  /** `d` is the hash of the 32 octets of `l` followed by the 32 octets of `r`. */
  ghost predicate HashesBoth(d: Digest, l: Digest, r: Digest) {
    && d.Sha256? && |d.preimage| == 64
    && (forall i: nat :: i < 32 ==> d.preimage[i] == OctetAt(l, i))
    && (forall i: nat :: 32 <= i < 64 ==> d.preimage[i] == OctetAt(r, i - 32))
  }

  lemma {:induction false} NodeHashesBoth(d: Digest, l: Digest, r: Digest)
    ensures HashesBoth(d, l, r) <==> d == Node(l, r)
  {
    var text := Join(l, r);
    forall i: nat | i < 64 ensures text[i] == if i < 32 then OctetAt(l, i) else OctetAt(r, i - 32) {
      assert text[i] == if i < 32 then OctetsOf(l)[i] else OctetsOf(r)[i - 32];
    }
    if HashesBoth(d, l, r) {
      assert d.preimage == text;
    }
  }

  /** The round above `level`: one hash for every two neighbours, first the left one, and for
      an odd last digest the hash of that digest twice. */
  ghost predicate IsRoundAbove(above: seq<Digest>, level: seq<Digest>) {
    && |above| == (|level| + 1) / 2
    && forall k: nat :: k < |above| ==>
      HashesBoth(above[k], level[2 * k], if 2 * k + 1 < |level| then level[2 * k + 1] else level[2 * k])
  }

  /** What the root is: 32 zero octets of nothing, a single digest itself, and of more digests
      the root of the round above them, of which there is exactly one. */
  lemma {:induction false} RootFromRounds(level: seq<Digest>, above: seq<Digest>)
    ensures level == [] ==> MerkleRoot(level) == ZeroDigest
    ensures |level| == 1 ==> MerkleRoot(level) == level[0]
    ensures |level| > 1 && IsRoundAbove(above, level) ==> MerkleRoot(level) == MerkleRoot(above)
    ensures exists next :: IsRoundAbove(next, level)
  {
    var next := NextLevel(level);
    forall k: nat | k < |next|
      ensures HashesBoth(next[k], level[2 * k], if 2 * k + 1 < |level| then level[2 * k + 1] else level[2 * k])
    {
      NodeHashesBoth(next[k], level[2 * k], if 2 * k + 1 < |level| then level[2 * k + 1] else level[2 * k]);
    }
    assert IsRoundAbove(next, level);
    if |level| > 1 && IsRoundAbove(above, level) {
      forall k: nat | k < |above| ensures above[k] == next[k] {
        NodeHashesBoth(above[k], level[2 * k], if 2 * k + 1 < |level| then level[2 * k + 1] else level[2 * k]);
      }
      assert above == next;
      RootOfNextLevel(level);
    }
  }

  /** The root of two digests is the hash of the first one's octets and then the second one's. */
  lemma {:induction false} RootOfTwo(l: Digest, r: Digest)
    requires l.Sha256? && r.Sha256?
    ensures MerkleRoot([l, r]).Sha256? && |MerkleRoot([l, r]).preimage| == 64
    ensures forall i: nat :: i < 32 ==> MerkleRoot([l, r]).preimage[i] == OfHash(l, i)
    ensures forall i: nat :: 32 <= i < 64 ==> MerkleRoot([l, r]).preimage[i] == OfHash(r, i - 32)
  {
    hide HashesBoth, MerkleRoot;
    RootFromRounds([l, r], []);
    var next :| IsRoundAbove(next, [l, r]);
    RootFromRounds([l, r], next);
    RootFromRounds(next, []);
    TwoHashed(next[0], l, r);
  }

  lemma {:induction false} TwoHashed(d: Digest, l: Digest, r: Digest)
    requires HashesBoth(d, l, r) && l.Sha256? && r.Sha256?
    ensures d.Sha256? && |d.preimage| == 64
    ensures forall i: nat :: i < 32 ==> d.preimage[i] == OfHash(l, i)
    ensures forall i: nat :: 32 <= i < 64 ==> d.preimage[i] == OfHash(r, i - 32)
  {
  }

  // ----- What the root determines -----

  lemma {:induction false} TreeInjective(h: nat, xs: seq<Digest>, ys: seq<Digest>)
    requires 1 <= |xs| == |ys| <= Pow2(h)
    requires Tree(h, xs) == Tree(h, ys)
    ensures xs == ys
  {
    if h > 0 {
      if |xs| <= Pow2(h - 1) {
        NodeInjective(Tree(h - 1, xs), Tree(h - 1, xs), Tree(h - 1, ys), Tree(h - 1, ys));
        TreeInjective(h - 1, xs, ys);
      } else {
        var cut := Pow2(h - 1);
        NodeInjective(Tree(h - 1, xs[..cut]), Tree(h - 1, xs[cut..]), Tree(h - 1, ys[..cut]), Tree(h - 1, ys[cut..]));
        TreeInjective(h - 1, xs[..cut], ys[..cut]);
        TreeInjective(h - 1, xs[cut..], ys[cut..]);
        assert xs == xs[..cut] + xs[cut..];
        assert ys == ys[..cut] + ys[cut..];
      }
    }
  }

  /** Among lists of one length, the root determines every hash. */
  lemma {:induction false} MerkleRootInjective(xs: seq<Digest>, ys: seq<Digest>)
    requires |xs| == |ys| && MerkleRoot(xs) == MerkleRoot(ys)
    ensures xs == ys
  {
    if |xs| > 0 {
      HeightIsCeilLog2(|xs|);
      TreeInjective(Height(|xs|), xs, ys);
    }
  }

  /** The root does not determine the length: repeating an odd last hash changes nothing. */
  lemma {:induction false} RootIgnoresRepeatedLast(xs: seq<Digest>)
    requires |xs| > 1 && |xs| % 2 == 1
    ensures MerkleRoot(xs + [xs[|xs| - 1]]) == MerkleRoot(xs)
  {
    var ys := xs + [xs[|xs| - 1]];
    assert NextLevel(ys) == NextLevel(xs);
    RootOfNextLevel(xs);
    RootOfNextLevel(ys);
  }

  /** All bottom positions of the tree, with the repetitions written out. */
  ghost function Fringe<T>(h: nat, leaves: seq<T>): (f: seq<T>)
    requires |leaves| > 0
    ensures |f| == Pow2(h)
  {
    if h == 0 then [leaves[0]]
    else if |leaves| <= Pow2(h - 1) then Fringe(h - 1, leaves) + Fringe(h - 1, leaves)
    else Fringe(h - 1, leaves[..Pow2(h - 1)]) + Fringe(h - 1, leaves[Pow2(h - 1)..])
  }

  ghost function Padded<T>(leaves: seq<T>): (padded: seq<T>)
    requires |leaves| > 0
    ensures |padded| == Pow2(Height(|leaves|))
  {
    Fringe(Height(|leaves|), leaves)
  }

  ghost function Halves(h: nat, xs: seq<Digest>): (halves: (seq<Digest>, seq<Digest>))
    requires 0 < h && 1 <= |xs| <= Pow2(h)
    ensures 1 <= |halves.0| <= Pow2(h - 1) && 1 <= |halves.1| <= Pow2(h - 1)
    ensures Tree(h, xs) == Node(Tree(h - 1, halves.0), Tree(h - 1, halves.1))
    ensures Fringe(h, xs) == Fringe(h - 1, halves.0) + Fringe(h - 1, halves.1)
  {
    if |xs| <= Pow2(h - 1) then (xs, xs) else (xs[..Pow2(h - 1)], xs[Pow2(h - 1)..])
  }

  /** Trees of one height are equal exactly when their bottoms are. */
  lemma {:induction false} TreesEqualIff(h: nat, xs: seq<Digest>, ys: seq<Digest>)
    requires 1 <= |xs| <= Pow2(h) && 1 <= |ys| <= Pow2(h)
    ensures Tree(h, xs) == Tree(h, ys) <==> Fringe(h, xs) == Fringe(h, ys)
  {
    if h > 0 {
      hide Tree, Fringe, Node, Pow2;
      var (xl, xr) := Halves(h, xs);
      var (yl, yr) := Halves(h, ys);
      TreesEqualIff(h - 1, xl, yl);
      TreesEqualIff(h - 1, xr, yr);
      if Tree(h, xs) == Tree(h, ys) {
        NodeInjective(Tree(h - 1, xl), Tree(h - 1, xr), Tree(h - 1, yl), Tree(h - 1, yr));
      }
      SameParts(Fringe(h - 1, xl), Fringe(h - 1, xr), Fringe(h - 1, yl), Fringe(h - 1, yr));
    }
  }

  lemma {:induction false} SameParts(l: seq<Digest>, r: seq<Digest>, l': seq<Digest>, r': seq<Digest>)
    requires |l| == |l'|
    ensures l + r == l' + r' <==> l == l' && r == r'
  {
    assert l == (l + r)[..|l|] && r == (l + r)[|l|..];
    assert l' == (l' + r')[..|l|] && r' == (l' + r')[|l|..];
  }

  lemma {:induction false} FringeOfOne<T>(xs: seq<T>)
    requires |xs| > 0
    ensures Fringe(0, xs) == [xs[0]]
  {
  }

  lemma {:induction false} FringeOfHalves<T>(h: nat, xs: seq<T>)
    requires |xs| > 0 && h > 0
    ensures
      var half := Pow2(h - 1);
      Fringe(h, xs) ==
        if |xs| <= half then Fringe(h - 1, xs) + Fringe(h - 1, xs)
        else Fringe(h - 1, xs[..half]) + Fringe(h - 1, xs[half..])
  {
  }

  lemma {:induction false} PrefixOfParts<T>(a: seq<T>, b: seq<T>, m: nat, n: nat)
    requires m <= |a| && n <= |b|
    ensures (a + b)[..m] == a[..m] && (a + b)[..|a| + n] == a + b[..n]
  {
  }

  lemma {:induction false} FringePrefix<T>(h: nat, xs: seq<T>)
    requires 1 <= |xs| <= Pow2(h)
    ensures Fringe(h, xs)[..|xs|] == xs
  {
    hide Fringe;
    if h == 0 {
      FringeOfOne(xs);
    } else {
      FringeOfHalves(h, xs);
      var half := Pow2(h - 1);
      if |xs| <= half {
        FringePrefix(h - 1, xs);
        PrefixOfParts(Fringe(h - 1, xs), Fringe(h - 1, xs), |xs|, 0);
      } else {
        FringePrefix(h - 1, xs[..half]);
        FringePrefix(h - 1, xs[half..]);
        PrefixOfParts(Fringe(h - 1, xs[..half]), Fringe(h - 1, xs[half..]), half, |xs| - half);
        assert Fringe(h - 1, xs[..half]) == Fringe(h - 1, xs[..half])[..half];
        assert xs == xs[..half] + xs[half..];
      }
    }
  }

  lemma {:induction false} FringeElements<T>(h: nat, xs: seq<T>, x: T)
    requires |xs| > 0 && x in Fringe(h, xs)
    ensures x in xs
  {
    hide Fringe;
    if h == 0 {
      FringeOfOne(xs);
    } else {
      FringeHalf(h, xs, x);
      var half := Pow2(h - 1);
      if |xs| <= half {
        FringeElements(h - 1, xs, x);
      } else if x in Fringe(h - 1, xs[..half]) {
        FringeElements(h - 1, xs[..half], x);
      } else {
        FringeElements(h - 1, xs[half..], x);
      }
    }
  }

  lemma {:induction false} FringeHalf<T>(h: nat, xs: seq<T>, x: T)
    requires |xs| > 0 && h > 0 && x in Fringe(h, xs)
    ensures
      var half := Pow2(h - 1);
      if |xs| <= half then x in Fringe(h - 1, xs)
      else x in Fringe(h - 1, xs[..half]) || x in Fringe(h - 1, xs[half..])
  {
    FringeOfHalves(h, xs);
    hide Fringe;
  }

  /** Writing out the repetitions continues the list with some of its own elements. */
  lemma {:induction false} PaddedPrefix<T>(xs: seq<T>)
    requires |xs| > 0
    ensures |xs| <= |Padded(xs)| && Padded(xs)[..|xs|] == xs
    ensures forall x :: x in Padded(xs) ==> x in xs
  {
    hide Fringe;
    HeightIsCeilLog2(|xs|);
    FringePrefix(Height(|xs|), xs);
    forall x | x in Padded(xs) ensures x in xs {
      FringeElements(Height(|xs|), xs, x);
    }
  }

  // ----- Texts and the layers of their tree -----

  function Hashes(texts: seq<Text>): (hashes: seq<Digest>)
    ensures |hashes| == |texts|
  {
    seq(|texts|, i requires 0 <= i < |texts| => Sha256(texts[i]))
  }

  lemma {:induction false} HashesInjective(xs: seq<Text>, ys: seq<Text>)
    requires Hashes(xs) == Hashes(ys)
    ensures xs == ys
  {
    assert |xs| == |Hashes(xs)| == |ys|;
    forall i | 0 <= i < |xs| ensures xs[i] == ys[i] {
      assert Hashes(xs)[i] == Sha256(xs[i]) && Hashes(ys)[i] == Sha256(ys[i]);
    }
  }

  lemma {:induction false} HashesOfParts(xs: seq<Text>, ys: seq<Text>, all: seq<Text>, cut: nat)
    requires cut <= |all|
    ensures Hashes(xs + ys) == Hashes(xs) + Hashes(ys)
    ensures Hashes(all)[..cut] == Hashes(all[..cut]) && Hashes(all)[cut..] == Hashes(all[cut..])
  {
  }

  lemma {:induction false} FringeOfHashes(h: nat, texts: seq<Text>)
    requires |texts| > 0
    ensures Fringe(h, Hashes(texts)) == Hashes(Fringe(h, texts))
  {
    hide Fringe, Hashes;
    if h == 0 {
      FringeOfOne(texts);
      FringeOfOne(Hashes(texts));
      HashesOfOne(texts);
    } else {
      var half := Pow2(h - 1);
      FringeOfHalves(h, texts);
      FringeOfHalves(h, Hashes(texts));
      if |texts| <= half {
        FringeOfHashes(h - 1, texts);
        HashesOfParts(Fringe(h - 1, texts), Fringe(h - 1, texts), texts, 0);
      } else {
        FringeOfHashes(h - 1, texts[..half]);
        FringeOfHashes(h - 1, texts[half..]);
        HashesOfParts(Fringe(h - 1, texts[..half]), Fringe(h - 1, texts[half..]), texts, half);
      }
    }
  }

  lemma {:induction false} HashesOfOne(texts: seq<Text>)
    requires |texts| > 0
    ensures Hashes([texts[0]]) == [Hashes(texts)[0]]
  {
  }

  /** What a round hashes: neighbouring digests joined, an odd last one with itself. */
  function Pairs(level: seq<Digest>): (pairs: seq<Text>)
    ensures |pairs| == (|level| + 1) / 2
    ensures forall i :: 0 <= i < |pairs| ==> |pairs[i]| == 64
  {
    seq((|level| + 1) / 2, i requires 0 <= i < (|level| + 1) / 2 =>
      Join(level[2 * i], if 2 * i + 1 < |level| then level[2 * i + 1] else level[2 * i]))
  }

  lemma {:induction false} NextLevelHashesPairs(level: seq<Digest>)
    ensures NextLevel(level) == Hashes(Pairs(level))
  {
    hide Join;
  }

  /** What is hashed `d` rounds above the texts. */
  function Layer(texts: seq<Text>, d: nat): (layer: seq<Text>)
    ensures |texts| > 0 ==> |layer| > 0
  {
    if d == 0 then texts else Pairs(Hashes(Layer(texts, d - 1)))
  }

  lemma {:induction false} LayerFacts(texts: seq<Text>, d: nat)
    requires |texts| > 0 && d <= Height(|texts|)
    ensures |Layer(texts, d)| > 0 && Height(|Layer(texts, d)|) == Height(|texts|) - d
    ensures MerkleRoot(Hashes(Layer(texts, d))) == MerkleRoot(Hashes(texts))
    ensures d > 0 ==> forall i :: 0 <= i < |Layer(texts, d)| ==> |Layer(texts, d)[i]| == 64
  {
    hide MerkleRoot, NextLevel, Pairs, Hashes;
    if d > 0 {
      LayerFacts(texts, d - 1);
      var level := Hashes(Layer(texts, d - 1));
      assert |level| > 1;
      NextLevelHashesPairs(level);
      RootOfNextLevel(level);
    }
  }

  /** Two lists of texts hang under the same root: the bottom of the lower tree is, with the
      repetitions, the layer of the other tree at the same height. */
  ghost predicate SameTree(xs: seq<Text>, ys: seq<Text>)
    requires |xs| > 0 && |ys| > 0
  {
    var h, k := Height(|xs|), Height(|ys|);
    if h <= k then Padded(xs) == Padded(Layer(ys, k - h)) else Padded(Layer(xs, h - k)) == Padded(ys)
  }

  lemma {:induction false} SameHeightRoots(xs: seq<Text>, ys: seq<Text>)
    requires |xs| > 0 && |ys| > 0 && Height(|xs|) == Height(|ys|)
    ensures MerkleRoot(Hashes(xs)) == MerkleRoot(Hashes(ys)) <==> Padded(xs) == Padded(ys)
  {
    HeightIsCeilLog2(|xs|);
    HeightIsCeilLog2(|ys|);
    var h := Height(|xs|);
    FringeOfHashes(h, xs);
    FringeOfHashes(h, ys);
    TreesEqualIff(h, Hashes(xs), Hashes(ys));
    if Hashes(Padded(xs)) == Hashes(Padded(ys)) {
      HashesInjective(Padded(xs), Padded(ys));
    }
  }

  /** The exact condition, for any two lists of any texts, of having the same root. */
  lemma {:induction false} RootsAgreeIff(xs: seq<Text>, ys: seq<Text>)
    requires |xs| > 0 && |ys| > 0
    ensures MerkleRoot(Hashes(xs)) == MerkleRoot(Hashes(ys)) <==> SameTree(xs, ys)
  {
    hide MerkleRoot, Height, Padded, Layer;
    var h, k := Height(|xs|), Height(|ys|);
    if h <= k {
      LayerFacts(ys, k - h);
      SameHeightRoots(xs, Layer(ys, k - h));
    } else {
      LayerFacts(xs, h - k);
      SameHeightRoots(Layer(xs, h - k), ys);
    }
  }

  /** Trees of different heights under one root: the lower one stands on texts that are two
      digests each. */
  lemma {:induction false} LowerTreeHasDigests(xs: seq<Text>, ys: seq<Text>)
    requires |xs| > 0 && |ys| > 0 && Height(|xs|) < Height(|ys|) && SameTree(xs, ys)
    ensures forall i :: 0 <= i < |xs| ==> |xs[i]| == 64
  {
    hide Height, Padded, Layer;
    var layer := Layer(ys, Height(|ys|) - Height(|xs|));
    LayerFacts(ys, Height(|ys|) - Height(|xs|));
    PaddedPrefix(xs);
    PaddedPrefix(layer);
    forall i | 0 <= i < |xs| ensures |xs[i]| == 64 {
      assert xs[i] == Padded(xs)[i];
      assert Padded(layer)[i] in layer;
    }
  }

  lemma {:induction false} SameTreeSymmetric(xs: seq<Text>, ys: seq<Text>)
    requires |xs| > 0 && |ys| > 0
    ensures SameTree(xs, ys) <==> SameTree(ys, xs)
  {
    hide Height, Padded;
    assert Layer(xs, 0) == xs && Layer(ys, 0) == ys;
  }

  /** Where neither first text is as long as two digests, roots agree exactly when writing out the
      repetitions makes the two lists the same. */
  lemma {:induction false} RootsAgreeIffPaddingsAgree(xs: seq<Text>, ys: seq<Text>)
    requires |xs| > 0 && |ys| > 0 && |xs[0]| != 64 && |ys[0]| != 64
    ensures MerkleRoot(Hashes(xs)) == MerkleRoot(Hashes(ys)) <==> Padded(xs) == Padded(ys)
  {
    hide MerkleRoot, Height, Padded, Layer;
    RootsAgreeIff(xs, ys);
    SameTreeSymmetric(xs, ys);
    PaddedPrefix(xs);
    PaddedPrefix(ys);
    if Height(|xs|) == Height(|ys|) {
      SameHeightRoots(xs, ys);
    } else if SameTree(xs, ys) {
      if Height(|xs|) < Height(|ys|) {
        LowerTreeHasDigests(xs, ys);
      } else {
        LowerTreeHasDigests(ys, xs);
      }
    } else if Padded(xs) == Padded(ys) {
      Pow2Injective(Height(|xs|), Height(|ys|));
    }
  }

  lemma {:induction false} Pow2Injective(h: nat, k: nat)
    requires Pow2(h) == Pow2(k)
    ensures h == k
  {
    if h > 0 && k > 0 {
      Pow2Injective(h - 1, k - 1);
    }
  }
}
