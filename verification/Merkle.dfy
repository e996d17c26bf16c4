/**
 Merkle roots over hash texts, with the last leaf of an odd level duplicated.
 Proved: the loop computes the level-by-level definition; and as long as SHA3 has
 no collision among the digests that occur, equal roots of equally long leaf lists
 have equal leaves, and equal roots over hashes of texts have the same set of
 leaves whatever their number.
 */
module Merkle {
  import opened Encoding

  /** The decoded bytes of a leaf; the program panics on a leaf that is not hex. */
  function Decoded(leaf: string): Message {
    match HexDecode(leaf)
    case Some(bytes) => bytes
    case None => []
  }

  predicate AllHex(leaves: seq<string>) {
    forall i :: 0 <= i < |leaves| ==> HexDecode(leaves[i]).Some?
  }

  function PairDigest(u: string, v: string): Digest {
    Sha3(Decoded(u) + Decoded(v))
  }

  function PairHash(sha3: ByteView, u: string, v: string): string {
    DigestText(sha3, PairDigest(u, v))
  }

  /** Level with its last leaf duplicated if the number of leaves is odd. */
  function Evened(leaves: seq<string>): (r: seq<string>)
    ensures |r| % 2 == 0 && leaves <= r
  {
    if |leaves| % 2 == 0 then leaves else leaves + [leaves[|leaves| - 1]]
  }

  function NextLevel(sha3: ByteView, leaves: seq<string>): (r: seq<string>)
    ensures |r| == (|leaves| + 1) / 2
  {
    var even := Evened(leaves);
    seq(|even| / 2, i requires 0 <= i < |even| / 2 => PairHash(sha3, even[2 * i], even[2 * i + 1]))
  }

  /** The root, level by level; the empty list has the empty text. */
  function Root(sha3: ByteView, leaves: seq<string>): string
    decreases |leaves|
  {
    if leaves == [] then ""
    else if |leaves| == 1 then leaves[0]
    else Root(sha3, NextLevel(sha3, leaves))
  }

  /** The iterative form: levels halve until one leaf is left. */
  method CalMerkleRoot(sha3: ByteView, hashes: seq<string>) returns (root: string)
    requires |hashes| > 1 ==> AllHex(hashes)
    ensures root == Root(sha3, hashes)
  {
    var leaves := hashes;
    while |leaves| > 1
      invariant Root(sha3, leaves) == Root(sha3, hashes)
      invariant |leaves| > 1 ==> AllHex(leaves)
      decreases |leaves|
    {
      leaves := HashLevel(sha3, leaves);
    }
    if leaves == [] {
      return "";
    }
    return leaves[0];
  }

  /** One level: duplicate an odd last leaf, then decode, concatenate and hash the leaves in chunks of two. */
  method HashLevel(sha3: ByteView, level: seq<string>) returns (nextLevel: seq<string>)
    requires |level| > 1 && AllHex(level)
    ensures nextLevel == NextLevel(sha3, level) && AllHex(nextLevel)
  {
    hide HexDecode, HexEncode;
    var leaves := level;
    if |leaves| % 2 != 0 {
      leaves := leaves + [leaves[|leaves| - 1]];
    }
    nextLevel := [];
    for i := 0 to |leaves| / 2
      invariant |nextLevel| == i && AllHex(nextLevel)
      invariant forall j :: 0 <= j < i ==> nextLevel[j] == PairHash(sha3, leaves[2 * j], leaves[2 * j + 1])
    {
      var combined := HexDecode(leaves[2 * i]).value + HexDecode(leaves[2 * i + 1]).value;
      var hash := HexEncode(sha3(Sha3(combined)));
      DigestTextIsHex(sha3, Sha3(combined));
      nextLevel := nextLevel + [hash];
    }
    assert leaves == Evened(level);
  }

  // ----- the digests behind a root

  /** SHA3 has no collision among the given digests. */
  ghost predicate NoCollision(sha3: ByteView, digests: set<Digest>) {
    forall c, d :: c in digests && d in digests && sha3(c) == sha3(d) ==> c == d
  }

  ghost function LevelDigests(leaves: seq<string>): set<Digest> {
    set i | 0 <= i < |Evened(leaves)| / 2 :: PairDigest(Evened(leaves)[2 * i], Evened(leaves)[2 * i + 1])
  }

  /** Everything that is hashed on the way from the leaves to the root. */
  ghost function TreeDigests(sha3: ByteView, leaves: seq<string>): set<Digest>
    decreases |leaves|
  {
    if |leaves| <= 1 then {} else LevelDigests(leaves) + TreeDigests(sha3, NextLevel(sha3, leaves))
  }

  ghost predicate AllCanonical(leaves: seq<string>) {
    forall i :: 0 <= i < |leaves| ==> CanonicalHash(leaves[i])
  }

  lemma CanonicalDecoded(u: string) returns (b: Bytes32)
    requires CanonicalHash(u)
    ensures u == HexEncode(b) && Decoded(u) == Octets(b)
  {
    b :| CanonicalBytes(b) && u == HexEncode(b);
    HexRoundTrip(b);
  }

  lemma PairDigestInjective(u: string, v: string, u': string, v': string)
    requires CanonicalHash(u) && CanonicalHash(v) && CanonicalHash(u') && CanonicalHash(v')
    requires PairDigest(u, v) == PairDigest(u', v')
    ensures u == u' && v == v'
  {
    var a := CanonicalDecoded(u);
    var b := CanonicalDecoded(v);
    var a' := CanonicalDecoded(u');
    var b' := CanonicalDecoded(v');
    assert |Octets(a)| == |Octets(a')| == 32;
    assert (Octets(a) + Octets(b))[..32] == Octets(a) && (Octets(a') + Octets(b'))[..32] == Octets(a');
    assert (Octets(a) + Octets(b))[32..] == Octets(b) && (Octets(a') + Octets(b'))[32..] == Octets(b');
    OctetsInjective(a, a');
    OctetsInjective(b, b');
  }

  /** Equal texts of two digests without a collision mean equal digests. */
  lemma SameTextSameDigest(sha3: ByteView, digests: set<Digest>, c: Digest, d: Digest)
    requires NoCollision(sha3, digests) && c in digests && d in digests && DigestText(sha3, c) == DigestText(sha3, d)
    ensures c == d
  {
    DigestTextIsHex(sha3, c);
    DigestTextIsHex(sha3, d);
    OctetsInjective(sha3(c), sha3(d));
  }

  lemma LevelEntry(sha3: ByteView, leaves: seq<string>, i: nat)
    requires i < |leaves|
    ensures var even, h := Evened(leaves), i / 2;
            && 2 * h + 1 < |even| && h < |NextLevel(sha3, leaves)|
            && NextLevel(sha3, leaves)[h] == PairHash(sha3, even[2 * h], even[2 * h + 1])
            && PairDigest(even[2 * h], even[2 * h + 1]) in LevelDigests(leaves)
            && leaves[i] == even[i] && (i == 2 * h || i == 2 * h + 1)
  {
    hide PairDigest, DigestText;
    var h := i / 2;
    assert 2 * h <= i < |leaves| <= |Evened(leaves)|;
    assert PairDigest(Evened(leaves)[2 * h], Evened(leaves)[2 * h + 1]) in LevelDigests(leaves);
  }

  lemma EvenedCanonical(leaves: seq<string>)
    requires AllCanonical(leaves)
    ensures AllCanonical(Evened(leaves))
  {
    hide CanonicalHash;
  }

  lemma NextLevelCanonical(sha3: ByteView, leaves: seq<string>)
    ensures AllCanonical(NextLevel(sha3, leaves))
  {
    hide CanonicalHash;
    var even := Evened(leaves);
    forall i | 0 <= i < |NextLevel(sha3, leaves)|
      ensures CanonicalHash(NextLevel(sha3, leaves)[i])
    {
      DigestTextIsHex(sha3, PairDigest(even[2 * i], even[2 * i + 1]));
    }
  }

  lemma NextLevelInjective(sha3: ByteView, digests: set<Digest>, a: seq<string>, b: seq<string>)
    requires NoCollision(sha3, digests) && LevelDigests(a) <= digests && LevelDigests(b) <= digests
    requires AllCanonical(a) && AllCanonical(b) && |a| == |b| && NextLevel(sha3, a) == NextLevel(sha3, b)
    ensures a == b
  {
    hide CanonicalHash, NoCollision, LevelDigests, NextLevel, PairDigest, DigestText;
    EvenedCanonical(a);
    EvenedCanonical(b);
    var x, y := Evened(a), Evened(b);
    forall i | 0 <= i < |a|
      ensures a[i] == b[i]
    {
      var h := i / 2;
      LevelEntry(sha3, a, i);
      LevelEntry(sha3, b, i);
      SameTextSameDigest(sha3, digests, PairDigest(x[2 * h], x[2 * h + 1]), PairDigest(y[2 * h], y[2 * h + 1]));
      PairDigestInjective(x[2 * h], x[2 * h + 1], y[2 * h], y[2 * h + 1]);
    }
  }

  /** Binding for a fixed number of hash texts. */
  lemma {:induction false} RootInjective(sha3: ByteView, digests: set<Digest>, a: seq<string>, b: seq<string>)
    requires NoCollision(sha3, digests) && TreeDigests(sha3, a) <= digests && TreeDigests(sha3, b) <= digests
    requires AllCanonical(a) && AllCanonical(b) && |a| == |b| && Root(sha3, a) == Root(sha3, b)
    ensures a == b
    decreases |a|
  {
    hide NoCollision, LevelDigests, NextLevel, AllCanonical;
    if |a| > 1 {
      NextLevelCanonical(sha3, a);
      NextLevelCanonical(sha3, b);
      RootInjective(sha3, digests, NextLevel(sha3, a), NextLevel(sha3, b));
      NextLevelInjective(sha3, digests, a, b);
    }
  }

  /** Without equal lengths the list is not bound: an odd last leaf may be repeated. */
  lemma RootNotInjectiveAcrossLengths(sha3: ByteView, a: string, b: string, c: string)
    ensures Root(sha3, [a, b, c]) == Root(sha3, [a, b, c, c])
  {
    assert Evened([a, b, c]) == [a, b, c, c] == Evened([a, b, c, c]);
    assert NextLevel(sha3, [a, b, c]) == NextLevel(sha3, [a, b, c, c]);
  }

  // ----- binding of the leaf set

  /** The digest of a non-empty text. */
  predicate OfText(d: Digest) {
    d.input != [] && d.input[0].Glyph?
  }

  /** d sits k levels above digests of texts. */
  ghost predicate RankedDigest(sha3: ByteView, digests: set<Digest>, k: nat, d: Digest)
    decreases k, 0
  {
    if k == 0 then OfText(d)
    else exists u, v :: d == PairDigest(u, v) && HasRank(sha3, digests, k - 1, u) && HasRank(sha3, digests, k - 1, v)
  }

  /** x is the text of one of the given digests, of rank k. */
  ghost predicate HasRank(sha3: ByteView, digests: set<Digest>, k: nat, x: string)
    decreases k, 1
  {
    exists d :: d in digests && x == DigestText(sha3, d) && RankedDigest(sha3, digests, k, d)
  }

  ghost predicate AllRank(sha3: ByteView, digests: set<Digest>, k: nat, xs: seq<string>) {
    forall i :: 0 <= i < |xs| ==> HasRank(sha3, digests, k, xs[i])
  }

  lemma RankedIsCanonical(sha3: ByteView, digests: set<Digest>, k: nat, x: string)
    requires HasRank(sha3, digests, k, x)
    ensures CanonicalHash(x)
  {
    var d :| d in digests && x == DigestText(sha3, d) && RankedDigest(sha3, digests, k, d);
    DigestTextIsHex(sha3, d);
  }

  /** A pair digest hashes octets, so it is no digest of a text. */
  lemma PairIsNotText(u: string, v: string)
    requires CanonicalHash(u)
    ensures !OfText(PairDigest(u, v))
  {
    var a := CanonicalDecoded(u);
    assert (Decoded(u) + Decoded(v))[0] == Octets(a)[0] == Octet(a[0]);
  }

  lemma {:induction false} RankUnique(sha3: ByteView, digests: set<Digest>, j: nat, k: nat, x: string)
    requires NoCollision(sha3, digests) && HasRank(sha3, digests, j, x) && HasRank(sha3, digests, k, x)
    ensures j == k
    decreases j
  {
    hide NoCollision, DigestText, PairDigest, OfText;
    var c :| c in digests && x == DigestText(sha3, c) && RankedDigest(sha3, digests, j, c);
    var d :| d in digests && x == DigestText(sha3, d) && RankedDigest(sha3, digests, k, d);
    SameTextSameDigest(sha3, digests, c, d);
    if j > 0 && k > 0 {
      var u, v := RankedPair(sha3, digests, j, c);
      var s, t := RankedPair(sha3, digests, k, d);
      PairDigestInjective(u, v, s, t);
      RankUnique(sha3, digests, j - 1, k - 1, u);
    } else if j > 0 {
      var u, v := RankedPair(sha3, digests, j, c);
      PairIsNotText(u, v);
    } else if k > 0 {
      var u, v := RankedPair(sha3, digests, k, d);
      PairIsNotText(u, v);
    }
  }

  lemma RankedPair(sha3: ByteView, digests: set<Digest>, k: nat, d: Digest) returns (u: string, v: string)
    requires k > 0 && RankedDigest(sha3, digests, k, d)
    ensures d == PairDigest(u, v) && HasRank(sha3, digests, k - 1, u) && HasRank(sha3, digests, k - 1, v)
    ensures CanonicalHash(u) && CanonicalHash(v)
  {
    hide PairDigest, DigestText, CanonicalHash;
    u, v :| d == PairDigest(u, v) && HasRank(sha3, digests, k - 1, u) && HasRank(sha3, digests, k - 1, v);
    RankedIsCanonical(sha3, digests, k - 1, u);
    RankedIsCanonical(sha3, digests, k - 1, v);
  }

  lemma NextLevelRank(sha3: ByteView, digests: set<Digest>, k: nat, xs: seq<string>)
    requires AllRank(sha3, digests, k, xs) && LevelDigests(xs) <= digests
    ensures AllRank(sha3, digests, k + 1, NextLevel(sha3, xs))
  {
    hide HasRank, PairDigest, DigestText, LevelDigests;
    var even, up := Evened(xs), NextLevel(sha3, xs);
    forall i | 0 <= i < |up|
      ensures HasRank(sha3, digests, k + 1, up[i])
    {
      assert HasRank(sha3, digests, k, even[2 * i]) && HasRank(sha3, digests, k, even[2 * i + 1]);
      LevelEntry(sha3, xs, 2 * i);
      PairHasRank(sha3, digests, k, even[2 * i], even[2 * i + 1]);
    }
  }

  lemma PairHasRank(sha3: ByteView, digests: set<Digest>, k: nat, u: string, v: string)
    requires HasRank(sha3, digests, k, u) && HasRank(sha3, digests, k, v) && PairDigest(u, v) in digests
    ensures HasRank(sha3, digests, k + 1, PairHash(sha3, u, v))
  {
    assert RankedDigest(sha3, digests, k + 1, PairDigest(u, v));
  }

  lemma {:induction false} RootRank(sha3: ByteView, digests: set<Digest>, k: nat, xs: seq<string>) returns (j: nat)
    requires xs != [] && AllRank(sha3, digests, k, xs) && TreeDigests(sha3, xs) <= digests
    ensures HasRank(sha3, digests, j, Root(sha3, xs)) && j >= k && (|xs| > 1 ==> j > k)
    decreases |xs|
  {
    hide HasRank, NextLevel, LevelDigests;
    if |xs| == 1 {
      j := k;
    } else {
      NextLevelRank(sha3, digests, k, xs);
      j := RootRank(sha3, digests, k + 1, NextLevel(sha3, xs));
    }
  }

  /** Every leaf has a parent on the next level. */
  lemma ParentOf(sha3: ByteView, a: seq<string>, x: string) returns (u: string, v: string)
    requires x in a
    ensures PairHash(sha3, u, v) in NextLevel(sha3, a) && PairDigest(u, v) in LevelDigests(a)
    ensures (x == u || x == v) && u in a && v in a
  {
    hide PairDigest, DigestText;
    var i :| 0 <= i < |a| && a[i] == x;
    LevelEntry(sha3, a, i);
    u, v := Evened(a)[2 * (i / 2)], Evened(a)[2 * (i / 2) + 1];
    assert NextLevel(sha3, a)[i / 2] == PairHash(sha3, u, v);
  }

  /** Every node of the next level combines two leaves. */
  lemma ChildrenOf(sha3: ByteView, b: seq<string>, y: string) returns (u: string, v: string)
    requires y in NextLevel(sha3, b)
    ensures y == PairHash(sha3, u, v) && PairDigest(u, v) in LevelDigests(b) && u in b && v in b
  {
    hide PairDigest, DigestText;
    var j :| 0 <= j < |NextLevel(sha3, b)| && NextLevel(sha3, b)[j] == y;
    LevelEntry(sha3, b, 2 * j);
    u, v := Evened(b)[2 * j], Evened(b)[2 * j + 1];
  }

  lemma NextLevelMembers(sha3: ByteView, digests: set<Digest>, a: seq<string>, b: seq<string>, x: string)
    requires NoCollision(sha3, digests) && LevelDigests(a) <= digests && LevelDigests(b) <= digests
    requires AllCanonical(a) && AllCanonical(b) && x in a
    requires forall y :: y in NextLevel(sha3, a) ==> y in NextLevel(sha3, b)
    ensures x in b
  {
    hide NextLevel, LevelDigests, NoCollision, DigestText, CanonicalHash, PairDigest;
    var u, v := ParentOf(sha3, a, x);
    var u', v' := ChildrenOf(sha3, b, PairHash(sha3, u, v));
    SameTextSameDigest(sha3, digests, PairDigest(u, v), PairDigest(u', v'));
    PairDigestInjective(u, v, u', v');
  }

  lemma AllRankCanonical(sha3: ByteView, digests: set<Digest>, k: nat, xs: seq<string>)
    requires AllRank(sha3, digests, k, xs)
    ensures AllCanonical(xs)
  {
    hide HasRank, CanonicalHash;
    forall i | 0 <= i < |xs|
      ensures CanonicalHash(xs[i])
    {
      RankedIsCanonical(sha3, digests, k, xs[i]);
    }
  }

  lemma {:induction false} SameRankSameMembers(sha3: ByteView, digests: set<Digest>, k: nat, a: seq<string>,
                                               b: seq<string>)
    requires NoCollision(sha3, digests) && TreeDigests(sha3, a) <= digests && TreeDigests(sha3, b) <= digests
    requires a != [] && b != [] && AllRank(sha3, digests, k, a) && AllRank(sha3, digests, k, b)
    requires Root(sha3, a) == Root(sha3, b)
    ensures forall x :: x in a <==> x in b
    decreases |a| + |b|
  {
    hide NoCollision, NextLevel, AllRank, LevelDigests, HasRank, AllCanonical;
    RankOfSingleton(sha3, digests, k, a, b);
    AllRankCanonical(sha3, digests, k, a);
    AllRankCanonical(sha3, digests, k, b);
    if |a| > 1 {
      NextLevelRank(sha3, digests, k, a);
      NextLevelRank(sha3, digests, k, b);
      SameRankSameMembers(sha3, digests, k + 1, NextLevel(sha3, a), NextLevel(sha3, b));
      forall x
        ensures x in a <==> x in b
      {
        if x in a { NextLevelMembers(sha3, digests, a, b, x); }
        if x in b { NextLevelMembers(sha3, digests, b, a, x); }
      }
    }
  }

  /** With equal roots, one list is a single leaf exactly when the other is. */
  lemma RankOfSingleton(sha3: ByteView, digests: set<Digest>, k: nat, a: seq<string>, b: seq<string>)
    requires NoCollision(sha3, digests) && TreeDigests(sha3, a) <= digests && TreeDigests(sha3, b) <= digests
    requires a != [] && b != [] && AllRank(sha3, digests, k, a) && AllRank(sha3, digests, k, b)
    requires Root(sha3, a) == Root(sha3, b)
    ensures |a| == 1 <==> |b| == 1
  {
    hide NoCollision, NextLevel, HasRank, LevelDigests;
    var i := RootRank(sha3, digests, k, a);
    var j := RootRank(sha3, digests, k, b);
    RankUnique(sha3, digests, i, j, Root(sha3, a));
    if |a| == 1 {
      RankUnique(sha3, digests, i, k, a[0]);
    }
    if |b| == 1 {
      RankUnique(sha3, digests, j, k, b[0]);
    }
  }

  /** Leaves that are hashes of texts: equal roots bind the set of leaves, however many there are. */
  lemma RootBindsLeafSet(sha3: ByteView, digests: set<Digest>, a: seq<string>, b: seq<string>)
    requires NoCollision(sha3, digests) && TreeDigests(sha3, a) <= digests && TreeDigests(sha3, b) <= digests
    requires AllRank(sha3, digests, 0, a) && AllRank(sha3, digests, 0, b)
    requires Root(sha3, a) == Root(sha3, b)
    ensures forall x :: x in a <==> x in b
  {
    hide NoCollision, AllRank, AllCanonical;
    AllRankCanonical(sha3, digests, 0, a);
    AllRankCanonical(sha3, digests, 0, b);
    RootNotEmpty(sha3, a);
    RootNotEmpty(sha3, b);
    if a != [] {
      SameRankSameMembers(sha3, digests, 0, a, b);
    }
  }

  lemma {:induction false} RootNotEmpty(sha3: ByteView, a: seq<string>)
    requires AllCanonical(a)
    ensures Root(sha3, a) == "" <==> a == []
    decreases |a|
  {
    hide NextLevel, CanonicalHash;
    if |a| == 1 {
      CanonicalNotEmpty(a[0]);
    } else if |a| > 1 {
      NextLevelCanonical(sha3, a);
      RootNotEmpty(sha3, NextLevel(sha3, a));
    }
  }

  lemma CanonicalNotEmpty(h: string)
    requires CanonicalHash(h)
    ensures h != ""
  {}
}
