/**
 Byte-level encodings behind hashes and path commitments. A digest is the term
 of what was hashed, so equal digests have equal pre-images; where the program
 turns a digest into bytes or text, an arbitrary function gives its 32 bytes,
 and nothing is assumed about that function here. A message is a sequence of
 octets, characters (standing for their UTF-8 bytes) and digests.
 */
module Encoding {

  datatype Option<+T> = None | Some(value: T)

  type u64 = n: int | 0 <= n < 0x1_0000_0000_0000_0000

  datatype Atom = Octet(value: nat) | Glyph(c: char) | Word(digest: Digest)

  datatype Digest = Sha3(input: seq<Atom>)

  type Message = seq<Atom>

  type Bytes32 = bytes: seq<nat> | CanonicalBytes(bytes) witness seq(32, i => 0)

  /** The bytes of a digest. */
  type ByteView = Digest -> Bytes32

  // ----- text

  function Text(s: string): Message {
    seq(|s|, i requires 0 <= i < |s| => Glyph(s[i]))
  }

  lemma TextInjective(s: string, t: string)
    requires Text(s) == Text(t)
    ensures s == t
  {
    assert |s| == |Text(s)| == |Text(t)| == |t|;
    forall i | 0 <= i < |s|
      ensures s[i] == t[i]
    {
      assert Text(s)[i] == Glyph(s[i]);
      assert Text(t)[i] == Glyph(t[i]);
    }
  }

  // ----- fixed-width big-endian integers (`to_be_bytes`)

  function BigEndian(n: nat, width: nat): Message {
    if width == 0 then [] else BigEndian(n / 256, width - 1) + [Octet(n % 256)]
  }

  function Pow256(width: nat): nat {
    if width == 0 then 1 else 256 * Pow256(width - 1)
  }

  lemma {:induction false} BigEndianLength(n: nat, width: nat)
    ensures |BigEndian(n, width)| == width
  {
    if width > 0 {
      BigEndianLength(n / 256, width - 1);
    }
  }

  lemma {:induction false} BigEndianInjective(m: nat, n: nat, width: nat)
    requires m < Pow256(width) && n < Pow256(width)
    requires BigEndian(m, width) == BigEndian(n, width)
    ensures m == n
  {
    if width > 0 {
      var a, b := BigEndian(m / 256, width - 1), BigEndian(n / 256, width - 1);
      BigEndianLength(m / 256, width - 1);
      BigEndianLength(n / 256, width - 1);
      assert (a + [Octet(m % 256)])[width - 1] == (b + [Octet(n % 256)])[width - 1];
      assert (a + [Octet(m % 256)])[..width - 1] == a && (b + [Octet(n % 256)])[..width - 1] == b;
      BigEndianInjective(m / 256, n / 256, width - 1);
    }
  }

  function U64Bytes(n: u64): Message {
    BigEndian(n, 8)
  }

  lemma U64BytesLength(n: u64)
    ensures |U64Bytes(n)| == 8
  {
    BigEndianLength(n, 8);
  }

  lemma U64BytesInjective(m: u64, n: u64)
    requires U64Bytes(m) == U64Bytes(n)
    ensures m == n
  {
    assert Pow256(4) == 0x1_0000_0000;
    assert Pow256(8) == 0x1_0000_0000_0000_0000;
    BigEndianInjective(m, n, 8);
  }

  // ----- decimal text of an integer

  function DigitChar(d: nat): (c: char)
    requires d < 10
    ensures '0' <= c <= '9' && c as int == d + '0' as int
  {
    (d + '0' as int) as char
  }

  function Decimal(n: nat): (s: string)
    ensures s != "" && forall i :: 0 <= i < |s| ==> '0' <= s[i] <= '9'
  {
    if n < 10 then [DigitChar(n)] else Decimal(n / 10) + [DigitChar(n % 10)]
  }

  lemma {:induction false} DecimalInjective(m: nat, n: nat)
    requires Decimal(m) == Decimal(n)
    ensures m == n
    decreases m
  {
    var s, t := Decimal(m), Decimal(n);
    assert s[|s| - 1] == DigitChar(m % 10) && t[|t| - 1] == DigitChar(n % 10);
    if m >= 10 && n >= 10 {
      assert s[..|s| - 1] == Decimal(m / 10) && t[..|t| - 1] == Decimal(n / 10);
      DecimalInjective(m / 10, n / 10);
    }
  }

  // ----- hexadecimal (`hex::encode`, `hex::decode`)

  function HexDigit(c: char): Option<nat> {
    if '0' <= c <= '9' then Some(c as int - '0' as int)
    else if 'a' <= c <= 'f' then Some(c as int - 'a' as int + 10)
    else if 'A' <= c <= 'F' then Some(c as int - 'A' as int + 10)
    else None
  }

  function HexChar(d: nat): (c: char)
    requires d < 16
    ensures HexDigit(c) == Some(d)
  {
    if d < 10 then (d + '0' as int) as char else (d - 10 + 'a' as int) as char
  }

  /** Fails on an odd length or a character that is no hex digit; both letter cases are accepted. */
  function HexDecode(s: string): Option<Message> {
    if s == "" then Some([])
    else if |s| == 1 then None
    else
      match (HexDigit(s[0]), HexDigit(s[1]), HexDecode(s[2..]))
      case (Some(hi), Some(lo), Some(rest)) => Some([Octet(16 * hi + lo)] + rest)
      case _ => None
  }

  /** Lower case, two digits per octet. */
  function HexEncode(bytes: seq<nat>): string
    requires forall i :: 0 <= i < |bytes| ==> bytes[i] < 256
  {
    if bytes == [] then ""
    else [HexChar(bytes[0] / 16), HexChar(bytes[0] % 16)] + HexEncode(bytes[1..])
  }

  function Octets(bytes: seq<nat>): Message {
    seq(|bytes|, i requires 0 <= i < |bytes| => Octet(bytes[i]))
  }

  lemma {:induction false} HexRoundTrip(bytes: seq<nat>)
    requires forall i :: 0 <= i < |bytes| ==> bytes[i] < 256
    ensures HexDecode(HexEncode(bytes)) == Some(Octets(bytes))
  {
    if bytes != [] {
      HexRoundTrip(bytes[1..]);
      var b, s := bytes[0], HexEncode(bytes);
      assert s[0] == HexChar(b / 16) && s[1] == HexChar(b % 16);
      assert s[2..] == HexEncode(bytes[1..]);
      assert 16 * (b / 16) + b % 16 == b;
      assert Octets(bytes) == [Octet(b)] + Octets(bytes[1..]);
    }
  }

  /** What `Transaction::verify` pins the hash text to: lower-case hex of 32 octets. */
  ghost predicate CanonicalHash(hash: string) {
    exists bytes: seq<nat> :: CanonicalBytes(bytes) && hash == HexEncode(bytes)
  }

  predicate CanonicalBytes(bytes: seq<nat>) {
    |bytes| == 32 && forall i :: 0 <= i < |bytes| ==> bytes[i] < 256
  }

  /** The text of a digest: `encode(Hasher::hash(..))`. */
  function DigestText(sha3: ByteView, d: Digest): string {
    HexEncode(sha3(d))
  }

  lemma DigestTextIsHex(sha3: ByteView, d: Digest)
    ensures HexDecode(DigestText(sha3, d)) == Some(Octets(sha3(d))) && CanonicalHash(DigestText(sha3, d))
  {
    HexRoundTrip(sha3(d));
    assert CanonicalBytes(sha3(d));
  }

  /** The bytes a path commitment takes from the hash text; text that is not hex is hashed instead. */
  function HashBytes(sha3: ByteView, hash: string): Message {
    match HexDecode(hash)
    case Some(bytes) => bytes
    case None => Octets(sha3(Sha3(Text(hash))))
  }

  /** On canonical hash texts the committed bytes determine the text. */
  lemma CanonicalHashBytesInjective(sha3: ByteView, h: string, h': string)
    requires CanonicalHash(h) && CanonicalHash(h')
    requires HashBytes(sha3, h) == HashBytes(sha3, h')
    ensures h == h'
  {
    var b: seq<nat> :| CanonicalBytes(b) && h == HexEncode(b);
    var b': seq<nat> :| CanonicalBytes(b') && h' == HexEncode(b');
    HexRoundTrip(b);
    HexRoundTrip(b');
    OctetsInjective(b, b');
  }

  lemma OctetsInjective(b: seq<nat>, b': seq<nat>)
    requires Octets(b) == Octets(b')
    ensures b == b'
  {
    assert |b| == |Octets(b)| == |Octets(b')| == |b'|;
    forall i | 0 <= i < |b|
      ensures b[i] == b'[i]
    {
      assert Octets(b)[i] == Octet(b[i]) && Octets(b')[i] == Octet(b'[i]);
    }
  }

  // ----- other texts with the same bytes

  /** The same text with the letter at position i in upper case. */
  function UpperAt(h: string, i: nat): string
    requires i < |h| && 'a' <= h[i] <= 'f'
  {
    h[i := (h[i] as int - 'a' as int + 'A' as int) as char]
  }

  lemma {:induction false} HexIgnoresCase(h: string, i: nat)
    requires i < |h| && 'a' <= h[i] <= 'f'
    ensures HexDecode(UpperAt(h, i)) == HexDecode(h)
  {
    var g := UpperAt(h, i);
    if |h| > 1 {
      if i < 2 {
        assert g[2..] == h[2..];
      } else {
        assert g[2..] == UpperAt(h[2..], i - 2);
        HexIgnoresCase(h[2..], i - 2);
      }
    }
  }

  /** First cause: letter case. A hash text with a letter has another text with the same bytes. */
  lemma UpperCaseSibling(sha3: ByteView, h: string, i: nat)
    requires CanonicalHash(h) && i < |h| && 'a' <= h[i] <= 'f'
    ensures UpperAt(h, i) != h && HashBytes(sha3, UpperAt(h, i)) == HashBytes(sha3, h)
  {
    HexIgnoresCase(h, i);
    var b: seq<nat> :| CanonicalBytes(b) && h == HexEncode(b);
    HexRoundTrip(b);
    assert UpperAt(h, i)[i] != h[i];
  }

  /** Second cause: the fallback. Text that is not hex has the bytes of the hash text of its own digest. */
  lemma PreimageSibling(sha3: ByteView, t: string)
    requires HexDecode(t).None?
    ensures DigestText(sha3, Sha3(Text(t))) != t
    ensures HashBytes(sha3, DigestText(sha3, Sha3(Text(t)))) == HashBytes(sha3, t)
  {
    DigestTextIsHex(sha3, Sha3(Text(t)));
  }

  // ----- path commitments

  const TX_PATH_DOMAIN := "TOPOSTAKE_TX_PATH_V1"

  function HashIdentity(identity: string): Digest {
    Sha3(Text(identity))
  }

  lemma HashIdentityInjective(a: string, b: string)
    requires HashIdentity(a) == HashIdentity(b)
    ensures a == b
  {
    TextInjective(a, b);
  }

  function InitialMessage(bytes: Message, chainId: u64, epoch: u64, origin: string): Message {
    Text(TX_PATH_DOMAIN) + U64Bytes(chainId) + bytes + U64Bytes(epoch) + [Word(HashIdentity(origin))]
  }

  /** The chained prefix commitment to the transaction's bytes and a non-empty node sequence. */
  function ChainOf(bytes: Message, chainId: u64, epoch: u64, nodes: seq<string>): Digest
    requires nodes != []
    decreases |nodes|
  {
    if |nodes| == 1 then Sha3(InitialMessage(bytes, chainId, epoch, nodes[0]))
    else
      var n := |nodes| - 1;
      Sha3([Word(ChainOf(bytes, chainId, epoch, nodes[..n])), Word(HashIdentity(nodes[n]))])
  }

  function EdgeStatement(prefix: Digest, from: string, to: string): Message {
    Text(TX_PATH_DOMAIN) + [Word(prefix), Word(HashIdentity(from)), Word(HashIdentity(to))]
  }

  lemma EdgeStatementInjective(p: Digest, from: string, to: string, p': Digest, from': string, to': string)
    requires EdgeStatement(p, from, to) == EdgeStatement(p', from', to')
    ensures p == p' && from == from' && to == to'
  {
    var n := |Text(TX_PATH_DOMAIN)|;
    var a, b := EdgeStatement(p, from, to), EdgeStatement(p', from', to');
    assert a[n] == Word(p) && b[n] == Word(p');
    assert a[n + 1] == Word(HashIdentity(from)) && b[n + 1] == Word(HashIdentity(from'));
    assert a[n + 2] == Word(HashIdentity(to)) && b[n + 2] == Word(HashIdentity(to'));
    HashIdentityInjective(from, from');
    HashIdentityInjective(to, to');
  }

  lemma InitialMessageInjective(x: Message, c: u64, e: u64, o: string, y: Message, c': u64, e': u64, o': string)
    requires InitialMessage(x, c, e, o) == InitialMessage(y, c', e', o')
    ensures x == y && c == c' && e == e' && o == o'
  {
    var d := Text(TX_PATH_DOMAIN);
    U64BytesLength(c);
    U64BytesLength(e);
    U64BytesLength(c');
    U64BytesLength(e');
    var m, m' := InitialMessage(x, c, e, o), InitialMessage(y, c', e', o');
    var k := |d|;
    assert |m| == k + 17 + |x| && |m'| == k + 17 + |y|;
    SplitFields(d, U64Bytes(c), x, U64Bytes(e), Word(HashIdentity(o)));
    SplitFields(d, U64Bytes(c'), y, U64Bytes(e'), Word(HashIdentity(o')));
    U64BytesInjective(c, c');
    U64BytesInjective(e, e');
    HashIdentityInjective(o, o');
  }

  lemma SplitFields(d: Message, c: Message, x: Message, e: Message, o: Atom)
    requires |c| == 8 && |e| == 8
    ensures var m := d + c + x + e + [o];
            && |m| == |d| + 17 + |x|
            && m[|d|..|d| + 8] == c
            && m[|d| + 8..|m| - 9] == x
            && m[|m| - 9..|m| - 1] == e
            && m[|m| - 1] == o
  {
    var m := d + c + x + e + [o];
    assert m[|d|..|d| + 8] == c;
    assert m[|d| + 8..|m| - 9] == x;
    assert m[|m| - 9..|m| - 1] == e;
  }

  /** The commitment binds the chain, the epoch, the transaction bytes and every node of the prefix. */
  lemma {:induction false} ChainInjective(h: Message, c: u64, e: u64, ns: seq<string>, h': Message, c': u64, e': u64,
                                          ns': seq<string>)
    requires ns != [] && ns' != []
    requires ChainOf(h, c, e, ns) == ChainOf(h', c', e', ns')
    ensures h == h' && c == c' && e == e' && ns == ns'
    decreases |ns|
  {
    var m, m' := InitialMessage(h, c, e, ns[0]), InitialMessage(h', c', e', ns'[0]);
    InitialMessageLong(h, c, e, ns[0]);
    InitialMessageLong(h', c', e', ns'[0]);
    if |ns| == 1 && |ns'| == 1 {
      InitialMessageInjective(h, c, e, ns[0], h', c', e', ns'[0]);
    } else {
      assert |ChainOf(h, c, e, ns).input| == |ChainOf(h', c', e', ns').input|;
      assert |ns| > 1 && |ns'| > 1;
      var n, n' := |ns| - 1, |ns'| - 1;
      var a, b := ChainOf(h, c, e, ns).input, ChainOf(h', c', e', ns').input;
      assert a[0] == Word(ChainOf(h, c, e, ns[..n])) && b[0] == Word(ChainOf(h', c', e', ns'[..n']));
      assert a[1] == Word(HashIdentity(ns[n])) && b[1] == Word(HashIdentity(ns'[n']));
      ChainInjective(h, c, e, ns[..n], h', c', e', ns'[..n']);
      HashIdentityInjective(ns[n], ns'[n']);
      assert ns == ns[..n] + [ns[n]] && ns' == ns'[..n'] + [ns'[n']];
    }
  }

  lemma InitialMessageLong(h: Message, c: u64, e: u64, o: string)
    ensures |InitialMessage(h, c, e, o)| > 2
  {
    U64BytesLength(c);
  }

  /** The digest loop: one hash per node, starting from the initial commitment. */
  method ChainValueForNodes(sha3: ByteView, txHash: string, chainId: u64, epoch: u64, nodes: seq<string>, nodeIdx: nat)
    returns (chain: Digest)
    ensures nodes != [] ==>
      chain == ChainOf(HashBytes(sha3, txHash), chainId, epoch,
                       nodes[..(if nodeIdx < |nodes| then nodeIdx else |nodes| - 1) + 1])
    ensures nodes == [] ==>
      chain == Sha3(Text(TX_PATH_DOMAIN) + U64Bytes(chainId) + U64Bytes(epoch) + HashBytes(sha3, txHash))
  {
    var txHashBytes := HashBytes(sha3, txHash);
    if nodes == [] {
      return Sha3(Text(TX_PATH_DOMAIN) + U64Bytes(chainId) + U64Bytes(epoch) + txHashBytes);
    }
    var cappedIdx := if nodeIdx < |nodes| then nodeIdx else |nodes| - 1;
    chain := Sha3(InitialMessage(txHashBytes, chainId, epoch, nodes[0]));
    for i := 1 to cappedIdx + 1
      invariant chain == ChainOf(txHashBytes, chainId, epoch, nodes[..i])
    {
      assert nodes[..i + 1][..i] == nodes[..i];
      chain := Sha3([Word(chain), Word(HashIdentity(nodes[i]))]);
    }
  }
}
