/**
 The verification cache. Answers are stored under a text key that joins the
 record's fields with '|' and its path with '>'. Proved: over every sequence of
 calls the cached verifier answers like the uncached one, except exactly for
 records whose path entries contain '>' and whose re-split path verifies.
 */
module VerifyCache {
  import opened Sequences
  import opened Encoding
  import opened Ledger
  import opened Evidence

  // ----- the key

  function Join(paths: seq<string>): string {
    if paths == [] then ""
    else if |paths| == 1 then paths[0]
    else Join(paths[..|paths| - 1]) + ">" + paths[|paths| - 1]
  }

  function CacheKey(record: PathRecord, txHash: string, miner: string): string {
    txHash + "|" + (Decimal(record.chainId) + "|" + (Decimal(record.epoch) + "|"
    + (miner + "|" + (record.signature + "|" + Join(record.paths)))))
  }

  /** A separator-free field is determined by the text up to the first separator. */
  lemma FirstField(a: string, x: string, b: string, y: string, c: char)
    requires c !in a && c !in b
    requires a + [c] + x == b + [c] + y
    ensures a == b && x == y
  {
    var s := a + [c] + x;
    assert s[|a|] == c && (b + [c] + y)[|b|] == c;
    assert forall k :: 0 <= k < |a| ==> s[k] == a[k];
    assert forall k :: 0 <= k < |b| ==> (b + [c] + y)[k] == b[k];
    assert |a| == |b|;
    assert s[..|a|] == a && (b + [c] + y)[..|b|] == b;
    assert s[|a| + 1..] == x && (b + [c] + y)[|b| + 1..] == y;
  }

  lemma LastField(x: string, a: string, y: string, b: string, c: char)
    requires c !in a && c !in b
    requires x + [c] + a == y + [c] + b
    ensures a == b && x == y
  {
    var s := x + [c] + a;
    assert s[|x|] == c && (y + [c] + b)[|y|] == c;
    assert forall k :: |x| < k < |s| ==> s[k] == a[k - |x| - 1];
    assert forall k :: |y| < k < |s| ==> (y + [c] + b)[k] == b[k - |y| - 1];
    assert |x| == |y|;
    assert s[..|x|] == x && (y + [c] + b)[..|y|] == y;
    assert s[|x| + 1..] == a && (y + [c] + b)[|y| + 1..] == b;
  }

  predicate FreeOf(paths: seq<string>, c: char) {
    forall i :: 0 <= i < |paths| ==> c !in paths[i]
  }

  lemma {:induction false} JoinCount(paths: seq<string>, c: char)
    requires c != '>'
    ensures Count(Join(paths), c) == 0 <==> FreeOf(paths, c)
  {
    if |paths| == 1 {
      CountMember(paths[0], c);
    } else if |paths| > 1 {
      var n := |paths| - 1;
      JoinCount(paths[..n], c);
      CountConcat(Join(paths[..n]) + ">", paths[n], c);
      CountConcat(Join(paths[..n]), ">", c);
      CountMember(paths[n], c);
      CountMember(">", c);
      assert paths == paths[..n] + [paths[n]];
    }
  }

  /** On non-empty paths without '>' the joined text determines the path. */
  lemma {:induction false} JoinInjective(p: seq<string>, q: seq<string>)
    requires p != [] && q != [] && FreeOf(p, '>') && FreeOf(q, '>')
    requires Join(p) == Join(q)
    ensures p == q
    decreases |p|
  {
    JoinBars(p);
    JoinBars(q);
    var m, n := |p| - 1, |q| - 1;
    if m > 0 && n > 0 {
      LastField(Join(p[..m]), p[m], Join(q[..n]), q[n], '>');
      JoinInjective(p[..m], q[..n]);
      assert p == p[..m] + [p[m]] && q == q[..n] + [q[n]];
    }
  }

  lemma JoinBars(p: seq<string>)
    requires p != [] && FreeOf(p, '>')
    ensures |p| == 1 <==> '>' !in Join(p)
  {
    if |p| > 1 {
      assert Join(p)[|Join(p[..|p| - 1])|] == '>';
    }
  }

  /** Receipts of different transactions, chains, epochs or receivers never share a slot of the table. */
  lemma ReceiptKeyInjective(h: string, c: u64, e: u64, v: string, h': string, c': u64, e': u64, v': string)
    requires CanonicalHash(h) && CanonicalHash(h') && ReceiptKey(h, c, e, v) == ReceiptKey(h', c', e', v')
    ensures h == h' && c == c' && e == e' && v == v'
  {
    hide Decimal;
    var x, x' := Decimal(c) + ":" + (Decimal(e) + ":" + v), Decimal(c') + ":" + (Decimal(e') + ":" + v');
    assert ReceiptKey(h, c, e, v) == h + ":" + x && ReceiptKey(h', c', e', v') == h' + ":" + x';
    NoColonInHash(h);
    NoColonInHash(h');
    FirstField(h, x, h', x', ':');
    FirstField(Decimal(c), Decimal(e) + ":" + v, Decimal(c'), Decimal(e') + ":" + v', ':');
    FirstField(Decimal(e), v, Decimal(e'), v', ':');
    DecimalInjective(c, c');
    DecimalInjective(e, e');
  }

  lemma NoColonInHash(h: string)
    requires CanonicalHash(h)
    ensures ':' !in h
  {
    var bytes: seq<nat> :| CanonicalBytes(bytes) && h == HexEncode(bytes);
    HexHasNoColon(bytes);
  }

  lemma {:induction false} HexHasNoColon(bytes: seq<nat>)
    requires forall i :: 0 <= i < |bytes| ==> bytes[i] < 256
    ensures ':' !in HexEncode(bytes)
  {
    if bytes != [] {
      HexHasNoColon(bytes[1..]);
      assert ':' !in [HexChar(bytes[0] / 16), HexChar(bytes[0] % 16)];
    }
  }

  // ----- re-splitting a joined path

  /** The path a joined text stands for. */
  function Split(s: string): (r: seq<string>)
    ensures r != [] && FreeOf(r, '>')
  {
    if s == "" then [""]
    else
      var n := |s| - 1;
      var rest := Split(s[..n]);
      if s[n] == '>' then rest + [""] else rest[|rest| - 1 := rest[|rest| - 1] + [s[n]]]
  }

  lemma {:induction false} JoinSplit(s: string)
    ensures Join(Split(s)) == s
  {
    if s != "" {
      var n := |s| - 1;
      var rest := Split(s[..n]);
      var k := |rest| - 1;
      JoinSplit(s[..n]);
      assert s == s[..n] + [s[n]];
      if s[n] == '>' {
        assert (rest + [""])[..k + 1] == rest;
        assert Join(rest + [""]) == Join(rest) + ">" + "";
      } else {
        var r := rest[k := rest[k] + [s[n]]];
        assert r[..k] == rest[..k];
        if k > 0 {
          assert Join(r) == Join(rest[..k]) + ">" + (rest[k] + [s[n]]);
          assert Join(rest) == Join(rest[..k]) + ">" + rest[k];
        }
      }
    }
  }

  function Resplit(record: PathRecord): PathRecord {
    record.(paths := Split(Join(record.paths)))
  }

  // ----- well-formed texts

  /** What the wallet guarantees about the texts it produces: addresses and parsable signatures are hexadecimal. */
  ghost predicate CleanTexts(w: World) {
    && (forall a :: a in w.registered ==> '|' !in a && '>' !in a)
    && (forall s :: w.parse(s).Some? ==> '|' !in s)
    && (forall d: Bytes32, s, a :: w.recover(d, s) == Some(a) ==> '>' !in a)
  }

  lemma {:induction false} HexIsClean(bytes: seq<nat>)
    requires forall i :: 0 <= i < |bytes| ==> bytes[i] < 256
    ensures '|' !in HexEncode(bytes)
  {
    if bytes != [] {
      HexIsClean(bytes[1..]);
    }
  }

  lemma DecimalIsClean(n: nat)
    ensures '|' !in Decimal(n)
  {}

  // ----- cached verification

  datatype Outcome = Outcome(valid: bool, cache: map<string, bool>)

  /** `verify_at_epoch_with_cache` */
  function VerifyWithCache(w: World, cache: map<string, bool>, record: PathRecord, tx: Transaction, miner: string,
                           epoch: u64, useCache: bool): Outcome
  {
    match Precheck(w, record, tx, miner, epoch)
    case Some(answer) => Outcome(answer, cache)
    case None =>
      var key := CacheKey(record, tx.hash, miner);
      if useCache && key in cache then Outcome(cache[key], cache)
      else
        match AggregateCheck(w, record, tx.hash, miner)
        case None => Outcome(false, cache)
        case Some(valid) => Outcome(valid, if useCache then cache[key := valid] else cache)
  }

  /**
   Whatever the cache holds, a positive answer is about a verifying transaction, its origin and a
   repetition-free path.
   */
  lemma PositiveAnswer(w: World, cache: map<string, bool>, record: PathRecord, tx: Transaction, miner: string,
                       epoch: u64, useCache: bool)
    requires VerifyWithCache(w, cache, record, tx, miner, epoch, useCache).valid
    ensures TransactionVerifies(w, tx) && record.epoch == epoch
    ensures FullPath(record, miner)[0] == tx.from && NoRepeatedNodes(FullPath(record, miner))
    ensures if record.paths == [] then miner == tx.from else record.signature != ""
  {
    hide TransactionVerifies, AggregateCheck, CacheKey;
  }

  datatype Call = Call(record: PathRecord, tx: Transaction, miner: string, epoch: u64, useCache: bool)

  /** The cache after a sequence of calls from an empty one. */
  function CacheAfter(w: World, calls: seq<Call>): map<string, bool> {
    if calls == [] then map[]
    else
      var c := calls[|calls| - 1];
      VerifyWithCache(w, CacheAfter(w, calls[..|calls| - 1]), c.record, c.tx, c.miner, c.epoch, c.useCache).cache
  }

  /** An entry is the answer to some earlier call that reached the cryptographic check. */
  ghost predicate Explains(w: World, c: Call, key: string, valid: bool) {
    && key == CacheKey(c.record, c.tx.hash, c.miner)
    && Precheck(w, c.record, c.tx, c.miner, c.epoch).None?
    && AggregateCheck(w, c.record, c.tx.hash, c.miner) == Some(valid)
  }

  lemma {:induction false} EntriesExplained(w: World, calls: seq<Call>, key: string) returns (c: Call)
    requires key in CacheAfter(w, calls)
    ensures Explains(w, c, key, CacheAfter(w, calls)[key])
  {
    hide Precheck, AggregateCheck, CacheKey;
    var n := |calls| - 1;
    var before := CacheAfter(w, calls[..n]);
    c := calls[n];
    if !Explains(w, c, key, CacheAfter(w, calls)[key]) {
      assert key in before && CacheAfter(w, calls)[key] == before[key];
      c := EntriesExplained(w, calls[..n], key);
    }
  }

  /** What a successful trip to the cryptographic check says about the texts involved. */
  lemma CheckedTextsClean(w: World, c: Call, key: string, valid: bool)
    requires CleanTexts(w) && Explains(w, c, key, valid)
    ensures c.record.paths != [] && FreeOf(c.record.paths, '>') && FreeOf(c.record.paths, '|')
    ensures '|' !in c.miner && '|' !in c.record.signature && '|' !in c.tx.hash
  {
    var nodes := FullPath(c.record, c.miner);
    forall i | 0 <= i < |nodes|
      ensures '|' !in nodes[i] && '>' !in nodes[i]
    {
      assert nodes[i] in w.registered;
    }
    assert c.miner == nodes[|nodes| - 1];
    assert forall i :: 0 <= i < |c.record.paths| ==> c.record.paths[i] == nodes[i];
    HexIsClean(w.sha3(Sha3(Text(HashedText(w, c.tx)))));
  }

  /** The key determines every field but the path, which it determines up to joining. */
  lemma KeyFields(a: PathRecord, h: string, miner: string, b: PathRecord, h': string, miner': string)
    requires CacheKey(a, h, miner) == CacheKey(b, h', miner')
    requires '|' !in h && '|' !in h' && '|' !in miner && '|' !in a.signature && FreeOf(a.paths, '|')
    ensures h == h' && a.chainId == b.chainId && a.epoch == b.epoch && miner == miner' && a.signature == b.signature
    ensures Join(a.paths) == Join(b.paths)
  {
    DecimalIsClean(a.chainId);
    DecimalIsClean(b.chainId);
    DecimalIsClean(a.epoch);
    DecimalIsClean(b.epoch);
    var s, t := a.signature + "|" + Join(a.paths), b.signature + "|" + Join(b.paths);
    var s1, t1 := miner + "|" + s, miner' + "|" + t;
    var s2, t2 := Decimal(a.epoch) + "|" + s1, Decimal(b.epoch) + "|" + t1;
    var s3, t3 := Decimal(a.chainId) + "|" + s2, Decimal(b.chainId) + "|" + t2;
    assert h + "|" + s3 == h' + "|" + t3;
    FirstField(h, s3, h', t3, '|');
    FirstField(Decimal(a.chainId), s2, Decimal(b.chainId), t2, '|');
    FirstField(Decimal(a.epoch), s1, Decimal(b.epoch), t1, '|');
    DecimalInjective(a.chainId, b.chainId);
    DecimalInjective(a.epoch, b.epoch);
    TwoBars(miner, a.signature, Join(a.paths));
    TwoBars(miner', b.signature, Join(b.paths));
    JoinCount(a.paths, '|');
    CountMember(miner, '|');
    CountMember(a.signature, '|');
    CountMember(miner', '|');
    CountMember(b.signature, '|');
    FirstField(miner, s, miner', t, '|');
    FirstField(a.signature, Join(a.paths), b.signature, Join(b.paths), '|');
  }

  lemma TwoBars(x: string, y: string, z: string)
    ensures Count(x + "|" + (y + "|" + z), '|') == Count(x, '|') + Count(y, '|') + Count(z, '|') + 2
  {
    CountConcat(x + "|", y + "|" + z, '|');
    CountConcat(x, "|", '|');
    CountConcat(y + "|", z, '|');
    CountConcat(y, "|", '|');
    assert Count("|", '|') == 1 by { assert Count("|"[..0], '|') == 0; }
  }

  // ----- exactness

  /** The one case where the cache can answer differently: a path entry hides a '>' and the split path verifies. */
  ghost predicate Ambiguous(w: World, record: PathRecord, tx: Transaction, miner: string, epoch: u64) {
    && Precheck(w, record, tx, miner, epoch).None?
    && !FreeOf(record.paths, '>')
    && VerifyUncached(w, Resplit(record), tx, miner, epoch)
  }

  /** Outside that case, cached and uncached verification agree in every reachable cache. */
  lemma CacheAgrees(w: World, calls: seq<Call>, record: PathRecord, tx: Transaction, miner: string, epoch: u64)
    requires CleanTexts(w)
    requires !Ambiguous(w, record, tx, miner, epoch)
    ensures VerifyWithCache(w, CacheAfter(w, calls), record, tx, miner, epoch, true).valid
         == VerifyUncached(w, record, tx, miner, epoch)
  {
    hide AggregateCheck, CacheKey, TransactionVerifies, CleanTexts, Precheck, Ambiguous;
    var cache, key := CacheAfter(w, calls), CacheKey(record, tx.hash, miner);
    if Precheck(w, record, tx, miner, epoch).None? && key in cache {
      var c := EntriesExplained(w, calls, key);
      HitAgrees(w, c, key, cache[key], record, tx, miner, epoch);
    }
  }

  lemma HitAgrees(w: World, c: Call, key: string, valid: bool, record: PathRecord, tx: Transaction, miner: string,
                  epoch: u64)
    requires CleanTexts(w) && Explains(w, c, key, valid) && key == CacheKey(record, tx.hash, miner)
    requires Precheck(w, record, tx, miner, epoch).None? && !Ambiguous(w, record, tx, miner, epoch)
    ensures valid == (AggregateCheck(w, record, tx.hash, miner) == Some(true))
  {
    CheckedTextsClean(w, c, key, valid);
    PassedPrecheck(w, record, tx, miner, epoch);
    KeyFields(c.record, c.tx.hash, c.miner, record, tx.hash, miner);
    if FreeOf(record.paths, '>') {
      JoinInjective(c.record.paths, record.paths);
      assert c.record == record;
    } else {
      UnregisteredPath(w, record, tx.hash, miner);
      JoinSplit(Join(record.paths));
      JoinInjective(c.record.paths, Split(Join(record.paths)));
      assert c.record == Resplit(record);
      ResplitPrecheck(w, c, record, tx, miner, epoch);
    }
  }

  lemma PassedPrecheck(w: World, record: PathRecord, tx: Transaction, miner: string, epoch: u64)
    requires CleanTexts(w) && Precheck(w, record, tx, miner, epoch).None?
    ensures record.epoch == epoch && record.paths != [] && record.signature != ""
    ensures TransactionVerifies(w, tx) && record.paths[0] == tx.from && '>' !in tx.from && '|' !in tx.hash
    ensures NoRepeatedNodes(FullPath(record, miner)) && |FullPath(record, miner)| >= 2
  {
    HexIsClean(w.sha3(Sha3(Text(HashedText(w, tx)))));
  }

  lemma UnregisteredPath(w: World, record: PathRecord, txHash: string, miner: string)
    requires CleanTexts(w) && !FreeOf(record.paths, '>')
    ensures AggregateCheck(w, record, txHash, miner).None?
  {
    var i :| 0 <= i < |record.paths| && '>' in record.paths[i];
    assert FullPath(record, miner)[i] == record.paths[i];
  }

  /** Re-splitting keeps the origin, so the split record passes the same checks for the same transaction. */
  lemma ResplitPrecheck(w: World, c: Call, record: PathRecord, tx: Transaction, miner: string, epoch: u64)
    requires CleanTexts(w) && Precheck(w, record, tx, miner, epoch).None?
    requires Precheck(w, c.record, c.tx, c.miner, c.epoch).None?
    requires c.record == Resplit(record) && c.miner == miner && c.tx.hash == tx.hash
    ensures Precheck(w, Resplit(record), tx, miner, epoch).None?
  {
    hide TransactionVerifies, Split;
    PassedPrecheck(w, record, tx, miner, epoch);
    PassedPrecheck(w, c.record, c.tx, c.miner, c.epoch);
    SplitFirst(record.paths);
  }

  /** The first path entry survives re-splitting when it has no '>' itself. */
  lemma SplitFirst(paths: seq<string>)
    requires paths != [] && '>' !in paths[0]
    ensures Split(Join(paths))[0] == paths[0]
    decreases |paths|
  {
    SplitPlain(paths[0]);
    if |paths| > 1 {
      var n := |paths| - 1;
      SplitFirst(paths[..n]);
      SplitExtend(Join(paths[..n]), paths[n]);
    }
  }

  lemma {:induction false} SplitPlain(s: string)
    requires '>' !in s
    ensures Split(s) == [s]
  {
    if s != "" {
      var n := |s| - 1;
      SplitPlain(s[..n]);
      assert s == s[..n] + [s[n]];
    }
  }

  lemma {:induction false} SplitExtend(s: string, t: string)
    ensures |Split(s + ">" + t)| >= |Split(s)| + 1
    ensures Split(s + ">" + t)[..|Split(s)|] == Split(s)
    decreases |t|
  {
    var u := s + ">" + t;
    var n := |u| - 1;
    if t == "" {
      assert u[..n] == s;
    } else {
      assert u[..n] == s + ">" + t[..|t| - 1];
      SplitExtend(s, t[..|t| - 1]);
    }
  }

  /**
   Exactness: some sequence of calls makes the cached answer differ from the uncached one
   if and only if the record is ambiguous.
   */
  lemma CacheExact(w: World, record: PathRecord, tx: Transaction, miner: string, epoch: u64)
    requires CleanTexts(w)
    ensures (forall calls :: VerifyWithCache(w, CacheAfter(w, calls), record, tx, miner, epoch, true).valid
                          == VerifyUncached(w, record, tx, miner, epoch))
       <==> !Ambiguous(w, record, tx, miner, epoch)
  {
    if Ambiguous(w, record, tx, miner, epoch) {
      var calls := [Call(Resplit(record), tx, miner, epoch, true)];
      PoisonedEntry(w, record, tx, miner, epoch);
      assert VerifyWithCache(w, CacheAfter(w, calls), record, tx, miner, epoch, true).valid
          != VerifyUncached(w, record, tx, miner, epoch);
    } else {
      forall calls
        ensures VerifyWithCache(w, CacheAfter(w, calls), record, tx, miner, epoch, true).valid
             == VerifyUncached(w, record, tx, miner, epoch)
      {
        CacheAgrees(w, calls, record, tx, miner, epoch);
      }
    }
  }

  lemma PoisonedEntry(w: World, record: PathRecord, tx: Transaction, miner: string, epoch: u64)
    requires CleanTexts(w) && Ambiguous(w, record, tx, miner, epoch)
    ensures var cache := CacheAfter(w, [Call(Resplit(record), tx, miner, epoch, true)]);
            VerifyWithCache(w, cache, record, tx, miner, epoch, true).valid
    ensures !VerifyUncached(w, record, tx, miner, epoch)
  {
    hide TransactionVerifies, Split;
    var split := Resplit(record);
    var calls := [Call(split, tx, miner, epoch, true)];
    PassedPrecheck(w, record, tx, miner, epoch);
    JoinSplit(Join(record.paths));
    assert CacheKey(split, tx.hash, miner) == CacheKey(record, tx.hash, miner);
    UnregisteredPath(w, record, tx.hash, miner);
    SplitHasTwoNodes(record.paths, miner);
    assert Precheck(w, split, tx, miner, epoch).None?;
    assert calls[..0] == [];
    assert CacheAfter(w, calls[..0]) == map[];
  }

  lemma SplitHasTwoNodes(paths: seq<string>, miner: string)
    requires paths != [] && !FreeOf(paths, '>')
    ensures |Split(Join(paths))| >= 2
  {
    JoinSplit(Join(paths));
    if |Split(Join(paths))| == 1 {
      var i :| 0 <= i < |paths| && '>' in paths[i];
      JoinContains(paths, i, '>');
      assert false;
    }
  }

  lemma {:induction false} JoinContains(paths: seq<string>, i: nat, c: char)
    requires i < |paths| && c in paths[i]
    ensures c in Join(paths)
  {
    if |paths| > 1 && i < |paths| - 1 {
      JoinContains(paths[..|paths| - 1], i, c);
    }
  }

  // ----- ambiguous records exist

  /** The path with entries i and i + 1 written as one. */
  function Merged(paths: seq<string>, i: nat): seq<string>
    requires i + 1 < |paths|
  {
    paths[..i] + [paths[i] + ">" + paths[i + 1]] + paths[i + 2..]
  }

  lemma {:induction false} JoinMerged(paths: seq<string>, i: nat)
    requires i + 1 < |paths|
    ensures Join(Merged(paths, i)) == Join(paths)
    decreases |paths|
  {
    var n, m := |paths| - 1, Merged(paths, i);
    assert |m| == n;
    if i + 1 == n {
      assert m[..i] == paths[..i] && m[i] == paths[i] + ">" + paths[n];
      assert paths[..n][..i] == paths[..i];
      if i > 0 {
        assert Join(m) == Join(paths[..i]) + ">" + (paths[i] + ">" + paths[n]);
        assert Join(paths[..n]) == Join(paths[..i]) + ">" + paths[i];
      }
    } else {
      assert m[..n - 1] == Merged(paths[..n], i) && m[n - 1] == paths[n];
      JoinMerged(paths[..n], i);
    }
  }

  lemma MergedEntries(paths: seq<string>, i: nat, k: nat)
    requires i + 1 < |paths| && k < |paths| - 1
    ensures Merged(paths, i)[k]
         == if k < i then paths[k] else if k == i then paths[i] + ">" + paths[i + 1] else paths[k + 1]
  {}

  /** Merging two entries puts the separator into exactly one of them, so the nodes stay distinct. */
  lemma MergedDistinct(record: PathRecord, miner: string, i: nat)
    requires i + 1 < |record.paths| && NoRepeatedNodes(FullPath(record, miner))
    requires FreeOf(record.paths, '>') && '>' !in miner
    ensures NoRepeatedNodes(FullPath(record.(paths := Merged(record.paths, i)), miner))
  {
    var nodes' := FullPath(record.(paths := Merged(record.paths, i)), miner);
    forall j, k | 0 <= j < k < |nodes'|
      ensures nodes'[j] != nodes'[k]
    {
      MergedNode(record, miner, i, j);
      MergedNode(record, miner, i, k);
    }
  }

  /** Where a node of the merged path comes from. */
  function NodeOrigin(record: PathRecord, miner: string, i: nat, k: nat): nat
    requires i + 1 < |record.paths|
  {
    var n := |record.paths|;
    if k <= i || (i + 2 == n && record.paths[n - 1] == miner) then k else k + 1
  }

  lemma MergedNode(record: PathRecord, miner: string, i: nat, k: nat)
    requires i + 1 < |record.paths| && FreeOf(record.paths, '>') && '>' !in miner
    requires k < |FullPath(record.(paths := Merged(record.paths, i)), miner)|
    ensures var node := FullPath(record.(paths := Merged(record.paths, i)), miner)[k];
            var origin := NodeOrigin(record, miner, i, k);
            if k == i then '>' in node
            else '>' !in node && origin < |FullPath(record, miner)| && node == FullPath(record, miner)[origin]
  {
    hide Merged;
    var n := |record.paths|;
    MergedLength(record.paths, i);
    MergedEntries(record.paths, i, n - 2);
    if k < n - 1 {
      MergedEntries(record.paths, i, k);
    }
    assert '>' in record.paths[i] + ">" + record.paths[i + 1] by {
      assert (record.paths[i] + ">" + record.paths[i + 1])[|record.paths[i]|] == '>';
    }
  }

  /**
   Every verifying record with at least three path entries has ambiguous siblings: writing two
   neighbouring entries after the origin as one makes the cached answer depend on the history.
   */
  lemma AmbiguousSibling(w: World, record: PathRecord, tx: Transaction, miner: string, epoch: u64, i: nat)
    requires CleanTexts(w) && VerifyUncached(w, record, tx, miner, epoch)
    requires 1 <= i && i + 1 < |record.paths|
    ensures Ambiguous(w, record.(paths := Merged(record.paths, i)), tx, miner, epoch)
    ensures Resplit(record.(paths := Merged(record.paths, i))) == record
  {
    hide TransactionVerifies, CleanTexts, Split, Merged, AggregateCheck;
    var sibling := record.(paths := Merged(record.paths, i));
    assert Precheck(w, record, tx, miner, epoch).None?;
    CheckedTextsClean(w, Call(record, tx, miner, epoch, false), CacheKey(record, tx.hash, miner), true);
    MinerClean(w, record, tx.hash, miner);
    JoinMerged(record.paths, i);
    JoinSplit(Join(record.paths));
    JoinInjective(record.paths, Split(Join(record.paths)));
    assert Resplit(sibling) == record;
    SiblingPrecheck(w, record, tx, miner, epoch, i);
  }

  lemma SiblingPrecheck(w: World, record: PathRecord, tx: Transaction, miner: string, epoch: u64, i: nat)
    requires Precheck(w, record, tx, miner, epoch).None? && FreeOf(record.paths, '>') && '>' !in miner
    requires 1 <= i && i + 1 < |record.paths|
    ensures var sibling := record.(paths := Merged(record.paths, i));
            Precheck(w, sibling, tx, miner, epoch).None? && !FreeOf(sibling.paths, '>')
  {
    hide TransactionVerifies, Merged;
    MergedDistinct(record, miner, i);
    MergedLength(record.paths, i);
    MergedEntries(record.paths, i, 0);
    MergedNode(record, miner, i, i);
  }

  lemma MergedLength(paths: seq<string>, i: nat)
    requires i + 1 < |paths|
    ensures |Merged(paths, i)| == |paths| - 1
  {}

  lemma MinerClean(w: World, record: PathRecord, txHash: string, miner: string)
    requires CleanTexts(w) && AggregateCheck(w, record, txHash, miner).Some?
    ensures '>' !in miner
  {
    var nodes := FullPath(record, miner);
    assert nodes[|nodes| - 1] == miner && nodes[|nodes| - 1] in w.registered;
  }

  // ----- the cache as the process-wide object

  class PathVerifyCache {
    var entries: map<string, bool>

    constructor ()
      ensures entries == map[]
    {
      entries := map[];
    }

    method VerifyAtEpoch(w: World, record: PathRecord, tx: Transaction, miner: string, epoch: u64, useCache: bool)
      returns (valid: bool)
      modifies this
      ensures Outcome(valid, entries) == VerifyWithCache(w, old(entries), record, tx, miner, epoch, useCache)
      ensures !useCache ==> valid == VerifyUncached(w, record, tx, miner, epoch)
    {
      hide TransactionVerifies, CacheKey;
      if record.epoch != epoch {
        return false;
      }
      if tx.from == miner && record.paths == [] {
        return TransactionVerifies(w, tx);
      }
      if record.paths == [] {
        return false;
      }
      if record.signature == "" {
        return false;
      }
      if !TransactionVerifies(w, tx) {
        return false;
      }
      var fullNodes := FullPath(record, miner);
      if fullNodes[0] != tx.from {
        return false;
      }
      var repeated := HasRepeatedNodes(fullNodes);
      if repeated {
        return false;
      }
      if |fullNodes| == 1 {
        return tx.from == fullNodes[0];
      }
      assert Precheck(w, record, tx, miner, epoch).None?;
      var cacheKey := CacheKey(record, tx.hash, miner);
      if useCache && cacheKey in entries {
        return entries[cacheKey];
      }
      var answer := CheckAggregate(w, record, tx.hash, fullNodes);
      assert answer == AggregateCheck(w, record, tx.hash, miner);
      if answer.None? {
        return false;
      }
      if useCache {
        entries := entries[cacheKey := answer.value];
      }
      return answer.value;
    }
  }

  method CheckAggregate(w: World, record: PathRecord, txHash: string, fullNodes: seq<string>)
    returns (answer: Option<bool>)
    requires |fullNodes| >= 2
    ensures answer == match w.parse(record.signature)
                      case None => None
                      case Some(signature) =>
                        if exists i :: 0 <= i < |fullNodes| && fullNodes[i] !in w.registered then None
                        else Some(signature == ExpectedPairs(HashBytes(w.sha3, txHash), record.chainId, record.epoch,
                                                             fullNodes))
  {
    var parsed := w.parse(record.signature);
    if parsed.None? {
      return None;
    }
    var pairs := CollectPairs(w, txHash, record.chainId, record.epoch, fullNodes);
    if pairs.None? {
      return None;
    }
    return Some(parsed.value == pairs.value);
  }

  ghost predicate AllRegistered(w: World, nodes: seq<string>) {
    forall i :: 0 <= i < |nodes| ==> nodes[i] in w.registered
  }

  /** Two messages and two keys per hop; gives up on the first unregistered key. */
  method CollectPairs(w: World, txHash: string, chainId: u64, epoch: u64, nodes: seq<string>)
    returns (pairs: Option<multiset<Signed>>)
    requires |nodes| >= 2
    ensures pairs.Some? <==> AllRegistered(w, nodes)
    ensures pairs.Some? ==> pairs.value == ExpectedPairs(HashBytes(w.sha3, txHash), chainId, epoch, nodes)
  {
    hide EdgeStatement, AllRegistered, AddHop;
    var sofar: multiset<Signed> := multiset{};
    for idx := 0 to |nodes| - 1
      invariant sofar == ExpectedPairs(HashBytes(w.sha3, txHash), chainId, epoch, nodes[..idx + 1])
      invariant idx > 0 ==> AllRegistered(w, nodes[..idx + 1])
    {
      var prefix := ChainValueForNodes(w.sha3, txHash, chainId, epoch, nodes, idx);
      var message := EdgeStatement(prefix, nodes[idx], nodes[idx + 1]);
      RegisteredSnoc(w, nodes, idx);
      if nodes[idx] !in w.registered || nodes[idx + 1] !in w.registered {
        return None;
      }
      ExpectedPairsSnoc(HashBytes(w.sha3, txHash), chainId, epoch, nodes, idx);
      sofar := AddHop(sofar, nodes[idx], nodes[idx + 1], message);
    }
    assert nodes[..|nodes|] == nodes;
    return Some(sofar);
  }

  lemma RegisteredSnoc(w: World, nodes: seq<string>, i: nat)
    requires i + 1 < |nodes|
    requires i > 0 ==> AllRegistered(w, nodes[..i + 1])
    ensures nodes[i] in w.registered && nodes[i + 1] in w.registered ==> AllRegistered(w, nodes[..i + 2])
    ensures AllRegistered(w, nodes) ==> nodes[i] in w.registered && nodes[i + 1] in w.registered
  {
    if nodes[i] in w.registered && nodes[i + 1] in w.registered {
      assert nodes[..i + 2] == nodes[..i] + [nodes[i], nodes[i + 1]];
      assert forall j :: 0 <= j < i ==> nodes[j] == nodes[..i + 1][j];
    }
  }
}
