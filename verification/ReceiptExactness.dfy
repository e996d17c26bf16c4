/**
 The prefix law is exact. The receipt table is keyed by the hash text while
 statements commit to bytes, so the law holds in every run if and only if no two
 hash texts in circulation stand for the transaction's bytes: from two such texts
 a run with two conflicting records is constructed. Every transaction has such a
 second text, the JSON its hash was taken of, and most have another one in a
 different letter case.
 */
module ReceiptExactness {
  import opened Encoding
  import opened Ledger
  import opened Evidence
  import opened PathRoundTrip
  import opened ReceiptRuns

  /**
   Position i of record a and position j of record b, both verified for tx after the run, hold the
   same honest node.
   */
  ghost predicate SharedNode(w: World, honest: set<string>, texts: iset<string>, tx: Transaction, chainId: u64,
                             steps: seq<Step>, epoch: u64, a: PathRecord, minerA: string, i: nat, b: PathRecord,
                             minerB: string, j: nat)
  {
    && UsesTexts(steps, texts)
    && Backed(w, Run(w, honest, steps), a.signature) && Backed(w, Run(w, honest, steps), b.signature)
    && VerifyUncached(w, a, tx, minerA, epoch) && VerifyUncached(w, b, tx, minerB, epoch)
    && a.chainId == b.chainId == chainId
    && i < |FullPath(a, minerA)| && j < |FullPath(b, minerB)|
    && FullPath(a, minerA)[i] == FullPath(b, minerB)[j] && FullPath(a, minerA)[i] in honest
  }

  /** In every run over the given texts, records of tx on the given chain that share an honest node agree up to it. */
  ghost predicate PrefixLaw(w: World, honest: set<string>, texts: iset<string>, tx: Transaction, chainId: u64) {
    forall steps, epoch, a, minerA, i: nat, b, minerB, j: nat ::
      SharedNode(w, honest, texts, tx, chainId, steps, epoch, a, minerA, i, b, minerB, j) ==>
        i == j && FullPath(a, minerA)[..i + 1] == FullPath(b, minerB)[..j + 1]
  }

  // ----- facts about hash texts

  /** An epoch in which, on the given chain, the receipt keys of two different hash texts cannot coincide. */
  function SeparatingEpoch(h: string, h': string, c: u64): u64 {
    var short, long := if |h| < |h'| then h else h', if |h| < |h'| then h' else h;
    var mid := ":" + Decimal(c) + ":";
    if |short| < |long| && (long + mid)[|short| + |mid|] == '0' then 1 else 0
  }

  lemma KeysDiffer(h: string, v: string, h': string, v': string, c: u64)
    requires h != h'
    ensures var e := SeparatingEpoch(h, h', c); ReceiptKey(h, c, e, v) != ReceiptKey(h', c, e, v')
  {
    hide ReceiptKey, Decimal;
    var e, mid := SeparatingEpoch(h, h', c), ":" + Decimal(c) + ":";
    var k, k' := ReceiptKey(h, c, e, v), ReceiptKey(h', c, e, v');
    KeyShape(h, c, e, v);
    KeyShape(h', c, e, v');
    if |h| < |h'| {
      assert k'[|h| + |mid|] == k'[..|h'| + |mid|][|h| + |mid|];
      assert k[|h| + |mid|] != k'[|h| + |mid|];
    } else if |h'| < |h| {
      assert k[|h'| + |mid|] == k[..|h| + |mid|][|h'| + |mid|];
      assert k[|h'| + |mid|] != k'[|h'| + |mid|];
    } else {
      assert (h + mid)[..|h|] == h && (h' + mid)[..|h|] == h';
      assert k[..|h| + |mid|] != k'[..|h| + |mid|];
    }
  }

  /** Text and chain id lead the key, followed by the epoch's digits. */
  lemma KeyShape(h: string, c: u64, e: u64, v: string)
    requires e <= 1
    ensures var k, head := ReceiptKey(h, c, e, v), h + (":" + Decimal(c) + ":");
            |k| > |head| && k[..|head|] == head && k[|head|] == if e == 0 then '0' else '1'
  {
    assert Decimal(e) == [DigitChar(e)];
    assert ReceiptKey(h, c, e, v) == (h + (":" + Decimal(c) + ":")) + [DigitChar(e)] + (":" + v);
  }

  // ----- growing a path inside a run

  /** A finished path inside a run: every signature on it has been made. */
  ghost predicate Live(w: World, s: Net, p: PathState) {
    && WellBuilt(w, p) && !HasPendingHop(p) && CurrentTail(p) in w.registered
    && forall x :: x in ExpectedPairs(TxBytes(w, p), p.chainId, p.epoch, NodeSequence(p)) ==> x in s.signed
  }

  function PathKey(p: PathState, to: string): string {
    ReceiptKey(p.transaction.hash, p.chainId, p.epoch, to)
  }

  /** The path with one more completed hop, and the same path while that hop is still open. */
  lemma GrowHop(w: World, r: Receipts, p: PathState, to: string) returns (open: PathState, q: PathState)
    requires IdealSignatures(w) && WellBuilt(w, p) && !HasPendingHop(p) && CurrentTail(p) in w.registered
    requires to !in NodeSequence(p) && PathKey(p, to) !in r.commitments
    ensures AppendHop(w, p, to, CurrentTail(p)) == Some(open) && HasPendingHop(open)
    ensures open.transaction == p.transaction && |open.hops| == |p.hops| + 1
    ensures NodeSequence(open) == NodeSequence(p) + [to]
    ensures CompleteHop(w, r, open, to).ok && CompleteHop(w, r, open, to).path == q
    ensures CompleteHop(w, r, open, to).receipts.commitments
            == r.commitments[PathKey(p, to) := Sha3(ReceiptOf(w, open).statement)]
    ensures WellBuilt(w, q) && !HasPendingHop(q) && NodeSequence(q) == NodeSequence(p) + [to]
    ensures q.transaction == p.transaction && q.chainId == p.chainId && q.epoch == p.epoch
    ensures open.chainId == p.chainId && open.epoch == p.epoch
    ensures |q.hops| == |p.hops| + 1
  {
    hide EdgeStatement, ReceiptKey;
    open := AppendHop(w, p, to, CurrentTail(p)).value;
    var n := |p.hops|;
    AppendKeepsWellBuilt(w, p, to, CurrentTail(p));
    assert NodeSequence(open) == NodeSequence(p) + [to];
    assert ProperHop(w, open, n);
    var x := multiset{Signed(NodeSequence(open)[n], StatementAt(w, open, n))};
    assert x != multiset{};
    assert w.parse(w.render(x)) == Some(x);
    assert VerifyHop(w, open, n, false);
    q := CompleteHop(w, r, open, to).path;
    CompleteKeepsWellBuilt(w, r, open, to);
    assert NodeSequence(q) == NodeSequence(open);
  }

  /** Two more steps of a run that relay p to a new node. */
  lemma RelayStep(w: World, honest: set<string>, texts: iset<string>, steps: seq<Step>, p: PathState, to: string)
    returns (steps': seq<Step>, q: PathState)
    requires IdealSignatures(w) && UsesTexts(steps, texts) && p.transaction.hash in texts
    requires Live(w, Run(w, honest, steps), p) && to in w.registered
    requires to !in NodeSequence(p) && PathKey(p, to) !in Run(w, honest, steps).receipts.commitments
    ensures UsesTexts(steps', texts) && Live(w, Run(w, honest, steps'), q)
    ensures NodeSequence(q) == NodeSequence(p) + [to] && |q.hops| == |p.hops| + 1
    ensures q.transaction == p.transaction && q.chainId == p.chainId && q.epoch == p.epoch
    ensures Run(w, honest, steps).signed <= Run(w, honest, steps').signed
    ensures Run(w, honest, steps').receipts.commitments.Keys
            == Run(w, honest, steps).receipts.commitments.Keys + {PathKey(p, to)}
  {
    hide *;
    var s := Run(w, honest, steps);
    var open;
    open, q := GrowHopLive(w, s, p, to);
    var mid := steps + [Append(p, to, CurrentTail(p))];
    steps' := mid + [Complete(open, to)];
    RunSnoc(w, honest, steps, Append(p, to, CurrentTail(p)));
    RunSnoc(w, honest, mid, Complete(open, to));
    TextsGrow(steps, p, open, to, texts);
    TwoSteps(w, honest, s, p, open, q, to);
  }

  lemma GrowHopLive(w: World, s: Net, p: PathState, to: string) returns (open: PathState, q: PathState)
    requires IdealSignatures(w) && Live(w, s, p)
    requires to !in NodeSequence(p) && PathKey(p, to) !in s.receipts.commitments
    ensures Relays(w, s.receipts, p, open, q, to)
    ensures open.transaction == p.transaction && NodeSequence(q) == NodeSequence(p) + [to] && |q.hops| == |p.hops| + 1
    ensures q.transaction == p.transaction && q.chainId == p.chainId && q.epoch == p.epoch
  {
    hide AppendHop, CompleteHop, WellBuilt, EdgeStatement, StatementAt;
    open, q := GrowHop(w, s.receipts, p, to);
    OpenStatement(w, p, open, q, to);
  }

  /** The effect of relaying p to a new node, as far as a run can see it. */
  ghost predicate Relays(w: World, r: Receipts, p: PathState, open: PathState, q: PathState, to: string) {
    && AppendHop(w, p, to, CurrentTail(p)) == Some(open) && HasPendingHop(open)
    && CompleteHop(w, r, open, to).ok && CompleteHop(w, r, open, to).path == q
    && CompleteHop(w, r, open, to).receipts.commitments.Keys == r.commitments.Keys + {PathKey(p, to)}
    && WellBuilt(w, q) && !HasPendingHop(q) && CurrentTail(q) == to
    && var st := ReceiptOf(w, open).statement;
    && st == EdgeStatement(ChainAt(w, p, |p.hops|), CurrentTail(p), to)
    && ExpectedPairs(TxBytes(w, q), q.chainId, q.epoch, NodeSequence(q))
       == ExpectedPairs(TxBytes(w, p), p.chainId, p.epoch, NodeSequence(p))
          + multiset{Signed(CurrentTail(p), st)} + multiset{Signed(to, st)}
  }

  lemma TwoSteps(w: World, honest: set<string>, s: Net, p: PathState, open: PathState, q: PathState, to: string)
    requires Live(w, s, p) && to in w.registered && Relays(w, s.receipts, p, open, q, to)
    ensures var s' := Next(w, honest, Next(w, honest, s, Append(p, to, CurrentTail(p))), Complete(open, to));
            && Live(w, s', q) && s.signed <= s'.signed
            && s'.receipts.commitments.Keys == s.receipts.commitments.Keys + {PathKey(p, to)}
  {
    hide AppendHop, CompleteHop, WellBuilt, EdgeStatement, StatementAt, NodeSequence, PathKey, ReceiptOf, ChainAt;
    var st := ReceiptOf(w, open).statement;
    var mid := Next(w, honest, s, Append(p, to, CurrentTail(p)));
    assert mid == s.(signed := s.signed + {Signed(CurrentTail(p), st)});
    var s' := Next(w, honest, mid, Complete(open, to));
    assert s'.signed == mid.signed + {Signed(to, st)};
  }

  lemma TextsGrow(steps: seq<Step>, p: PathState, open: PathState, to: string, texts: iset<string>)
    requires UsesTexts(steps, texts) && p.transaction.hash in texts && open.transaction == p.transaction
    ensures UsesTexts(steps + [Append(p, to, CurrentTail(p))] + [Complete(open, to)], texts)
  {
    hide CurrentTail;
  }

  lemma RunSnoc(w: World, honest: set<string>, steps: seq<Step>, step: Step)
    ensures Run(w, honest, steps + [step]) == Next(w, honest, Run(w, honest, steps), step)
  {
    assert (steps + [step])[..|steps|] == steps;
  }

  /** The open hop's statement is what the finished path adds to the expected pairs. */
  lemma OpenStatement(w: World, p: PathState, open: PathState, q: PathState, to: string)
    requires |open.hops| == |q.hops| == |p.hops| + 1
    requires NodeSequence(open) == NodeSequence(p) + [to] == NodeSequence(q)
    requires open.transaction == p.transaction == q.transaction
    requires open.chainId == p.chainId == q.chainId && open.epoch == p.epoch == q.epoch
    ensures var st := StatementAt(w, open, |p.hops|);
            && st == EdgeStatement(ChainAt(w, p, |p.hops|), CurrentTail(p), to)
            && ExpectedPairs(TxBytes(w, q), q.chainId, q.epoch, NodeSequence(q))
               == ExpectedPairs(TxBytes(w, p), p.chainId, p.epoch, NodeSequence(p))
                  + multiset{Signed(CurrentTail(p), st)} + multiset{Signed(to, st)}
  {
    hide EdgeStatement;
    var ns, n := NodeSequence(q), |p.hops|;
    assert NodeSequence(open)[..n + 1] == NodeSequence(p) && NodeSequence(p)[..n + 1] == NodeSequence(p);
    assert ns[..n + 1] == NodeSequence(p);
  }

  /** The record of a finished path verifies for every transaction whose hash stands for the same bytes. */
  lemma LivePathVerifies(w: World, s: Net, p: PathState, tx: Transaction)
    requires IdealSignatures(w) && Live(w, s, p) && p.hops != []
    requires TransactionVerifies(w, tx) && p.transaction.from == tx.from && TxBytes(w, p) == HashBytes(w.sha3, tx.hash)
    ensures var record := FromTransactionPaths(w, p);
            && VerifyUncached(w, record, tx, CurrentTail(p), p.epoch)
            && FullPath(record, CurrentTail(p)) == NodeSequence(p)
            && record.chainId == p.chainId && Backed(w, s, record.signature)
  {
    hide TransactionVerifies, VerifyHop;
    forall k | 0 <= k < |p.hops|
      ensures p.hops[k].receiverSignature.Some? && VerifyHop(w, p, k, true)
    {
      BuiltHopVerifies(w, p, k);
    }
    BuiltRecord(w, p);
    var record := FromTransactionPaths(w, p);
    assert AggregateCheck(w, record, tx.hash, CurrentTail(p))
           == AggregateCheck(w, record, p.transaction.hash, CurrentTail(p));
    assert Precheck(w, record, tx, CurrentTail(p), p.epoch).None?;
  }

  // ----- the conflicting run

  /** The parties of a conflict: the origin, a relay and an honest receiver, all registered. */
  ghost predicate Parties(w: World, honest: set<string>, tx: Transaction, relay: string, v: string) {
    && tx.from != relay && tx.from != v && relay != v
    && tx.from in w.registered && relay in w.registered && v in w.registered && v in honest
  }

  /** Two texts for one transaction: node v is reached directly under one and through a relay under the other. */
  lemma ConflictingRun(w: World, honest: set<string>, texts: iset<string>, tx: Transaction, chainId: u64, h: string,
                       h': string, relay: string, v: string)
    requires IdealSignatures(w) && TransactionVerifies(w, tx)
    requires h in texts && h' in texts && h != h'
             && HashBytes(w.sha3, h) == HashBytes(w.sha3, tx.hash) == HashBytes(w.sha3, h')
    requires Parties(w, honest, tx, relay, v)
    ensures !PrefixLaw(w, honest, texts, tx, chainId)
  {
    hide TransactionVerifies, AppendHop, CompleteHop, WellBuilt, HashBytes, VerifyUncached, ReceiptKey;
    var c, e := chainId, SeparatingEpoch(h, h', chainId);
    KeysDiffer(h, v, h', relay, c);
    KeysDiffer(h, v, h', v, c);
    ReceiversDiffer(h', c, e, relay, v);
    var p, q := PathState(tx.(hash := h), c, e, []), PathState(tx.(hash := h'), c, e, []);
    FreshPathIsLive(w, INITIAL, p);
    var s1, p1 := RelayStep(w, honest, texts, [], p, v);
    FreshPathIsLive(w, Run(w, honest, s1), q);
    var s2, q1 := RelayStep(w, honest, texts, s1, q, relay);
    assert Live(w, Run(w, honest, s2), p1);
    var s3, q2 := RelayStep(w, honest, texts, s2, q1, v);
    assert Live(w, Run(w, honest, s3), p1);
    LivePathVerifies(w, Run(w, honest, s3), p1, tx);
    LivePathVerifies(w, Run(w, honest, s3), q2, tx);
    var a, b := FromTransactionPaths(w, p1), FromTransactionPaths(w, q2);
    assert FullPath(a, v) == [tx.from] + [v] && FullPath(b, v) == [tx.from] + [relay] + [v];
    assert SharedNode(w, honest, texts, tx, c, s3, e, a, v, 1, b, v, 2);
  }

  lemma ReceiversDiffer(h: string, c: u64, e: u64, u: string, v: string)
    requires u != v
    ensures ReceiptKey(h, c, e, u) != ReceiptKey(h, c, e, v)
  {
    var mid := h + ":" + Decimal(c) + ":" + Decimal(e) + ":";
    assert (mid + u)[|mid|..] == u && (mid + v)[|mid|..] == v;
  }

  lemma FreshPathIsLive(w: World, s: Net, p: PathState)
    requires p.hops == [] && p.transaction.from in w.registered
    ensures Live(w, s, p) && NodeSequence(p) == [p.transaction.from]
  {}

  lemma OneTextKeepsPrefix(w: World, honest: set<string>, texts: iset<string>, tx: Transaction, chainId: u64)
    requires OneTextPerTransaction(w, texts, tx.hash)
    ensures PrefixLaw(w, honest, texts, tx, chainId)
  {
    hide HashBytes, VerifyUncached;
    forall steps, epoch, a, minerA, i: nat, b, minerB, j: nat |
      SharedNode(w, honest, texts, tx, chainId, steps, epoch, a, minerA, i, b, minerB, j)
      ensures i == j && FullPath(a, minerA)[..i + 1] == FullPath(b, minerB)[..j + 1]
    {
      PrefixBinding(w, honest, texts, steps, tx, epoch, a, minerA, i, b, minerB, j);
    }
  }

  /**
   The exact condition: with at least two further registered identities, one of them honest,
   on every chain the prefix law holds in all runs over the given hash texts if and only if no
   two of them stand for the transaction's bytes.
   */
  lemma PrefixLawExact(w: World, honest: set<string>, texts: iset<string>, tx: Transaction, chainId: u64,
                       relay: string, v: string)
    requires IdealSignatures(w) && TransactionVerifies(w, tx)
    requires Parties(w, honest, tx, relay, v)
    ensures PrefixLaw(w, honest, texts, tx, chainId) <==> OneTextPerTransaction(w, texts, tx.hash)
  {
    hide TransactionVerifies, HashBytes, VerifyUncached, PrefixLaw, IdealSignatures;
    if OneTextPerTransaction(w, texts, tx.hash) {
      OneTextKeepsPrefix(w, honest, texts, tx, chainId);
    } else {
      var h, h' :| h in texts && h' in texts
          && HashBytes(w.sha3, h) == HashBytes(w.sha3, tx.hash) == HashBytes(w.sha3, h') && h != h';
      ConflictingRun(w, honest, texts, tx, chainId, h, h', relay, v);
    }
  }

  // ----- which texts break it, and which do not

  /** A transaction's JSON stands for the same bytes as its hash, so admitting both texts breaks the law. */
  lemma JsonTextBreaksPrefix(w: World, honest: set<string>, texts: iset<string>, tx: Transaction, chainId: u64,
                             relay: string, v: string)
    requires IdealSignatures(w) && FaithfulJson(w) && TransactionVerifies(w, tx) && Parties(w, honest, tx, relay, v)
    requires tx.hash in texts && HashedText(w, tx) in texts
    ensures !PrefixLaw(w, honest, texts, tx, chainId)
  {
    hide PrefixLaw, IdealSignatures, HashBytes;
    var json := HashedText(w, tx);
    NotHex(json);
    PreimageSibling(w.sha3, json);
    ConflictingRun(w, honest, texts, tx, chainId, tx.hash, json, relay, v);
  }

  lemma NotHex(s: string)
    requires s != "" && s[0] == '{'
    ensures HexDecode(s).None?
  {}

  /** A hash text with a letter and the same text with that letter in upper case break the law. */
  lemma LetterCaseBreaksPrefix(w: World, honest: set<string>, texts: iset<string>, tx: Transaction, chainId: u64,
                               i: nat, relay: string, v: string)
    requires IdealSignatures(w) && TransactionVerifies(w, tx) && Parties(w, honest, tx, relay, v)
    requires i < |tx.hash| && 'a' <= tx.hash[i] <= 'f'
    requires tx.hash in texts && UpperAt(tx.hash, i) in texts
    ensures !PrefixLaw(w, honest, texts, tx, chainId)
  {
    hide PrefixLaw, IdealSignatures, HashBytes, UpperAt;
    VerifiedHashIsCanonical(w, tx);
    UpperCaseSibling(w.sha3, tx.hash, i);
    ConflictingRun(w, honest, texts, tx, chainId, tx.hash, UpperAt(tx.hash, i), relay, v);
  }

  /** With no restriction on the hash texts that are relayed, the law fails for every verifying transaction. */
  lemma UnrestrictedTextsBreakPrefix(w: World, honest: set<string>, texts: iset<string>, tx: Transaction,
                                     chainId: u64, relay: string, v: string)
    requires IdealSignatures(w) && FaithfulJson(w) && TransactionVerifies(w, tx) && Parties(w, honest, tx, relay, v)
    requires forall t :: t in texts
    ensures !PrefixLaw(w, honest, texts, tx, chainId)
  {
    JsonTextBreaksPrefix(w, honest, texts, tx, chainId, relay, v);
  }

  /** If only texts of the form a verifying transaction carries are relayed, the law holds. */
  lemma CanonicalTextsKeepPrefix(w: World, honest: set<string>, texts: iset<string>, tx: Transaction, chainId: u64)
    requires forall h :: h in texts ==> CanonicalHash(h)
    ensures PrefixLaw(w, honest, texts, tx, chainId)
  {
    hide HashBytes, CanonicalHash, VerifyUncached;
    forall h, h' | h in texts && h' in texts
           && HashBytes(w.sha3, h) == HashBytes(w.sha3, tx.hash) == HashBytes(w.sha3, h')
      ensures h == h'
    {
      CanonicalHashBytesInjective(w.sha3, h, h');
    }
    OneTextKeepsPrefix(w, honest, texts, tx, chainId);
  }
}
