/**
 Two laws of the evidence protocol. A path grown by successful hop operations
 aggregates to a record that verifies and spells out exactly its node sequence;
 and one aggregate signature verifies for a single transaction hash, chain,
 epoch and node sequence.
 */
module PathRoundTrip {
  import opened Encoding
  import opened Ledger
  import opened Evidence

  // ----- paths grown by hop operations

  /** One successful call of `append_outgoing_hop` or `complete_pending_hop`, by anyone, against any receipt table. */
  ghost predicate GrowsTo(w: World, p: PathState, q: PathState) {
    || (exists to, sender :: AppendHop(w, p, to, sender) == Some(q))
    || (exists r, receiver :: CompleteHop(w, r, p, receiver).ok && CompleteHop(w, r, p, receiver).path == q)
  }

  /** A run of successful operations on one path, starting from a fresh one. */
  ghost predicate IsGrowth(w: World, trace: seq<PathState>) {
    && trace != [] && trace[0].hops == []
    && forall i :: 0 <= i < |trace| - 1 ==> GrowsTo(w, trace[i], trace[i + 1])
  }

  function StatementAt(w: World, p: PathState, k: nat): Message
    requires k < |p.hops|
  {
    EdgeStatement(ChainAt(w, p, k), NodeSequence(p)[k], NodeSequence(p)[k + 1])
  }

  ghost predicate ProperHop(w: World, p: PathState, k: nat)
    requires k < |p.hops|
  {
    var hop, nodes := p.hops[k], NodeSequence(p);
    && hop.from == nodes[k]
    && hop.prefix == HexOf(ChainAt(w, p, k))
    && hop.senderSignature == Sign(w, nodes[k], StatementAt(w, p, k))
    && (hop.receiverSignature.Some? ==>
          hop.receiverSignature.value == Sign(w, nodes[k + 1], StatementAt(w, p, k)) && nodes[k] in w.registered)
  }

  /** What every operation keeps: distinct identities, linked hops, genuine signatures, only the last hop open. */
  ghost predicate WellBuilt(w: World, p: PathState) {
    && NoRepeatedNodes(NodeSequence(p))
    && (forall k :: 0 <= k < |p.hops| ==> ProperHop(w, p, k))
    && (forall k :: 0 <= k < |p.hops| - 1 ==> p.hops[k].receiverSignature.Some?)
  }

  lemma ProperHopOnPrefix(w: World, p: PathState, q: PathState, k: nat)
    requires k < |p.hops| && k < |q.hops|
    requires q.transaction == p.transaction && q.chainId == p.chainId && q.epoch == p.epoch
    requires |p.hops| <= |q.hops|
    requires NodeSequence(q)[..|p.hops| + 1] == NodeSequence(p)
    ensures StatementAt(w, q, k) == StatementAt(w, p, k) && ChainAt(w, q, k) == ChainAt(w, p, k)
    ensures NodeSequence(q)[k] == NodeSequence(p)[k] && NodeSequence(q)[k + 1] == NodeSequence(p)[k + 1]
  {
    var a, b, n := NodeSequence(q), NodeSequence(p), |p.hops| + 1;
    assert a[..n][..k + 1] == a[..k + 1];
    assert a[..n][k] == a[k] && a[..n][k + 1] == a[k + 1];
  }

  lemma AppendKeepsWellBuilt(w: World, p: PathState, to: string, sender: string)
    requires WellBuilt(w, p) && AppendHop(w, p, to, sender).Some?
    ensures WellBuilt(w, AppendHop(w, p, to, sender).value)
  {
    var q := AppendHop(w, p, to, sender).value;
    var n := |p.hops|;
    assert NodeSequence(q) == NodeSequence(p) + [to];
    assert NodeSequence(q)[..n + 1] == NodeSequence(p);
    assert CurrentTail(p) == NodeSequence(p)[n];
    forall k | 0 <= k < n + 1
      ensures ProperHop(w, q, k)
    {
      if k < n {
        assert ProperHop(w, p, k);
        ProperHopOnPrefix(w, p, q, k);
      } else {
        assert NodeSequence(p)[..n + 1] == NodeSequence(p);
        assert ChainAt(w, q, n) == ChainAt(w, p, n);
      }
    }
  }

  lemma CompleteKeepsWellBuilt(w: World, r: Receipts, p: PathState, receiver: string)
    requires WellBuilt(w, p) && CompleteHop(w, r, p, receiver).ok
    ensures WellBuilt(w, CompleteHop(w, r, p, receiver).path)
  {
    var q := CompleteHop(w, r, p, receiver).path;
    if q != p {
      assert NodeSequence(q) == NodeSequence(p);
      assert NodeSequence(q)[..|p.hops| + 1] == NodeSequence(p);
      forall k | 0 <= k < |p.hops|
        ensures ProperHop(w, q, k)
      {
        assert ProperHop(w, p, k);
        ProperHopOnPrefix(w, p, q, k);
      }
    }
  }

  /** Every state of every growth keeps the invariant, in particular no identity repeats. */
  lemma {:induction false} GrowthIsWellBuilt(w: World, trace: seq<PathState>, i: nat)
    requires IsGrowth(w, trace) && i < |trace|
    ensures WellBuilt(w, trace[i]) && trace[i].transaction == trace[0].transaction
    ensures trace[i].chainId == trace[0].chainId && trace[i].epoch == trace[0].epoch
  {
    if i > 0 {
      GrowthIsWellBuilt(w, trace, i - 1);
      var p, q := trace[i - 1], trace[i];
      assert GrowsTo(w, p, trace[i - 1 + 1]);
      if to, sender :| AppendHop(w, p, to, sender) == Some(q) {
        AppendKeepsWellBuilt(w, p, to, sender);
      } else {
        var r, receiver :| CompleteHop(w, r, p, receiver).ok && CompleteHop(w, r, p, receiver).path == q;
        CompleteKeepsWellBuilt(w, r, p, receiver);
      }
    } else {
      assert |NodeSequence(trace[0])| == 1;
    }
  }

  // ----- round trip

  ghost predicate TailRegistered(w: World, p: PathState) {
    p.hops == [] || CurrentTail(p) in w.registered
  }

  lemma BuiltHopVerifies(w: World, p: PathState, k: nat)
    requires IdealSignatures(w) && WellBuilt(w, p) && !HasPendingHop(p) && TailRegistered(w, p)
    requires k < |p.hops|
    ensures p.hops[k].receiverSignature.Some? && VerifyHop(w, p, k, true)
  {
    assert ProperHop(w, p, k);
    var nodes := NodeSequence(p);
    if k + 1 < |p.hops| {
      assert ProperHop(w, p, k + 1);
      assert p.hops[k + 1].receiverSignature.Some?;
    }
    var st := StatementAt(w, p, k);
    assert multiset{Signed(nodes[k], st)} != multiset{} && multiset{Signed(nodes[k + 1], st)} != multiset{};
    assert w.parse(w.render(multiset{Signed(nodes[k], st)})) == Some(multiset{Signed(nodes[k], st)});
    assert w.parse(w.render(multiset{Signed(nodes[k + 1], st)})) == Some(multiset{Signed(nodes[k + 1], st)});
  }

  lemma VerifiedHopSignatures(w: World, p: PathState, k: nat)
    requires k < |p.hops| && VerifyHop(w, p, k, true)
    ensures var hop, nodes, st := p.hops[k], NodeSequence(p), StatementAt(w, p, k);
            && hop.receiverSignature.Some?
            && w.parse(hop.senderSignature) == Some(multiset{Signed(nodes[k], st)})
            && w.parse(hop.receiverSignature.value) == Some(multiset{Signed(nodes[k + 1], st)})
  {}

  lemma ExpectedPairsStep(w: World, p: PathState, i: nat, st: Message)
    requires i < |p.hops| && st == StatementAt(w, p, i)
    ensures ExpectedPairs(TxBytes(w, p), p.chainId, p.epoch, NodeSequence(p)[..i + 2])
         == ExpectedPairs(TxBytes(w, p), p.chainId, p.epoch, NodeSequence(p)[..i + 1])
            + multiset{Signed(NodeSequence(p)[i], st)} + multiset{Signed(NodeSequence(p)[i + 1], st)}
  {
    ExpectedPairsSnoc(TxBytes(w, p), p.chainId, p.epoch, NodeSequence(p), i);
  }

  lemma CollectStep(w: World, hops: seq<Hop>, i: nat, sofar: multiset<Signed>, s: multiset<Signed>, t: multiset<Signed>)
    requires i < |hops| && CollectSignatures(w, hops[..i]) == Some(sofar)
    requires w.parse(hops[i].senderSignature) == Some(s)
    requires hops[i].receiverSignature.Some? && w.parse(hops[i].receiverSignature.value) == Some(t)
    ensures CollectSignatures(w, hops[..i + 1]) == Some(sofar + s + t)
  {
    assert hops[..i + 1][..i] == hops[..i];
  }

  lemma {:induction false} CollectedAreExpected(w: World, p: PathState, i: nat)
    requires CompletedHopsVerify(w, p) && i <= |p.hops|
    ensures CollectSignatures(w, p.hops[..i])
         == Some(ExpectedPairs(TxBytes(w, p), p.chainId, p.epoch, NodeSequence(p)[..i + 1]))
  {
    hide VerifyHop, StatementAt, NodeSequence;
    if i > 0 {
      var k := i - 1;
      CollectedAreExpected(w, p, k);
      assert VerifyHop(w, p, k, true);
      VerifiedHopSignatures(w, p, k);
      var nodes, st := NodeSequence(p), StatementAt(w, p, k);
      ExpectedPairsStep(w, p, k, st);
      CollectStep(w, p.hops, k, ExpectedPairs(TxBytes(w, p), p.chainId, p.epoch, nodes[..k + 1]),
                  multiset{Signed(nodes[k], st)}, multiset{Signed(nodes[k + 1], st)});
    }
  }

  lemma ExpectedPairsLength(h: Message, c: u64, e: u64, nodes: seq<string>)
    ensures |ExpectedPairs(h, c, e, nodes)| == if nodes == [] then 0 else 2 * (|nodes| - 1)
    decreases |nodes|
  {
    if |nodes| > 1 {
      ExpectedPairsLength(h, c, e, nodes[..|nodes| - 1]);
    }
  }

  /**
   Round trip: any path grown from a verifying transaction by successful operations has no
   repeated identity, passes its own verification, and its record verifies for its tail at
   its epoch and yields back exactly its node sequence.
   */
  lemma RoundTrip(w: World, trace: seq<PathState>)
    requires IdealSignatures(w) && IsGrowth(w, trace)
    requires var p := trace[|trace| - 1];
             TransactionVerifies(w, p.transaction) && !HasPendingHop(p) && TailRegistered(w, p)
    ensures var p := trace[|trace| - 1];
            var record := FromTransactionPaths(w, p);
            && NoRepeatedNodes(NodeSequence(p))
            && VerifyPaths(w, p, CurrentTail(p))
            && FullPath(record, CurrentTail(p)) == NodeSequence(p)
            && record.chainId == p.chainId && record.epoch == p.epoch
            && VerifyUncached(w, record, p.transaction, CurrentTail(p), p.epoch)
  {
    var p := trace[|trace| - 1];
    GrowthIsWellBuilt(w, trace, |trace| - 1);
    forall k | 0 <= k < |p.hops|
      ensures p.hops[k].receiverSignature.Some? && VerifyHop(w, p, k, true)
    {
      BuiltHopVerifies(w, p, k);
    }
    BuiltRecordVerifies(w, p);
  }

  lemma BuiltRecordVerifies(w: World, p: PathState)
    requires IdealSignatures(w) && TransactionVerifies(w, p.transaction)
    requires NoRepeatedNodes(NodeSequence(p)) && CompletedHopsVerify(w, p)
    ensures var record := FromTransactionPaths(w, p);
            && FullPath(record, CurrentTail(p)) == NodeSequence(p)
            && record.chainId == p.chainId && record.epoch == p.epoch
            && VerifyUncached(w, record, p.transaction, CurrentTail(p), p.epoch)
  {
    hide VerifyHop, TransactionVerifies, CompletedHopsVerify, AggregateCheck;
    if p.hops != [] {
      BuiltRecord(w, p);
      var record, nodes := FromTransactionPaths(w, p), NodeSequence(p);
      assert Precheck(w, record, p.transaction, CurrentTail(p), p.epoch).None?;
    }
  }

  lemma BuiltRecord(w: World, p: PathState)
    requires IdealSignatures(w) && NoRepeatedNodes(NodeSequence(p)) && CompletedHopsVerify(w, p) && p.hops != []
    ensures var record := FromTransactionPaths(w, p);
            && FullPath(record, CurrentTail(p)) == NodeSequence(p)
            && record.chainId == p.chainId && record.epoch == p.epoch
            && record.paths != [] && record.signature != ""
            && AggregateCheck(w, record, p.transaction.hash, CurrentTail(p)) == Some(true)
  {
    hide VerifyHop, CompletedHopsVerify, NodeSequence, AddHop;
    var nodes, n := NodeSequence(p), |p.hops|;
    var pairs := ExpectedPairs(TxBytes(w, p), p.chainId, p.epoch, nodes);
    assert CollectSignatures(w, p.hops) == Some(pairs) by {
      CollectedAreExpected(w, p, n);
      assert p.hops[..n] == p.hops && nodes[..n + 1] == nodes;
    }
    var record := FromTransactionPaths(w, p);
    assert record == PathRecord(p.chainId, p.epoch, w.render(pairs), nodes[..n]);
    assert FullPath(record, CurrentTail(p)) == nodes by {
      assert record.paths[n - 1] == nodes[n - 1];
      assert nodes[..n] + [nodes[n]] == nodes;
    }
    assert pairs != multiset{} by {
      ExpectedPairsLength(TxBytes(w, p), p.chainId, p.epoch, nodes);
    }
    CompletedNodesRegistered(w, p);
  }

  lemma CompletedNodesRegistered(w: World, p: PathState)
    requires CompletedHopsVerify(w, p) && p.hops != []
    ensures forall i :: 0 <= i < |NodeSequence(p)| ==> NodeSequence(p)[i] in w.registered
  {
    forall i | 0 <= i < |NodeSequence(p)|
      ensures NodeSequence(p)[i] in w.registered
    {
      if i == 0 {
        assert VerifyHop(w, p, 0, true);
      } else {
        assert VerifyHop(w, p, i - 1, true);
      }
    }
  }

  /** What a completed hop carries, written out: both ends are registered and have signed its statement. */
  lemma CompletedHop(w: World, p: PathState, k: nat)
    requires k < |p.hops|
    ensures p.hops[k].receiverSignature.Some? && VerifyHop(w, p, k, true)
       <==> var hop, nodes := p.hops[k], NodeSequence(p);
            var chain := ChainOf(HashBytes(w.sha3, p.transaction.hash), p.chainId, p.epoch, nodes[..k + 1]);
            var statement := EdgeStatement(chain, nodes[k], nodes[k + 1]);
            && hop.from == nodes[k] && hop.prefix == HexOf(chain)
            && nodes[k] in w.registered && nodes[k + 1] in w.registered && hop.receiverSignature.Some?
            && w.parse(hop.senderSignature) == Some(multiset{Signed(nodes[k], statement)})
            && w.parse(hop.receiverSignature.value) == Some(multiset{Signed(nodes[k + 1], statement)})
  {}

  // ----- binding

  /** Every expected pair is a statement about one hop of the path, signed by one of its two ends. */
  lemma {:induction false} PairIsHopStatement(h: Message, c: u64, e: u64, nodes: seq<string>, s: Signed)
    returns (j: nat)
    requires s in ExpectedPairs(h, c, e, nodes)
    ensures 1 <= j < |nodes|
    ensures s.message == EdgeStatement(ChainOf(h, c, e, nodes[..j]), nodes[j - 1], nodes[j])
    ensures s.signer == nodes[j - 1] || s.signer == nodes[j]
    decreases |nodes|
  {
    hide EdgeStatement, AddHop;
    var n := |nodes| - 1;
    var init := nodes[..n];
    if |nodes| > 1 {
      AddHopMember(ExpectedPairs(h, c, e, init), nodes[n - 1], nodes[n],
                   EdgeStatement(ChainOf(h, c, e, init), nodes[n - 1], nodes[n]), s);
    }
    if s in ExpectedPairs(h, c, e, init) {
      j := PairIsHopStatement(h, c, e, init, s);
      assert init[..j] == nodes[..j];
    } else {
      j := n;
    }
  }

  lemma AddHopMember(pairs: multiset<Signed>, sender: string, receiver: string, message: Message, s: Signed)
    ensures s in AddHop(pairs, sender, receiver, message)
       <==> s in pairs || s == Signed(sender, message) || s == Signed(receiver, message)
  {}

  lemma {:induction false} HopStatementIsPair(h: Message, c: u64, e: u64, nodes: seq<string>, j: nat)
    requires 1 <= j < |nodes|
    ensures var message := EdgeStatement(ChainOf(h, c, e, nodes[..j]), nodes[j - 1], nodes[j]);
            && Signed(nodes[j - 1], message) in ExpectedPairs(h, c, e, nodes)
            && Signed(nodes[j], message) in ExpectedPairs(h, c, e, nodes)
    decreases |nodes|
  {
    hide EdgeStatement, AddHop;
    var n := |nodes| - 1;
    var init, message := nodes[..n], EdgeStatement(ChainOf(h, c, e, nodes[..j]), nodes[j - 1], nodes[j]);
    var last := EdgeStatement(ChainOf(h, c, e, init), nodes[n - 1], nodes[n]);
    AddHopMember(ExpectedPairs(h, c, e, init), nodes[n - 1], nodes[n], last, Signed(nodes[j - 1], message));
    AddHopMember(ExpectedPairs(h, c, e, init), nodes[n - 1], nodes[n], last, Signed(nodes[j], message));
    if j < n {
      HopStatementIsPair(h, c, e, init, j);
      assert init[..j] == nodes[..j];
    }
  }

  /** Equal pair multisets stand for the same transaction bytes, chain, epoch and node sequence. */
  lemma PairsBind(h: Message, c: u64, e: u64, ns: seq<string>, h': Message, c': u64, e': u64, ns': seq<string>)
    requires |ns| >= 2
    requires ExpectedPairs(h, c, e, ns) == ExpectedPairs(h', c', e', ns')
    ensures h == h' && c == c' && e == e' && ns == ns'
  {
    hide EdgeStatement, AddHop;
    var n := |ns| - 1;
    ExpectedPairsLength(h, c, e, ns);
    ExpectedPairsLength(h', c', e', ns');
    HopStatementIsPair(h, c, e, ns, n);
    var j := PairIsHopStatement(h', c', e', ns',
                                Signed(ns[n], EdgeStatement(ChainOf(h, c, e, ns[..n]), ns[n - 1], ns[n])));
    SameStatement(h, c, e, ns, n, h', c', e', ns', j);
    assert ns == ns[..n + 1] && ns' == ns'[..n + 1];
  }

  /** A hop statement determines the path up to and including its receiver. */
  lemma SameStatement(h: Message, c: u64, e: u64, ns: seq<string>, i: nat, h': Message, c': u64, e': u64,
                      ns': seq<string>, j: nat)
    requires 1 <= i < |ns| && 1 <= j < |ns'|
    requires EdgeStatement(ChainOf(h, c, e, ns[..i]), ns[i - 1], ns[i])
          == EdgeStatement(ChainOf(h', c', e', ns'[..j]), ns'[j - 1], ns'[j])
    ensures h == h' && c == c' && e == e'
    ensures i == j && ns[..i] == ns'[..j] && ns[i] == ns'[j]
    ensures ns[..i + 1] == ns'[..j + 1]
  {
    EdgeStatementInjective(ChainOf(h, c, e, ns[..i]), ns[i - 1], ns[i], ChainOf(h', c', e', ns'[..j]), ns'[j - 1],
                           ns'[j]);
    ChainInjective(h, c, e, ns[..i], h', c', e', ns'[..j]);
    assert |ns[..i]| == |ns'[..j]|;
    assert ns[..i + 1] == ns[..i] + [ns[i]] && ns'[..j + 1] == ns'[..j] + [ns'[j]];
  }

  /**
   One aggregate signature, one meaning: two records with the same signature that both verify
   with at least one hop agree on transaction hash, chain id, epoch and full node sequence.
   */
  lemma AggregateBinds(w: World, a: PathRecord, tx: Transaction, miner: string, epoch: u64,
                       b: PathRecord, tx': Transaction, miner': string, epoch': u64)
    requires VerifyUncached(w, a, tx, miner, epoch) && |FullPath(a, miner)| >= 2
    requires VerifyUncached(w, b, tx', miner', epoch') && |FullPath(b, miner')| >= 2
    requires a.signature == b.signature
    ensures tx.hash == tx'.hash && a.chainId == b.chainId && epoch == epoch' && a.epoch == b.epoch
    ensures FullPath(a, miner) == FullPath(b, miner')
  {
    hide TransactionVerifies;
    var ns, ns' := FullPath(a, miner), FullPath(b, miner');
    assert Precheck(w, a, tx, miner, epoch).None? && Precheck(w, b, tx', miner', epoch').None?;
    PairsBind(HashBytes(w.sha3, tx.hash), a.chainId, a.epoch, ns, HashBytes(w.sha3, tx'.hash), b.chainId, b.epoch, ns');
    VerifiedHashIsCanonical(w, tx);
    VerifiedHashIsCanonical(w, tx');
    CanonicalHashBytesInjective(w.sha3, tx.hash, tx'.hash);
  }

  // ----- the two verifications

  /** A record whose only entry is its proposer verifies with any non-empty signature text: there is no hop to check. */
  lemma SelfMinedRecord(w: World, chainId: u64, epoch: u64, signature: string, tx: Transaction, miner: string)
    ensures VerifyUncached(w, PathRecord(chainId, epoch, signature, [miner]), tx, miner, epoch)
       <==> TransactionVerifies(w, tx) && tx.from == miner && signature != ""
  {
    hide TransactionVerifies;
  }

  /** A verified one-hop path that its own origin puts into a block: the hop is dropped from the full path. */
  ghost predicate TakenBack(w: World, p: PathState, address: string) {
    |p.hops| == 1 && address == p.transaction.from && TransactionVerifies(w, p.transaction) && CompletedHopsVerify(w, p)
  }

  /**
   Verification in flight and verification in a block agree: whatever path a peer hands over, the
   record made of it verifies for a proposer if and only if the path verifies for that address, or
   it is a verified one-hop path and the proposer its origin.
   */
  lemma InFlightIffRecord(w: World, p: PathState, address: string)
    requires IdealSignatures(w)
    ensures VerifyUncached(w, FromTransactionPaths(w, p), p.transaction, address, p.epoch)
       <==> VerifyPaths(w, p, address) || TakenBack(w, p, address)
  {
    hide VerifyHop, TransactionVerifies, CompletedHopsVerify, AggregateCheck;
    var record := FromTransactionPaths(w, p);
    if p.hops == [] {
      assert NodeSequence(p) == [p.transaction.from];
    } else {
      RecordOf(w, p);
      if VerifyPaths(w, p, address) {
        BuiltRecordVerifies(w, p);
      } else if TakenBack(w, p, address) {
        assert record.paths == [address];
        SelfMinedRecord(w, p.chainId, p.epoch, record.signature, p.transaction, address);
      } else if VerifyUncached(w, record, p.transaction, address, p.epoch) {
        RecordMakesPath(w, p, address);
      }
    }
  }

  /** The record of any path with a hop: it carries a signature exactly if every hop is completed. */
  lemma RecordOf(w: World, p: PathState)
    requires IdealSignatures(w) && p.hops != []
    ensures var record, nodes, n := FromTransactionPaths(w, p), NodeSequence(p), |p.hops|;
            && record.chainId == p.chainId && record.epoch == p.epoch && record.paths == nodes[..n]
            && (record.signature != "" <==> CompletedHopsVerify(w, p))
            && (CompletedHopsVerify(w, p) ==>
                  w.parse(record.signature) == Some(ExpectedPairs(TxBytes(w, p), p.chainId, p.epoch, nodes)))
  {
    hide VerifyHop, NodeSequence, ExpectedPairs, HashBytes, CompletedHopsVerify;
    var nodes, n := NodeSequence(p), |p.hops|;
    if CompletedHopsVerify(w, p) {
      CollectedAreExpected(w, p, n);
      assert p.hops[..n] == p.hops && nodes[..n + 1] == nodes;
      ExpectedPairsLength(TxBytes(w, p), p.chainId, p.epoch, nodes);
      assert ExpectedPairs(TxBytes(w, p), p.chainId, p.epoch, nodes) != multiset{};
    }
  }

  lemma RecordMakesPath(w: World, p: PathState, address: string)
    requires IdealSignatures(w) && p.hops != [] && !TakenBack(w, p, address)
    requires VerifyUncached(w, FromTransactionPaths(w, p), p.transaction, address, p.epoch)
    ensures VerifyPaths(w, p, address)
  {
    hide VerifyHop, TransactionVerifies, ExpectedPairs, HashBytes, CompletedHopsVerify, FromTransactionPaths;
    var record, nodes, n := FromTransactionPaths(w, p), NodeSequence(p), |p.hops|;
    RecordOf(w, p);
    assert record.paths == nodes[..n];
    var full := FullPath(record, address);
    assert full[0] == p.transaction.from && full[|full| - 1] == address;
    if |full| > 1 {
      PairsBind(TxBytes(w, p), p.chainId, p.epoch, nodes, TxBytes(w, p), p.chainId, p.epoch, full);
      assert full[n] == nodes[n];
    }
  }
}
