/**
 Every interleaving of hop steps. Honest identities sign only through the two
 hop operations, applied to arbitrary paths handed to them; everyone else signs
 whatever they like. Proved: one receipt per (transaction hash, chain, epoch,
 receiver), hence any two verified records of a transaction agree on the whole
 prefix up to any honest node they share, as long as no two hash texts in
 circulation stand for that transaction's bytes.
 */
module ReceiptRuns {
  import opened Encoding
  import opened Ledger
  import opened Evidence
  import opened PathRoundTrip

  /** A receiver signature together with the tuple it was issued under. */
  datatype Receipt = Receipt(txHash: string, chainId: u64, epoch: u64, receiver: string, statement: Message)

  datatype Net = Net(receipts: Receipts, issued: set<Receipt>, signed: set<Signed>)

  datatype Step =
    | Append(path: PathState, to: string, sender: string)
    | Complete(path: PathState, receiver: string)
    | Foreign(signature: Signed)

  const INITIAL := Net(Receipts(map[], map[]), {}, {})

  /** What a successful completion of an open hop signs. */
  function ReceiptOf(w: World, p: PathState): Receipt
    requires p.hops != []
  {
    Receipt(p.transaction.hash, p.chainId, p.epoch, CurrentTail(p), StatementAt(w, p, |p.hops| - 1))
  }

  function Next(w: World, honest: set<string>, s: Net, step: Step): Net {
    match step
    case Append(p, to, sender) =>
      if AppendHop(w, p, to, sender).Some? then
        s.(signed := s.signed + {Signed(sender, EdgeStatement(ChainAt(w, p, |p.hops|), sender, to))})
      else s
    case Complete(p, receiver) =>
      var c := CompleteHop(w, s.receipts, p, receiver);
      if c.ok && HasPendingHop(p) then
        Net(c.receipts, s.issued + {ReceiptOf(w, p)}, s.signed + {Signed(receiver, ReceiptOf(w, p).statement)})
      else s.(receipts := c.receipts)
    case Foreign(signature) =>
      if signature.signer in honest then s else s.(signed := s.signed + {signature})
  }

  function Run(w: World, honest: set<string>, steps: seq<Step>): Net {
    if steps == [] then INITIAL
    else Next(w, honest, Run(w, honest, steps[..|steps| - 1]), steps[|steps| - 1])
  }

  /** Only paths whose transaction carries one of the given hash texts are completed. */
  ghost predicate UsesTexts(steps: seq<Step>, texts: iset<string>) {
    forall i :: 0 <= i < |steps| && steps[i].Complete? ==> steps[i].path.transaction.hash in texts
  }

  // ----- the invariant

  function KeyOf(a: Receipt): string {
    ReceiptKey(a.txHash, a.chainId, a.epoch, a.receiver)
  }

  ghost predicate Recorded(r: Receipts, a: Receipt) {
    KeyOf(a) in r.commitments && r.commitments[KeyOf(a)] == Sha3(a.statement)
  }

  ghost predicate ProperReceipt(w: World, a: Receipt, nodes: seq<string>) {
    && nodes != []
    && var chain := ChainOf(HashBytes(w.sha3, a.txHash), a.chainId, a.epoch, nodes);
    && a.statement == EdgeStatement(chain, nodes[|nodes| - 1], a.receiver)
  }

  ghost predicate SentBy(s: Signed) {
    exists prefix, to :: s.message == EdgeStatement(prefix, s.signer, to)
  }

  ghost predicate HasReceipt(issued: set<Receipt>, s: Signed) {
    exists a :: a in issued && a.receiver == s.signer && a.statement == s.message
  }

  ghost predicate Inv(w: World, s: Net, honest: set<string>, texts: iset<string>) {
    && (forall a :: a in s.issued ==> Recorded(s.receipts, a))
    && (forall a :: a in s.issued ==> a.txHash in texts && exists nodes :: ProperReceipt(w, a, nodes))
    && (forall x :: x in s.signed && x.signer in honest ==> SentBy(x) || HasReceipt(s.issued, x))
  }

  /** A commitment once entered in the table is never replaced by another one. */
  lemma CommitmentsStay(w: World, r: Receipts, p: PathState, receiver: string)
    ensures var r' := CompleteHop(w, r, p, receiver).receipts;
            forall key :: key in r.commitments ==> key in r'.commitments && r'.commitments[key] == r.commitments[key]
  {
    hide VerifyHop;
  }

  lemma CompletionIsProper(w: World, r: Receipts, p: PathState, receiver: string)
    requires CompleteHop(w, r, p, receiver).ok && HasPendingHop(p)
    ensures receiver == CurrentTail(p)
    ensures Recorded(CompleteHop(w, r, p, receiver).receipts, ReceiptOf(w, p))
    ensures ProperReceipt(w, ReceiptOf(w, p), NodeSequence(p)[..|p.hops|])
  {
    var nodes, n := NodeSequence(p), |p.hops| - 1;
    assert VerifyHop(w, p, n, false);
    assert nodes[..n + 1][n] == nodes[n];
  }

  /**
   What a receiver checks before it countersigns an open hop, written out: the hop is addressed to it
   by the current tail over the commitment to the whole prefix, the sender is registered and has
   signed exactly this statement, and no other statement is on record. Then the hop carries the
   receiver's signature on the same statement and the table its commitment; otherwise the path and
   the commitments stay as they are, and a statement other than the one on record is counted.
   */
  lemma CountersignExact(w: World, r: Receipts, p: PathState, receiver: string)
    requires HasPendingHop(p)
    ensures var n, nodes := |p.hops| - 1, NodeSequence(p);
            var hop, c := p.hops[n], CompleteHop(w, r, p, receiver);
            var chain := ChainOf(HashBytes(w.sha3, p.transaction.hash), p.chainId, p.epoch, nodes[..n + 1]);
            var statement := EdgeStatement(chain, nodes[n], receiver);
            var key := ReceiptKey(p.transaction.hash, p.chainId, p.epoch, receiver);
            var checked := && hop.to == receiver && hop.from == nodes[n] && hop.from in w.registered
                           && hop.prefix == HexOf(chain)
                           && w.parse(hop.senderSignature) == Some(multiset{Signed(hop.from, statement)});
            && (c.ok <==> checked && (key in r.commitments ==> r.commitments[key] == Sha3(statement)))
            && c.receipts.conflicts == (if checked && !c.ok then
                                          r.conflicts[key := if key in r.conflicts then r.conflicts[key] + 1 else 1]
                                        else r.conflicts)
            && (c.ok ==> && c.path == p.(hops := p.hops[..n] + [hop.(receiverSignature :=
                                           Some(w.render(multiset{Signed(receiver, statement)})))])
                         && c.receipts.commitments == r.commitments[key := Sha3(statement)])
            && (!c.ok ==> c.path == p && c.receipts.commitments == r.commitments)
  {
    hide EdgeStatement, ReceiptKey, HashBytes;
    var n, c := |p.hops| - 1, CompleteHop(w, r, p, receiver);
    if c.ok {
      assert p.hops[n := c.path.hops[n]] == p.hops[..n] + [c.path.hops[n]];
    }
  }

  lemma StepKeepsInv(w: World, honest: set<string>, texts: iset<string>, s: Net, step: Step)
    requires Inv(w, s, honest, texts)
    requires step.Complete? ==> step.path.transaction.hash in texts
    ensures Inv(w, Next(w, honest, s, step), honest, texts)
  {
    hide AppendHop, CompleteHop, EdgeStatement, Recorded, ProperReceipt, KeyOf;
    var s' := Next(w, honest, s, step);
    match step {
      case Append(p, to, sender) =>
        var made := Signed(sender, EdgeStatement(ChainAt(w, p, |p.hops|), sender, to));
        assert SentBy(made);
      case Complete(p, receiver) =>
        var c := CompleteHop(w, s.receipts, p, receiver);
        forall a | a in s.issued
          ensures Recorded(c.receipts, a)
        {
          RecordedStays(w, s.receipts, p, receiver, a);
        }
        if c.ok && HasPendingHop(p) {
          CompletionIsProper(w, s.receipts, p, receiver);
          var made := Signed(receiver, ReceiptOf(w, p).statement);
          assert HasReceipt(s'.issued, made);
          forall x | x in s.signed && HasReceipt(s.issued, x)
            ensures HasReceipt(s'.issued, x)
          {
            var a :| a in s.issued && a.receiver == x.signer && a.statement == x.message;
            assert a in s'.issued;
          }
        }
      case Foreign(signature) =>
    }
  }

  lemma RecordedStays(w: World, r: Receipts, p: PathState, receiver: string, a: Receipt)
    requires Recorded(r, a)
    ensures Recorded(CompleteHop(w, r, p, receiver).receipts, a)
  {
    CommitmentsStay(w, r, p, receiver);
  }

  /** The invariant holds after every run, whatever the interleaving. */
  lemma {:induction false} RunKeepsInv(w: World, honest: set<string>, texts: iset<string>, steps: seq<Step>)
    requires UsesTexts(steps, texts)
    ensures Inv(w, Run(w, honest, steps), honest, texts)
  {
    if steps != [] {
      var n := |steps| - 1;
      RunKeepsInv(w, honest, texts, steps[..n]);
      StepKeepsInv(w, honest, texts, Run(w, honest, steps[..n]), steps[n]);
    }
  }

  /** Receipt uniqueness: in every run each tuple is receiver-signed for at most one statement. */
  lemma ReceiptsUnique(w: World, honest: set<string>, steps: seq<Step>, a: Receipt, b: Receipt)
    requires a in Run(w, honest, steps).issued && b in Run(w, honest, steps).issued
    requires a.txHash == b.txHash && a.chainId == b.chainId && a.epoch == b.epoch && a.receiver == b.receiver
    ensures a.statement == b.statement
  {
    var texts := iset i | 0 <= i < |steps| && steps[i].Complete? :: steps[i].path.transaction.hash;
    RunKeepsInv(w, honest, texts, steps);
    assert Recorded(Run(w, honest, steps).receipts, a) && Recorded(Run(w, honest, steps).receipts, b);
  }

  // ----- receipts answer senders

  /**
   Whenever a path is handed to a receiver, the sender's signature on its last hop aggregates only
   pairs signed before.
   */
  ghost predicate SendersBacked(w: World, honest: set<string>, steps: seq<Step>) {
    forall i :: 0 <= i < |steps| && steps[i].Complete? && HasPendingHop(steps[i].path) ==>
      Backed(w, Run(w, honest, steps[..i]), steps[i].path.hops[|steps[i].path.hops| - 1].senderSignature)
  }

  /** The receipt's statement is a hop from some u to its receiver that u has signed. */
  ghost predicate Answers(s: Net, a: Receipt) {
    exists chain, u :: a.statement == EdgeStatement(chain, u, a.receiver) && Signed(u, a.statement) in s.signed
  }

  /** In every run without forged sender signatures, a receiver countersigns only what the sender has signed. */
  lemma {:induction false} ReceiptsAnswerSenders(w: World, honest: set<string>, steps: seq<Step>, a: Receipt)
    requires SendersBacked(w, honest, steps) && a in Run(w, honest, steps).issued
    ensures Answers(Run(w, honest, steps), a)
  {
    hide Next, EdgeStatement, Backed;
    var n := |steps| - 1;
    var before, step := steps[..n], steps[n];
    var s := Run(w, honest, before);
    assert SendersBacked(w, honest, before) by {
      forall i | 0 <= i < n && steps[i].Complete? && HasPendingHop(steps[i].path)
        ensures Backed(w, Run(w, honest, before[..i]), steps[i].path.hops[|steps[i].path.hops| - 1].senderSignature)
      {
        assert before[..i] == steps[..i];
      }
    }
    if a in s.issued {
      ReceiptsAnswerSenders(w, honest, before, a);
      AnswersStay(w, honest, s, step, a);
    } else {
      NewReceiptAnswers(w, honest, s, step, a);
    }
  }

  lemma AnswersStay(w: World, honest: set<string>, s: Net, step: Step, a: Receipt)
    requires Answers(s, a)
    ensures Answers(Next(w, honest, s, step), a)
  {
    hide EdgeStatement, AppendHop, CompleteHop, ReceiptOf;
    var chain, u :| a.statement == EdgeStatement(chain, u, a.receiver) && Signed(u, a.statement) in s.signed;
    assert Signed(u, a.statement) in Next(w, honest, s, step).signed;
  }

  lemma NewReceiptAnswers(w: World, honest: set<string>, s: Net, step: Step, a: Receipt)
    requires a in Next(w, honest, s, step).issued && a !in s.issued
    requires step.Complete? && HasPendingHop(step.path) ==>
               Backed(w, s, step.path.hops[|step.path.hops| - 1].senderSignature)
    ensures Answers(Next(w, honest, s, step), a)
  {
    hide EdgeStatement, AppendHop, CompleteHop;
    var p := step.path;
    CountersignExact(w, s.receipts, p, step.receiver);
    var n := |p.hops| - 1;
    var u, st := p.hops[n].from, ReceiptOf(w, p).statement;
    assert Signed(u, st) in w.parse(p.hops[n].senderSignature).value;
    assert a.statement == EdgeStatement(ChainAt(w, p, n), u, a.receiver);
  }

  // ----- prefix binding

  /** Unforgeability: a signature in circulation only aggregates pairs that were actually signed. */
  ghost predicate Backed(w: World, s: Net, signature: string) {
    w.parse(signature).Some? ==> forall x :: x in w.parse(signature).value ==> x in s.signed
  }

  /** No two admitted texts stand for the bytes of the given hash. */
  ghost predicate OneTextPerTransaction(w: World, texts: iset<string>, hash: string) {
    forall h, h' :: h in texts && h' in texts
           && HashBytes(w.sha3, h) == HashBytes(w.sha3, hash) == HashBytes(w.sha3, h')
      ==> h == h'
  }

  /** A verified path starts at the transaction's origin, repeats nobody, and its signature covers every hop. */
  lemma VerifiedPath(w: World, rec: PathRecord, tx: Transaction, miner: string, epoch: u64)
    requires VerifyUncached(w, rec, tx, miner, epoch)
    ensures rec.epoch == epoch
    ensures FullPath(rec, miner)[0] == tx.from && NoRepeatedNodes(FullPath(rec, miner))
    ensures |FullPath(rec, miner)| >= 2 ==>
      w.parse(rec.signature)
        == Some(ExpectedPairs(HashBytes(w.sha3, tx.hash), rec.chainId, rec.epoch, FullPath(rec, miner)))
  {
    hide TransactionVerifies, ExpectedPairs;
  }

  /** The receipt behind a relay or proposer position of a verified record. */
  lemma PositionHasReceipt(w: World, honest: set<string>, texts: iset<string>, s: Net,
                           rec: PathRecord, tx: Transaction, miner: string, epoch: u64, i: nat) returns (a: Receipt)
    requires Inv(w, s, honest, texts) && Backed(w, s, rec.signature)
    requires VerifyUncached(w, rec, tx, miner, epoch)
    requires 1 <= i < |FullPath(rec, miner)| && FullPath(rec, miner)[i] in honest
    ensures a in s.issued && a.receiver == FullPath(rec, miner)[i]
    ensures var ns := FullPath(rec, miner);
            a.statement == EdgeStatement(ChainOf(HashBytes(w.sha3, tx.hash), rec.chainId, rec.epoch, ns[..i]),
                                         ns[i - 1], ns[i])
    ensures HashBytes(w.sha3, a.txHash) == HashBytes(w.sha3, tx.hash) && a.chainId == rec.chainId
            && a.epoch == rec.epoch
    ensures a.txHash in texts
  {
    hide TransactionVerifies, EdgeStatement, HashBytes, VerifyUncached, Recorded;
    VerifiedPath(w, rec, tx, miner, epoch);
    var ns := FullPath(rec, miner);
    HopStatementIsPair(HashBytes(w.sha3, tx.hash), rec.chainId, rec.epoch, ns, i);
    var x := Signed(ns[i],
                    EdgeStatement(ChainOf(HashBytes(w.sha3, tx.hash), rec.chainId, rec.epoch, ns[..i]), ns[i - 1],
                                  ns[i]));
    assert x in w.parse(rec.signature).value;
    assert x in s.signed;
    if SentBy(x) {
      var prefix, to :| x.message == EdgeStatement(prefix, x.signer, to);
      EdgeStatementInjective(ChainOf(HashBytes(w.sha3, tx.hash), rec.chainId, rec.epoch, ns[..i]), ns[i - 1], ns[i],
                             prefix, x.signer, to);
      assert false;
    }
    a :| a in s.issued && a.receiver == x.signer && a.statement == x.message;
    var nodes :| ProperReceipt(w, a, nodes);
    EdgeStatementInjective(ChainOf(HashBytes(w.sha3, tx.hash), rec.chainId, rec.epoch, ns[..i]), ns[i - 1], ns[i],
                           ChainOf(HashBytes(w.sha3, a.txHash), a.chainId, a.epoch, nodes), nodes[|nodes| - 1],
                           a.receiver);
    ChainInjective(HashBytes(w.sha3, tx.hash), rec.chainId, rec.epoch, ns[..i], HashBytes(w.sha3, a.txHash),
                   a.chainId, a.epoch, nodes);
  }

  /**
   Prefix binding: after any run, two verified records of one transaction, chain and epoch
   that share an honest node agree on its position and on every node before it.
   */
  lemma PrefixBinding(w: World, honest: set<string>, texts: iset<string>, steps: seq<Step>, tx: Transaction, epoch: u64,
                      a: PathRecord, minerA: string, i: nat, b: PathRecord, minerB: string, j: nat)
    requires UsesTexts(steps, texts) && OneTextPerTransaction(w, texts, tx.hash)
    requires Backed(w, Run(w, honest, steps), a.signature) && Backed(w, Run(w, honest, steps), b.signature)
    requires VerifyUncached(w, a, tx, minerA, epoch) && VerifyUncached(w, b, tx, minerB, epoch)
    requires a.chainId == b.chainId
    requires i < |FullPath(a, minerA)| && j < |FullPath(b, minerB)|
    requires FullPath(a, minerA)[i] == FullPath(b, minerB)[j] && FullPath(a, minerA)[i] in honest
    ensures i == j && FullPath(a, minerA)[..i + 1] == FullPath(b, minerB)[..j + 1]
  {
    hide VerifyUncached, EdgeStatement, HashBytes, Inv, FullPath;
    var s := Run(w, honest, steps);
    var ns, ms := FullPath(a, minerA), FullPath(b, minerB);
    RunKeepsInv(w, honest, texts, steps);
    VerifiedPath(w, a, tx, minerA, epoch);
    VerifiedPath(w, b, tx, minerB, epoch);
    if i == 0 || j == 0 {
      assert i == 0 && j == 0;
      assert ns[..1] == [tx.from] && ms[..1] == [tx.from];
    } else {
      var x := PositionHasReceipt(w, honest, texts, s, a, tx, minerA, epoch, i);
      var y := PositionHasReceipt(w, honest, texts, s, b, tx, minerB, epoch, j);
      assert x.txHash == y.txHash;
      ReceiptsUnique(w, honest, steps, x, y);
      SameStatement(HashBytes(w.sha3, tx.hash), a.chainId, a.epoch, ns, i, HashBytes(w.sha3, tx.hash), b.chainId,
                    b.epoch, ms, j);
    }
  }
}
