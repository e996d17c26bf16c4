/**
 The path-evidence protocol: two-sided hop signing over a chained prefix
 commitment, one receipt per receiver, aggregation into a block-level record,
 and verification of that record.
 */
module Evidence {
  import opened Encoding
  import opened Ledger

  /** Text of a hop's prefix field: hex of a digest, or anything else a peer may send. */
  datatype PrefixText = HexOf(digest: Digest) | OtherText(text: string)

  datatype Hop = Hop(
    from: string,
    to: string,
    prefix: PrefixText,
    senderSignature: string,
    receiverSignature: Option<string>)

  /** The contents of a `TransactionPaths`. */
  datatype PathState = PathState(transaction: Transaction, chainId: u64, epoch: u64, hops: seq<Hop>)

  function NodeSequence(p: PathState): (nodes: seq<string>)
    ensures |nodes| == |p.hops| + 1
    ensures nodes[|p.hops|] == CurrentTail(p)
  {
    [p.transaction.from] + seq(|p.hops|, i requires 0 <= i < |p.hops| => p.hops[i].to)
  }

  predicate HasPendingHop(p: PathState) {
    p.hops != [] && p.hops[|p.hops| - 1].receiverSignature.None?
  }

  function CurrentTail(p: PathState): string {
    if p.hops == [] then p.transaction.from else p.hops[|p.hops| - 1].to
  }

  /** The transaction bytes a path commits to. */
  function TxBytes(w: World, p: PathState): Message {
    HashBytes(w.sha3, p.transaction.hash)
  }

  /** The commitment to nodes 0..idx. */
  function ChainAt(w: World, p: PathState, idx: nat): Digest
    requires idx <= |p.hops|
  {
    ChainOf(TxBytes(w, p), p.chainId, p.epoch, NodeSequence(p)[..idx + 1])
  }

  // ----- signatures

  function Sign(w: World, signer: string, message: Message): string {
    w.render(multiset{Signed(signer, message)})
  }

  predicate SignatureVerifies(w: World, message: Message, signature: string, address: string) {
    w.parse(signature) == Some(multiset{Signed(address, message)})
  }

  // ----- hop operations

  predicate VerifyHop(w: World, p: PathState, idx: nat, requireReceiver: bool)
    requires idx < |p.hops|
  {
    var hop, nodes := p.hops[idx], NodeSequence(p);
    var message := EdgeStatement(ChainAt(w, p, idx), hop.from, hop.to);
    && hop.prefix == HexOf(ChainAt(w, p, idx))
    && nodes[idx] == hop.from && nodes[idx + 1] == hop.to
    && hop.from in w.registered
    && SignatureVerifies(w, message, hop.senderSignature, hop.from)
    && (requireReceiver ==>
          && hop.receiverSignature.Some?
          && hop.to in w.registered
          && SignatureVerifies(w, message, hop.receiverSignature.value, hop.to))
  }

  /** `append_outgoing_hop`: the new path, or None when the call returns false and changes nothing. */
  function AppendHop(w: World, p: PathState, to: string, sender: string): Option<PathState> {
    if HasPendingHop(p) then None
    else if CurrentTail(p) != sender then None
    else if to in NodeSequence(p) then None
    else
      var prefix := ChainAt(w, p, |p.hops|);
      var hop := Hop(CurrentTail(p), to, HexOf(prefix),
                     Sign(w, sender, EdgeStatement(prefix, CurrentTail(p), to)), None);
      Some(p.(hops := p.hops + [hop]))
  }

  /** The process-wide receipt table: one commitment per (transaction, chain, epoch, receiver). */
  datatype Receipts = Receipts(commitments: map<string, Digest>, conflicts: map<string, nat>)

  function ReceiptKey(txHash: string, chainId: u64, epoch: u64, receiver: string): string {
    txHash + ":" + Decimal(chainId) + ":" + Decimal(epoch) + ":" + receiver
  }

  datatype Completion = Completion(ok: bool, path: PathState, receipts: Receipts)

  /** `complete_pending_hop`: checks the sender's signature, consults the table, countersigns. */
  function CompleteHop(w: World, r: Receipts, p: PathState, receiver: string): Completion {
    if p.hops == [] then Completion(p.transaction.from == receiver, p, r)
    else
      var last := |p.hops| - 1;
      var hop := p.hops[last];
      if hop.to != receiver then Completion(false, p, r)
      else if hop.receiverSignature.Some? then Completion(true, p, r)
      else if !VerifyHop(w, p, last, false) then Completion(false, p, r)
      else if hop.prefix.OtherText? then Completion(false, p, r)
      else
        var message := EdgeStatement(hop.prefix.digest, hop.from, hop.to);
        var key := ReceiptKey(p.transaction.hash, p.chainId, p.epoch, hop.to);
        var commitment := Sha3(message);
        if key in r.commitments && r.commitments[key] != commitment then
          var count := if key in r.conflicts then r.conflicts[key] + 1 else 1;
          Completion(false, p, r.(conflicts := r.conflicts[key := count]))
        else
          var signed := hop.(receiverSignature := Some(Sign(w, receiver, message)));
          Completion(true, p.(hops := p.hops[last := signed]), r.(commitments := r.commitments[key := commitment]))
  }

  predicate CompletedHopsVerify(w: World, p: PathState) {
    forall idx :: 0 <= idx < |p.hops| ==> p.hops[idx].receiverSignature.Some? && VerifyHop(w, p, idx, true)
  }

  /** `TransactionPaths::verify` */
  predicate VerifyPaths(w: World, p: PathState, currentAddress: string) {
    && TransactionVerifies(w, p.transaction)
    && NoRepeatedNodes(NodeSequence(p))
    && (p.hops == [] ==> currentAddress == p.transaction.from)
    && (p.hops != [] ==> CurrentTail(p) == currentAddress && CompletedHopsVerify(w, p))
  }

  // ----- aggregation

  /** All signatures of the hops, sender before receiver, or None if some text is missing or does not parse. */
  function CollectSignatures(w: World, hops: seq<Hop>): Option<multiset<Signed>> {
    if hops == [] then Some(multiset{})
    else
      var n := |hops| - 1;
      match CollectSignatures(w, hops[..n])
      case None => None
      case Some(sofar) =>
        match w.parse(hops[n].senderSignature)
        case None => None
        case Some(s) =>
          if hops[n].receiverSignature.None? then None
          else
            match w.parse(hops[n].receiverSignature.value)
            case None => None
            case Some(t) => Some(sofar + s + t)
  }

  /** `AggregatedSignedPaths::from_transaction_paths` */
  function FromTransactionPaths(w: World, p: PathState): PathRecord {
    var nodes := NodeSequence(p);
    var nonProposer := nodes[..|nodes| - 1];
    if |nodes| == 1 then PathRecord(p.chainId, p.epoch, "", [])
    else if !CompletedHopsVerify(w, p) then PathRecord(p.chainId, p.epoch, "", nonProposer)
    else
      match CollectSignatures(w, p.hops)
      case None => PathRecord(p.chainId, p.epoch, "", nonProposer)
      case Some(all) => PathRecord(p.chainId, p.epoch, w.render(all), nonProposer)
  }

  // ----- verification of a record

  function FullPath(record: PathRecord, miner: string): seq<string> {
    if record.paths != [] && record.paths[|record.paths| - 1] == miner then record.paths
    else record.paths + [miner]
  }

  /** The proposer is appended, except where the recorded path already ends with it. */
  lemma FullPathEndsWithMiner(record: PathRecord, miner: string)
    ensures var full := FullPath(record, miner);
            && full != [] && full[|full| - 1] == miner && record.paths <= full
            && (|full| == |record.paths| <==> record.paths != [] && record.paths[|record.paths| - 1] == miner)
            && |full| <= |record.paths| + 1
  {}

  /** Both ends of a hop sign its statement. */
  function AddHop(pairs: multiset<Signed>, sender: string, receiver: string, message: Message): multiset<Signed> {
    pairs + multiset{Signed(sender, message)} + multiset{Signed(receiver, message)}
  }

  /** The (signer, statement) pairs a full path stands for: two per hop. */
  function ExpectedPairs(bytes: Message, chainId: u64, epoch: u64, nodes: seq<string>): multiset<Signed> {
    if |nodes| <= 1 then multiset{}
    else
      var n := |nodes| - 1;
      var message := EdgeStatement(ChainOf(bytes, chainId, epoch, nodes[..n]), nodes[n - 1], nodes[n]);
      AddHop(ExpectedPairs(bytes, chainId, epoch, nodes[..n]), nodes[n - 1], nodes[n], message)
  }

  lemma ExpectedPairsSnoc(bytes: Message, chainId: u64, epoch: u64, nodes: seq<string>, i: nat)
    requires i + 1 < |nodes|
    ensures var message := EdgeStatement(ChainOf(bytes, chainId, epoch, nodes[..i + 1]), nodes[i], nodes[i + 1]);
            ExpectedPairs(bytes, chainId, epoch, nodes[..i + 2])
            == AddHop(ExpectedPairs(bytes, chainId, epoch, nodes[..i + 1]), nodes[i], nodes[i + 1], message)
  {
    assert nodes[..i + 2][..i + 1] == nodes[..i + 1];
  }

  /** Everything that is decided before the cache is looked at: Some(answer), or None to go on. */
  function Precheck(w: World, record: PathRecord, tx: Transaction, miner: string, epoch: u64): Option<bool> {
    var nodes := FullPath(record, miner);
    if record.epoch != epoch then Some(false)
    else if tx.from == miner && record.paths == [] then Some(TransactionVerifies(w, tx))
    else if record.paths == [] then Some(false)
    else if record.signature == "" then Some(false)
    else if !TransactionVerifies(w, tx) then Some(false)
    else if nodes[0] != tx.from then Some(false)
    else if !NoRepeatedNodes(nodes) then Some(false)
    else if |nodes| == 1 then Some(tx.from == nodes[0])
    else None
  }

  /**
   The cryptographic part; None when it gives up (unparsable signature, unregistered key) without a
   cacheable answer.
   */
  function AggregateCheck(w: World, record: PathRecord, txHash: string, miner: string): Option<bool> {
    var nodes := FullPath(record, miner);
    match w.parse(record.signature)
    case None => None
    case Some(signature) =>
      if exists i :: 0 <= i < |nodes| && nodes[i] !in w.registered then None
      else Some(signature == ExpectedPairs(HashBytes(w.sha3, txHash), record.chainId, record.epoch, nodes))
  }

  /** `verify_at_epoch_uncached` */
  predicate VerifyUncached(w: World, record: PathRecord, tx: Transaction, miner: string, epoch: u64) {
    match Precheck(w, record, tx, miner, epoch)
    case Some(answer) => answer
    case None => AggregateCheck(w, record, tx.hash, miner) == Some(true)
  }

  // ----- the in-flight object

  /** The receipt table as the process-wide mutable object it is. */
  class ReceiptTable {
    var commitments: map<string, Digest>
    var conflicts: map<string, nat>

    constructor ()
      ensures View() == Receipts(map[], map[])
    {
      commitments, conflicts := map[], map[];
    }

    function View(): Receipts
      reads this
    {
      Receipts(commitments, conflicts)
    }
  }

  class TransactionPaths {
    const transaction: Transaction
    const chainId: u64
    const epoch: u64
    var hops: seq<Hop>

    constructor (transaction: Transaction, epoch: u64, chainId: u64)
      ensures View() == PathState(transaction, chainId, epoch, [])
    {
      this.transaction, this.chainId, this.epoch, this.hops := transaction, chainId, epoch, [];
    }

    function View(): PathState
      reads this
    {
      PathState(transaction, chainId, epoch, hops)
    }

    method AppendOutgoingHop(w: World, to: string, sender: string) returns (ok: bool)
      modifies this
      ensures ok == AppendHop(w, old(View()), to, sender).Some?
      ensures View() == if ok then AppendHop(w, old(View()), to, sender).value else old(View())
    {
      if HasPendingHop(View()) {
        return false;
      }
      var from := CurrentTail(View());
      if from != sender {
        return false;
      }
      var nodes := NodeSequence(View());
      if to in nodes {
        return false;
      }
      var prefix := ChainValueForNodes(w.sha3, transaction.hash, chainId, epoch, nodes, |hops|);
      var message := EdgeStatement(prefix, from, to);
      hops := hops + [Hop(from, to, HexOf(prefix), Sign(w, sender, message), None)];
      return true;
    }

    method CompletePendingHop(w: World, table: ReceiptTable, receiver: string) returns (ok: bool)
      modifies this, table
      ensures Completion(ok, View(), table.View())
           == CompleteHop(w, old(table.View()), old(View()), receiver)
    {
      if hops == [] {
        return transaction.from == receiver;
      }
      var hop := hops[|hops| - 1];
      if hop.to != receiver {
        return false;
      }
      if hop.receiverSignature.Some? {
        return true;
      }
      if !VerifyHop(w, View(), |hops| - 1, false) {
        return false;
      }
      if hop.prefix.OtherText? {
        return false;
      }
      var message := EdgeStatement(hop.prefix.digest, hop.from, hop.to);
      var key := ReceiptKey(transaction.hash, chainId, epoch, hop.to);
      var commitment := Sha3(message);
      if key in table.commitments {
        if table.commitments[key] != commitment {
          var count := if key in table.conflicts then table.conflicts[key] + 1 else 1;
          table.conflicts := table.conflicts[key := count];
          return false;
        }
        assert table.commitments == table.commitments[key := commitment];
      } else {
        table.commitments := table.commitments[key := commitment];
      }
      var signature := Sign(w, receiver, message);
      hops := hops[|hops| - 1 := hop.(receiverSignature := Some(signature))];
      return true;
    }

    method VerifyCompletedHops(w: World) returns (ok: bool)
      ensures ok == CompletedHopsVerify(w, View())
    {
      hide VerifyHop;
      var p := View();
      for idx := 0 to |hops|
        invariant forall i :: 0 <= i < idx ==> p.hops[i].receiverSignature.Some? && VerifyHop(w, p, i, true)
      {
        if hops[idx].receiverSignature.None? {
          return false;
        }
        if !VerifyHop(w, p, idx, true) {
          return false;
        }
      }
      return true;
    }

    /** `has_repeated_identities` */
    method HasRepeatedIdentities() returns (repeated: bool)
      ensures repeated == !NoRepeatedNodes(NodeSequence(View()))
    {
      repeated := HasRepeatedNodes(NodeSequence(View()));
    }

    method ToAggregatedSignedPaths(w: World) returns (record: PathRecord)
      ensures record == FromTransactionPaths(w, View())
    {
      var nodes := NodeSequence(View());
      var nonProposer := nodes[..|nodes| - 1];
      if |nodes| == 1 {
        return PathRecord(chainId, epoch, "", []);
      }
      var complete := VerifyCompletedHops(w);
      if !complete {
        return PathRecord(chainId, epoch, "", nonProposer);
      }
      var signatures := AggregateSignatures(w, View());
      return PathRecord(chainId, epoch, w.render(signatures), nonProposer);
    }
  }

  /** Every verified hop contributes exactly its two statements. */
  lemma VerifiedSignaturesParse(w: World, p: PathState, i: nat)
    requires i < |p.hops| && VerifyHop(w, p, i, true)
    ensures p.hops[i].receiverSignature.Some?
    ensures w.parse(p.hops[i].senderSignature).Some? && w.parse(p.hops[i].receiverSignature.value).Some?
  {}

  method AggregateSignatures(w: World, p: PathState) returns (signatures: multiset<Signed>)
    requires CompletedHopsVerify(w, p)
    ensures CollectSignatures(w, p.hops) == Some(signatures)
  {
    hide VerifyHop;
    signatures := multiset{};
    for i := 0 to |p.hops|
      invariant CollectSignatures(w, p.hops[..i]) == Some(signatures)
    {
      assert p.hops[..i + 1][..i] == p.hops[..i];
      VerifiedSignaturesParse(w, p, i);
      var sender := w.parse(p.hops[i].senderSignature).value;
      var receiver := w.parse(p.hops[i].receiverSignature.value).value;
      signatures := signatures + sender + receiver;
    }
    assert p.hops[..|p.hops|] == p.hops;
  }

  /** `has_repeated_nodes`: a scan with a set of seen nodes. */
  method HasRepeatedNodes(nodes: seq<string>) returns (repeated: bool)
    ensures repeated == !NoRepeatedNodes(nodes)
  {
    var seen: set<string> := {};
    for i := 0 to |nodes|
      invariant seen == set j | 0 <= j < i :: nodes[j]
      invariant NoRepeatedNodes(nodes[..i])
    {
      if nodes[i] in seen {
        return true;
      }
      seen := seen + {nodes[i]};
    }
    assert nodes[..|nodes|] == nodes;
    return false;
  }
}
