/**
 Records shared by the protocol parts, and the cryptographic world they live in.
 Signatures are ideal: a signature text parses to the multiset of
 (signer, message) pairs it aggregates, one key per address.
 */
module Ledger {
  import opened Encoding

  datatype Transaction = Transaction(
    from: string,
    to: string,
    amount: int,
    fee: real,
    irrecoverableCost: real,
    hash: string,
    signature: string,
    timestamp: u64,
    data: seq<nat>)

  /** A block-level path record (`AggregatedSignedPaths`); the proposer is not stored in `paths`. */
  datatype PathRecord = PathRecord(chainId: u64, epoch: u64, signature: string, paths: seq<string>)

  datatype Header = Header(
    index: nat,
    epoch: u64,
    slot: nat,
    hash: string,
    parentHash: string,
    timestamp: nat,
    merkleRoot: string,
    pathRoot: string,
    miner: string)

  datatype Block = Block(header: Header, transactions: seq<Transaction>, paths: seq<PathRecord>)

  datatype Validator = Validator(address: string, stake: real)

  datatype BalanceDelta = BalanceDelta(address: string, amount: real)

  /** One ideal BLS signature. */
  datatype Signed = Signed(signer: string, message: Message)

  datatype World = World(
    sha3: ByteView,                                            // bytes of a SHA3-256 digest
    txJson: Transaction -> string,                             // JSON text of a transaction
    headerJson: Header -> string,                              // JSON text of a header
    recordJson: PathRecord -> string,                          // JSON text of a path record
    registered: set<string>,                                   // addresses in the BLS key registry
    recover: (Bytes32, string) -> Option<string>,              // address recovered from an ECDSA signature
    parse: string -> Option<multiset<Signed>>,                 // BLS signature from text
    render: multiset<Signed> -> string)                        // text of a BLS (aggregate) signature

  function TextHash(w: World, text: string): string {
    DigestText(w.sha3, Sha3(Text(text)))
  }

  /**
   What the serialiser guarantees: JSON of a record is an object; headers and path records are
   recovered from theirs.
   */
  ghost predicate FaithfulJson(w: World) {
    && (forall tx: Transaction :: w.txJson(tx) != "" && w.txJson(tx)[0] == '{')
    && (forall r: PathRecord :: w.recordJson(r) != "" && w.recordJson(r)[0] == '{')
    && (forall a: Header, b: Header :: w.headerJson(a) == w.headerJson(b) ==> a == b)
    && (forall a: PathRecord, b: PathRecord :: w.recordJson(a) == w.recordJson(b) ==> a == b)
  }

  /** Rendering a signature is faithful: it is never empty text and parses back to itself. */
  ghost predicate IdealSignatures(w: World) {
    forall s: multiset<Signed> :: s != multiset{} ==> w.render(s) != "" && w.parse(w.render(s)) == Some(s)
  }

  /** The text a transaction's hash is taken of: the fields alone, without hash, signature and data. */
  function HashedText(w: World, tx: Transaction): string {
    w.txJson(tx.(hash := "", signature := "", data := []))
  }

  /** `Transaction::verify`: the hash is recomputed and signed by `from`. */
  predicate TransactionVerifies(w: World, tx: Transaction) {
    && tx.hash == TextHash(w, HashedText(w, tx))
    && w.recover(w.sha3(Sha3(Text(HashedText(w, tx)))), tx.signature) == Some(tx.from)
  }

  /**
   `Transaction::with_costs`: the hash is the text of the digest of the blank transaction, the
   signature is on its bytes.
   */
  function NewTransaction(w: World, from: string, to: string, amount: int, fee: real, irrecoverableCost: real,
                          timestamp: u64, sign: Bytes32 -> string): Transaction
  {
    var blank := Transaction(from, to, amount, fee, irrecoverableCost, "", "", timestamp, []);
    var digest := Sha3(Text(w.txJson(blank)));
    blank.(hash := DigestText(w.sha3, digest), signature := sign(w.sha3(digest)))
  }

  /** It verifies if and only if the signature recovers to its sender. */
  lemma NewTransactionVerifies(w: World, from: string, to: string, amount: int, fee: real, irrecoverableCost: real,
                               timestamp: u64, sign: Bytes32 -> string)
    ensures var tx := NewTransaction(w, from, to, amount, fee, irrecoverableCost, timestamp, sign);
            var bytes := w.sha3(Sha3(Text(w.txJson(tx.(hash := "", signature := "")))));
            TransactionVerifies(w, tx) <==> w.recover(bytes, sign(bytes)) == Some(from)
  {
    var tx := NewTransaction(w, from, to, amount, fee, irrecoverableCost, timestamp, sign);
    assert tx.(hash := "", signature := "", data := []) == tx.(hash := "", signature := "");
  }

  /** A verifying transaction is signed by its sender, on the bytes its hash text decodes to. */
  lemma SignedBySender(w: World, tx: Transaction, bytes: Bytes32)
    requires TransactionVerifies(w, tx) && HexDecode(tx.hash) == Some(Octets(bytes))
    ensures w.recover(bytes, tx.signature) == Some(tx.from)
  {
    var digest := Sha3(Text(HashedText(w, tx)));
    DigestTextIsHex(w.sha3, digest);
    OctetsInjective(bytes, w.sha3(digest));
  }

  /** Without a collision of the two digests, one hash binds the JSON of everything but hash, signature and data. */
  lemma HashBindsJson(w: World, a: Transaction, b: Transaction)
    requires TransactionVerifies(w, a) && TransactionVerifies(w, b) && a.hash == b.hash
    requires var x, y := Sha3(Text(w.txJson(a.(hash := "", signature := "", data := [])))),
                         Sha3(Text(w.txJson(b.(hash := "", signature := "", data := []))));
             w.sha3(x) == w.sha3(y) ==> x == y
    ensures w.txJson(a.(hash := "", signature := "", data := []))
            == w.txJson(b.(hash := "", signature := "", data := []))
  {
    var x, y := Sha3(Text(HashedText(w, a))), Sha3(Text(HashedText(w, b)));
    DigestTextIsHex(w.sha3, x);
    DigestTextIsHex(w.sha3, y);
    OctetsInjective(w.sha3(x), w.sha3(y));
    TextInjective(HashedText(w, a), HashedText(w, b));
  }

  /** The data field is bound by neither hash nor signature. */
  lemma DataIsUnbound(w: World, tx: Transaction, data: seq<nat>)
    ensures TransactionVerifies(w, tx.(data := data)) <==> TransactionVerifies(w, tx)
  {
    assert tx.(data := data).(hash := "", signature := "", data := []) == tx.(hash := "", signature := "", data := []);
  }

  lemma VerifiedHashIsCanonical(w: World, tx: Transaction)
    requires TransactionVerifies(w, tx)
    ensures CanonicalHash(tx.hash)
  {
    DigestTextIsHex(w.sha3, Sha3(Text(HashedText(w, tx))));
  }

  /** `has_repeated_nodes`, negated. */
  predicate NoRepeatedNodes(nodes: seq<string>) {
    forall i, j :: 0 <= i < j < |nodes| ==> nodes[i] != nodes[j]
  }
}
