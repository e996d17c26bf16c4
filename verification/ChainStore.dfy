/**
 The pruned chain store: `add_block` and `pop_block` over a bounded window of
 retained blocks and an index of transaction hashes that is never pruned.
 Proved: over every run the window is a suffix of the accepted chain, the index
 is exactly the accepted hashes, and the backward scans equal full filters.
 */
module ChainStore {
  import opened Encoding
  import opened Ledger
  import opened Merkle

  datatype BlockChainError =
    | InvalidBlock | ParentHashMismatch | IndexMismatch | EpochError | SlotError
    | DuplicateBlocksReceived | TransactionExists | IndexTooSmall

  datatype Result<+T> = Ok(value: T) | Err(error: BlockChainError)

  // ----- blocks

  function HashesOf(b: Block): seq<string> {
    seq(|b.transactions|, i requires 0 <= i < |b.transactions| => b.transactions[i].hash)
  }

  function TxSet(b: Block): set<string> {
    set h | h in HashesOf(b)
  }

  function RecordHashes(w: World, b: Block): seq<string> {
    seq(|b.paths|, i requires 0 <= i < |b.paths| => TextHash(w, w.recordJson(b.paths[i])))
  }

  /** `Block::verify_base` */
  predicate BlockVerifies(w: World, b: Block) {
    && |b.paths| <= |b.transactions|
    && (forall i :: 0 <= i < |b.transactions| ==> TransactionVerifies(w, b.transactions[i]))
    && Root(w.sha3, HashesOf(b)) == b.header.merkleRoot
    && Root(w.sha3, RecordHashes(w, b)) == b.header.pathRoot
    && b.header.hash == TextHash(w, w.headerJson(b.header.(hash := "")))
  }

  /** `Block::new`, with the time as an argument; None where it returns an error. */
  function Assemble(w: World, index: nat, epoch: u64, slot: nat, parentHash: string, timestamp: nat, miner: string,
                    transactions: seq<Transaction>, paths: seq<PathRecord>): Option<Block>
  {
    if |paths| > |transactions| then None
    else if exists i :: 0 <= i < |transactions| && !TransactionVerifies(w, transactions[i]) then None
    else
      var b := Block(Header(index, epoch, slot, "", parentHash, timestamp, "", "", miner), transactions, paths);
      var header := b.header.(merkleRoot := Root(w.sha3, HashesOf(b)), pathRoot := Root(w.sha3, RecordHashes(w, b)));
      Some(b.(header := header.(hash := TextHash(w, w.headerJson(header)))))
  }

  /** A block verifies if and only if it is what assembling its own contents gives. */
  lemma VerifiesIffAssembled(w: World, b: Block)
    ensures BlockVerifies(w, b)
       <==> Assemble(w, b.header.index, b.header.epoch, b.header.slot, b.header.parentHash, b.header.timestamp,
                     b.header.miner, b.transactions, b.paths) == Some(b)
  {
    hide TransactionVerifies, Root, TextHash;
    var h := b.header;
    var made := Assemble(w, h.index, h.epoch, h.slot, h.parentHash, h.timestamp, h.miner, b.transactions, b.paths);
    if made.Some? {
      var a := Block(Header(h.index, h.epoch, h.slot, "", h.parentHash, h.timestamp, "", "", h.miner), b.transactions,
                     b.paths);
      assert HashesOf(a) == HashesOf(b) && RecordHashes(w, a) == RecordHashes(w, b);
      var blank := h.(hash := "", merkleRoot := Root(w.sha3, HashesOf(b)),
                      pathRoot := Root(w.sha3, RecordHashes(w, b)));
      assert made.value.header == blank.(hash := TextHash(w, w.headerJson(blank)));
      if made == Some(b) || BlockVerifies(w, b) {
        assert h.(hash := "") == blank;
        assert h == blank.(hash := h.hash);
      }
    }
  }

  /** By the time a block's roots are computed its leaves decode, so the computation does not panic. */
  lemma LeavesDecode(w: World, b: Block)
    requires forall i :: 0 <= i < |b.transactions| ==> TransactionVerifies(w, b.transactions[i])
    ensures AllHex(HashesOf(b)) && AllHex(RecordHashes(w, b))
  {
    hide HexDecode;
    forall i | 0 <= i < |b.transactions|
      ensures HexDecode(HashesOf(b)[i]).Some?
    {
      DigestTextIsHex(w.sha3, Sha3(Text(HashedText(w, b.transactions[i]))));
    }
    forall i | 0 <= i < |b.paths|
      ensures HexDecode(RecordHashes(w, b)[i]).Some?
    {
      DigestTextIsHex(w.sha3, Sha3(Text(w.recordJson(b.paths[i]))));
    }
  }

  // ----- the store

  datatype Store = Store(blocks: seq<Block>, index: set<string>, limit: nat)

  function Last(blocks: seq<Block>): Block
    requires blocks != []
  {
    blocks[|blocks| - 1]
  }

  function Prune(blocks: seq<Block>, limit: nat): seq<Block> {
    if |blocks| > limit then blocks[1..] else blocks
  }

  /** The checks `add_block` makes on a non-empty chain, in order. */
  function CheckBlock(w: World, last: Header, index: set<string>, b: Block): Option<BlockChainError> {
    if last.index + 1 > b.header.index then Some(IndexTooSmall)
    else if !BlockVerifies(w, b) then Some(InvalidBlock)
    else if last.hash == b.header.hash then Some(DuplicateBlocksReceived)
    else if last.hash != b.header.parentHash then Some(ParentHashMismatch)
    else if last.index + 1 != b.header.index then Some(IndexMismatch)
    else if last.epoch > b.header.epoch then Some(EpochError)
    else if last.epoch == b.header.epoch && last.slot > b.header.slot then Some(SlotError)
    else if !(TxSet(b) !! index) then Some(TransactionExists)
    else None
  }

  /** `add_block`: the new store, or the error with which nothing changes. */
  function Accept(w: World, s: Store, b: Block): Result<Store> {
    if s.blocks == [] then
      if BlockVerifies(w, b) then Ok(Store([b], s.index + TxSet(b), s.limit)) else Err(InvalidBlock)
    else
      match CheckBlock(w, Last(s.blocks).header, s.index, b)
      case Some(e) => Err(e)
      case None => Ok(Store(Prune(s.blocks + [b], s.limit), s.index + TxSet(b), s.limit))
  }

  /** What each refusal says about the block; a refused block changes nothing. */
  lemma RefusalReason(w: World, s: Store, b: Block)
    requires s.blocks != [] && Accept(w, s, b).Err?
    ensures var last, h := Last(s.blocks).header, b.header;
            match Accept(w, s, b).error
            case IndexTooSmall => h.index <= last.index
            case InvalidBlock => h.index > last.index && !BlockVerifies(w, b)
            case DuplicateBlocksReceived => BlockVerifies(w, b) && h.hash == last.hash
            case ParentHashMismatch => BlockVerifies(w, b) && h.hash != last.hash && h.parentHash != last.hash
            case IndexMismatch => BlockVerifies(w, b) && h.parentHash == last.hash && h.index > last.index + 1
            case EpochError => BlockVerifies(w, b) && h.parentHash == last.hash && h.epoch < last.epoch
            case SlotError => BlockVerifies(w, b) && h.parentHash == last.hash && h.epoch == last.epoch
              && h.slot < last.slot
            case TransactionExists => BlockVerifies(w, b) && h.parentHash == last.hash && h.index == last.index + 1
                                      && exists i :: 0 <= i < |b.transactions| && b.transactions[i].hash in s.index
  {
    hide BlockVerifies;
    if Accept(w, s, b).error == TransactionExists {
      var h :| h in TxSet(b) && h in s.index;
      var i :| 0 <= i < |HashesOf(b)| && HashesOf(b)[i] == h;
      assert b.transactions[i].hash in s.index;
    }
  }

  /** `pop_block` */
  function Drop(s: Store): Store {
    if s.blocks == [] then s
    else Store(s.blocks[..|s.blocks| - 1], s.index - TxSet(Last(s.blocks)), s.limit)
  }

  // ----- accepted chains

  ghost predicate LexLeq(a: Header, b: Header) {
    a.epoch < b.epoch || (a.epoch == b.epoch && a.slot <= b.slot)
  }

  /** What a block adds to its parent. */
  ghost predicate Extends(w: World, a: Block, b: Block) {
    && BlockVerifies(w, b)
    && b.header.parentHash == a.header.hash && b.header.hash != a.header.hash
    && b.header.index == a.header.index + 1
    && LexLeq(a.header, b.header)
  }

  /** A chain every block of which `add_block` accepts after its predecessors; the first one is taken as given. */
  ghost predicate AcceptedChain(w: World, chain: seq<Block>) {
    && chain != []
    && (forall i, j :: 0 <= i && j == i + 1 < |chain| ==> Extends(w, chain[i], chain[j]))
    && (forall i, j :: 0 <= i < j < |chain| ==> TxSet(chain[i]) !! TxSet(chain[j]))
  }

  /** The transaction hashes of a list of blocks. */
  function AllHashes(chain: seq<Block>): set<string> {
    if chain == [] then {} else AllHashes(chain[..|chain| - 1]) + TxSet(chain[|chain| - 1])
  }

  lemma {:induction false} AllHashesMember(chain: seq<Block>, h: string)
    ensures h in AllHashes(chain) <==> exists i :: 0 <= i < |chain| && h in TxSet(chain[i])
  {
    if chain != [] {
      var n := |chain| - 1;
      AllHashesMember(chain[..n], h);
      if h in AllHashes(chain[..n]) {
        var i :| 0 <= i < n && h in TxSet(chain[..n][i]);
        assert h in TxSet(chain[i]);
      }
      if i :| 0 <= i < |chain| && h in TxSet(chain[i]) {
        if i < n {
          assert h in TxSet(chain[..n][i]);
        }
      }
    }
  }

  /** Some transaction of the blocks has the given hash. */
  ghost predicate Carries(blocks: seq<Block>, h: string) {
    exists i, j :: 0 <= i < |blocks| && 0 <= j < |blocks[i].transactions| && blocks[i].transactions[j].hash == h
  }

  lemma IndexedIffCarried(blocks: seq<Block>, h: string)
    ensures h in AllHashes(blocks) <==> Carries(blocks, h)
  {
    AllHashesMember(blocks, h);
    if h in AllHashes(blocks) {
      var i :| 0 <= i < |blocks| && h in TxSet(blocks[i]);
      var j :| 0 <= j < |HashesOf(blocks[i])| && HashesOf(blocks[i])[j] == h;
      assert blocks[i].transactions[j].hash == h;
    }
    if i, j :| 0 <= i < |blocks| && 0 <= j < |blocks[i].transactions| && blocks[i].transactions[j].hash == h {
      assert HashesOf(blocks[i])[j] == h;
      assert h in TxSet(blocks[i]);
    }
  }

  /** The invariant: the retained window is a suffix of the accepted chain and the index covers all of it. */
  ghost predicate Inv(w: World, s: Store, accepted: seq<Block>) {
    && AcceptedChain(w, accepted)
    && 1 <= |s.blocks| <= s.limit && |s.blocks| <= |accepted|
    && s.blocks == accepted[|accepted| - |s.blocks|..]
    && s.index == AllHashes(accepted)
  }

  lemma InvLast(w: World, s: Store, accepted: seq<Block>)
    requires Inv(w, s, accepted)
    ensures Last(s.blocks) == Last(accepted)
  {}

  lemma ExtendChain(w: World, chain: seq<Block>, b: Block)
    requires AcceptedChain(w, chain) && Extends(w, Last(chain), b) && TxSet(b) !! AllHashes(chain)
    ensures AcceptedChain(w, chain + [b]) && AllHashes(chain + [b]) == AllHashes(chain) + TxSet(b)
  {
    hide Extends;
    var all := chain + [b];
    assert all[..|all| - 1] == chain;
    forall i | 0 <= i < |chain|
      ensures TxSet(chain[i]) !! TxSet(b)
    {
      forall h | h in TxSet(chain[i])
        ensures h !in TxSet(b)
      {
        AllHashesMember(chain, h);
      }
    }
  }

  /** `add_block` keeps the invariant and appends exactly the block to the accepted chain. */
  lemma AddKeepsInv(w: World, s: Store, accepted: seq<Block>, b: Block)
    requires Inv(w, s, accepted) && Accept(w, s, b).Ok?
    ensures Inv(w, Accept(w, s, b).value, accepted + [b])
  {
    hide BlockVerifies, TxSet;
    InvLast(w, s, accepted);
    ExtendChain(w, accepted, b);
    var all, r := accepted + [b], s.blocks + [b];
    assert r == all[|all| - |r|..];
    assert r[1..] == all[|all| - (|r| - 1)..];
  }

  lemma PrefixAccepted(w: World, chain: seq<Block>, n: nat)
    requires AcceptedChain(w, chain) && 1 <= n <= |chain|
    ensures AcceptedChain(w, chain[..n])
  {
    hide Extends;
  }

  /** Dropping a suffix of the accepted chain removes exactly that suffix's hashes. */
  lemma HashesSplit(w: World, chain: seq<Block>, n: nat)
    requires AcceptedChain(w, chain) && n <= |chain|
    ensures AllHashes(chain) == AllHashes(chain[..n]) + AllHashes(chain[n..])
    ensures AllHashes(chain[..n]) !! AllHashes(chain[n..])
  {
    hide AcceptedChain;
    forall h
      ensures h in AllHashes(chain) <==> h in AllHashes(chain[..n]) || h in AllHashes(chain[n..])
    {
      HashSide(chain, n, h);
    }
    forall h | h in AllHashes(chain[..n])
      ensures h !in AllHashes(chain[n..])
    {
      HashOnOneSide(w, chain, n, h);
    }
  }

  lemma HashOnOneSide(w: World, chain: seq<Block>, n: nat, h: string)
    requires AcceptedChain(w, chain) && n <= |chain|
    requires h in AllHashes(chain[..n])
    ensures h !in AllHashes(chain[n..])
  {
    hide Extends, TxSet;
    AllHashesMember(chain[..n], h);
    AllHashesMember(chain[n..], h);
    var i :| 0 <= i < n && h in TxSet(chain[..n][i]);
    assert h in TxSet(chain[i]);
    forall j | 0 <= j < |chain| - n
      ensures h !in TxSet(chain[n..][j])
    {
      assert chain[n..][j] == chain[n + j];
      assert TxSet(chain[i]) !! TxSet(chain[n + j]);
    }
  }

  lemma HashSide(chain: seq<Block>, n: nat, h: string)
    requires n <= |chain|
    ensures h in AllHashes(chain) <==> h in AllHashes(chain[..n]) || h in AllHashes(chain[n..])
  {
    hide TxSet;
    AllHashesMember(chain, h);
    AllHashesMember(chain[..n], h);
    AllHashesMember(chain[n..], h);
    if h in AllHashes(chain[..n]) {
      var i :| 0 <= i < n && h in TxSet(chain[..n][i]);
      assert h in TxSet(chain[i]);
    }
    if h in AllHashes(chain[n..]) {
      var j :| 0 <= j < |chain| - n && h in TxSet(chain[n..][j]);
      assert h in TxSet(chain[n + j]);
    }
    if i :| 0 <= i < |chain| && h in TxSet(chain[i]) {
      if i < n {
        assert h in TxSet(chain[..n][i]);
      } else {
        assert h in TxSet(chain[n..][i - n]);
      }
    }
  }

  /** Cutting the window back to its first n blocks, with the hashes of the rest taken out of the index. */
  function Truncate(s: Store, n: nat): Store
    requires n <= |s.blocks|
  {
    Store(s.blocks[..n], s.index - AllHashes(s.blocks[n..]), s.limit)
  }

  /** As long as one retained block stays, a truncation restores the store of the shorter chain. */
  lemma TruncateKeepsInv(w: World, s: Store, accepted: seq<Block>, n: nat)
    requires Inv(w, s, accepted) && 1 <= n <= |s.blocks|
    ensures Inv(w, Truncate(s, n), accepted[..|accepted| - |s.blocks| + n])
  {
    hide Extends, TxSet, AcceptedChain;
    var cut := |accepted| - |s.blocks| + n;
    PrefixAccepted(w, accepted, cut);
    HashesSplit(w, accepted, cut);
    assert s.blocks[n..] == accepted[cut..];
    assert s.blocks[..n] == accepted[..cut][cut - n..];
  }

  /** `pop_block` undoes the last addition as long as it leaves a block. */
  lemma PopKeepsInv(w: World, s: Store, accepted: seq<Block>)
    requires Inv(w, s, accepted) && |s.blocks| >= 2
    ensures Inv(w, Drop(s), accepted[..|accepted| - 1])
  {
    hide Extends, TxSet, AcceptedChain;
    var n := |s.blocks| - 1;
    TruncateKeepsInv(w, s, accepted, n);
    assert s.blocks[n..] == [Last(s.blocks)];
    assert AllHashes([Last(s.blocks)][..0]) == {};
    assert AllHashes([Last(s.blocks)]) == TxSet(Last(s.blocks));
  }

  /** Removal is the inverse of an addition that pruned nothing. */
  lemma PopUndoesAdd(w: World, s: Store, b: Block)
    requires 1 <= |s.blocks| < s.limit && Accept(w, s, b).Ok?
    ensures Drop(Accept(w, s, b).value) == s
  {
    hide BlockVerifies, TxSet;
    assert (s.blocks + [b])[..|s.blocks|] == s.blocks;
    assert s.index + TxSet(b) - TxSet(b) == s.index;
  }

  // ----- runs

  datatype Op = Add(block: Block) | Pop

  /** The store and the accepted chain after a run; failed additions change nothing. */
  datatype Traced = Traced(store: Store, accepted: seq<Block>)

  function Start(genesis: Block, limit: nat): Traced {
    Traced(Store([genesis], TxSet(genesis), limit), [genesis])
  }

  function Step(w: World, t: Traced, op: Op): Traced {
    match op
    case Add(b) =>
      (match Accept(w, t.store, b)
       case Ok(s) => Traced(s, t.accepted + [b])
       case Err(_) => t)
    case Pop =>
      Traced(Drop(t.store), if t.accepted == [] then [] else t.accepted[..|t.accepted| - 1])
  }

  function Run(w: World, genesis: Block, limit: nat, ops: seq<Op>): Traced {
    if ops == [] then Start(genesis, limit)
    else Step(w, Run(w, genesis, limit, ops[..|ops| - 1]), ops[|ops| - 1])
  }

  ghost predicate NeverEmpties(w: World, genesis: Block, limit: nat, ops: seq<Op>) {
    forall i :: 0 <= i <= |ops| ==> Run(w, genesis, limit, ops[..i]).store.blocks != []
  }

  /** The chain invariant over every run of additions and removals that never empties the window. */
  lemma {:induction false} RunKeepsInv(w: World, genesis: Block, limit: nat, ops: seq<Op>)
    requires limit >= 1 && NeverEmpties(w, genesis, limit, ops)
    ensures Inv(w, Run(w, genesis, limit, ops).store, Run(w, genesis, limit, ops).accepted)
  {
    hide TxSet, Extends, BlockVerifies, Inv, Accept, Drop;
    if ops == [] {
      StartIsValid(w, genesis, limit);
    } else {
      var n := |ops| - 1;
      assert forall i :: 0 <= i <= n ==> ops[..n][..i] == ops[..i];
      RunKeepsInv(w, genesis, limit, ops[..n]);
      assert ops[..|ops|] == ops;
      StepKeepsInv(w, Run(w, genesis, limit, ops[..n]), ops[n]);
    }
  }

  lemma StartIsValid(w: World, genesis: Block, limit: nat)
    requires limit >= 1
    ensures Inv(w, Start(genesis, limit).store, [genesis])
  {
    hide TxSet, Extends;
    assert [genesis][..0] == [];
    assert AllHashes([genesis]) == AllHashes([]) + TxSet(genesis);
  }

  lemma StepKeepsInv(w: World, t: Traced, op: Op)
    requires Inv(w, t.store, t.accepted)
    requires Step(w, t, op).store.blocks != []
    ensures Inv(w, Step(w, t, op).store, Step(w, t, op).accepted)
  {
    hide TxSet, Extends, BlockVerifies, AcceptedChain;
    match op {
      case Add(b) =>
        if Accept(w, t.store, b).Ok? {
          AddKeepsInv(w, t.store, t.accepted, b);
        }
      case Pop =>
        PopKeepsInv(w, t.store, t.accepted);
    }
  }

  /** No transaction hash occurs in two different blocks of the accepted chain, pruned ones included. */
  lemma NoHashTwice(w: World, s: Store, accepted: seq<Block>, i: nat, j: nat, h: string)
    requires Inv(w, s, accepted) && i < |accepted| && j < |accepted|
    requires h in TxSet(accepted[i]) && h in TxSet(accepted[j])
    ensures i == j && h in s.index
  {
    AllHashesMember(accepted, h);
  }

  // ----- backward scans

  /** `iter().rev().take_while(p)`, put back in order. */
  function SuffixWhile(blocks: seq<Block>, p: Block -> bool): seq<Block> {
    if blocks == [] || !p(Last(blocks)) then []
    else SuffixWhile(blocks[..|blocks| - 1], p) + [Last(blocks)]
  }

  function Filter(blocks: seq<Block>, p: Block -> bool): seq<Block> {
    if blocks == [] then []
    else Filter(blocks[..|blocks| - 1], p) + (if p(Last(blocks)) then [Last(blocks)] else [])
  }

  lemma {:induction false} FilterNothing(blocks: seq<Block>, p: Block -> bool)
    requires forall i :: 0 <= i < |blocks| ==> !p(blocks[i])
    ensures Filter(blocks, p) == []
  {
    if blocks != [] {
      FilterNothing(blocks[..|blocks| - 1], p);
    }
  }

  lemma {:induction false} ScanIsFilter(blocks: seq<Block>, p: Block -> bool)
    requires forall i, j :: 0 <= i <= j < |blocks| && p(blocks[i]) ==> p(blocks[j])
    ensures SuffixWhile(blocks, p) == Filter(blocks, p)
  {
    if blocks != [] {
      if p(Last(blocks)) {
        ScanIsFilter(blocks[..|blocks| - 1], p);
      } else {
        FilterNothing(blocks, p);
      }
    }
  }

  function InEpoch(epoch: nat): Block -> bool {
    (b: Block) => b.header.epoch == epoch
  }

  function InSlot(epoch: nat, slot: nat): Block -> bool {
    (b: Block) => b.header.slot == slot && b.header.epoch == epoch
  }

  lemma {:induction false} ChainIsOrdered(w: World, chain: seq<Block>, i: nat, j: nat)
    requires AcceptedChain(w, chain) && i <= j < |chain|
    ensures LexLeq(chain[i].header, chain[j].header)
    decreases j
  {
    hide BlockVerifies;
    if i < j {
      ChainIsOrdered(w, chain, i, j - 1);
      assert Extends(w, chain[j - 1], chain[j]);
    }
  }

  lemma WindowIsOrdered(w: World, s: Store, accepted: seq<Block>)
    requires Inv(w, s, accepted)
    ensures forall i, j :: 0 <= i <= j < |s.blocks| ==> LexLeq(s.blocks[i].header, s.blocks[j].header)
  {
    hide Extends, LexLeq, AcceptedChain;
    var off := |accepted| - |s.blocks|;
    forall i, j | 0 <= i <= j < |s.blocks|
      ensures LexLeq(s.blocks[i].header, s.blocks[j].header)
    {
      ChainIsOrdered(w, accepted, off + i, off + j);
    }
  }

  function LastSlotBlocks(s: Store): seq<Block>
    requires s.blocks != []
  {
    SuffixWhile(s.blocks, InSlot(Last(s.blocks).header.epoch, Last(s.blocks).header.slot))
  }

  function LastEpochBlocks(s: Store): seq<Block>
    requires s.blocks != []
  {
    SuffixWhile(s.blocks, InEpoch(Last(s.blocks).header.epoch))
  }

  /** On every reachable store the two scans miss nothing: they are full filters of the window. */
  lemma ScansAreFilters(w: World, s: Store, accepted: seq<Block>)
    requires Inv(w, s, accepted)
    ensures LastSlotBlocks(s) == Filter(s.blocks, InSlot(Last(accepted).header.epoch, Last(accepted).header.slot))
    ensures LastEpochBlocks(s) == Filter(s.blocks, InEpoch(Last(accepted).header.epoch))
  {
    WindowIsOrdered(w, s, accepted);
    InvLast(w, s, accepted);
    var h := Last(s.blocks).header;
    assert forall i :: 0 <= i < |s.blocks| ==> LexLeq(s.blocks[i].header, s.blocks[|s.blocks| - 1].header);
    ScanIsFilter(s.blocks, InSlot(h.epoch, h.slot));
    ScanIsFilter(s.blocks, InEpoch(h.epoch));
  }

  lemma {:induction false} FilterMember(blocks: seq<Block>, keep: Block -> bool, b: Block)
    ensures b in Filter(blocks, keep) <==> b in blocks && keep(b)
  {
    if blocks != [] {
      var n := |blocks| - 1;
      FilterMember(blocks[..n], keep, b);
      assert blocks == blocks[..n] + [blocks[n]];
    }
  }

  /** On every reachable store the scans return exactly the retained blocks of the last slot and of the last epoch. */
  lemma ScansFindLast(w: World, s: Store, accepted: seq<Block>, b: Block)
    requires Inv(w, s, accepted)
    ensures var last := accepted[|accepted| - 1].header;
            && (b in LastSlotBlocks(s) <==> b in s.blocks && b.header.epoch == last.epoch && b.header.slot == last.slot)
            && (b in LastEpochBlocks(s) <==> b in s.blocks && b.header.epoch == last.epoch)
  {
    hide Inv, Filter, LastSlotBlocks, LastEpochBlocks;
    assert accepted != [] by { InvNotEmpty(w, s, accepted); }
    var last := Last(accepted).header;
    ScansAreFilters(w, s, accepted);
    FilterMember(s.blocks, InSlot(last.epoch, last.slot), b);
    FilterMember(s.blocks, InEpoch(last.epoch), b);
  }

  lemma InvNotEmpty(w: World, s: Store, accepted: seq<Block>)
    requires Inv(w, s, accepted)
    ensures accepted != [] && s.blocks != []
  {}

  // ----- the store object

  class Blockchain {
    var blocks: seq<Block>
    var transactionIndex: set<string>
    var maxBlocksInMemory: nat
    ghost var accepted: seq<Block>

    function View(): Store
      reads this
    {
      Store(blocks, transactionIndex, maxBlocksInMemory)
    }

    ghost predicate Valid(w: World)
      reads this
    {
      Inv(w, View(), accepted)
    }

    constructor (w: World, genesis: Block)
      ensures Valid(w)
      ensures Traced(View(), accepted) == Start(genesis, 100)
    {
      hide TxSet, AcceptedChain, Inv;
      blocks, maxBlocksInMemory, accepted := [genesis], 100, [genesis];
      transactionIndex := TxSet(genesis);
      new;
      StartIsValid(w, genesis, 100);
    }

    /** `add_block`; on an accepted block of a valid store the ghost chain grows by it. */
    method AddBlock(w: World, b: Block) returns (r: Option<BlockChainError>)
      modifies this
      ensures match Accept(w, old(View()), b)
              case Ok(s) => r.None? && View() == s && accepted == old(accepted) + [b]
              case Err(e) => r == Some(e) && View() == old(View()) && accepted == old(accepted)
      ensures old(Valid(w)) ==> Valid(w)
    {
      hide BlockVerifies, TxSet, Extends, AcceptedChain;
      if blocks == [] {
        if !BlockVerifies(w, b) {
          return Some(InvalidBlock);
        }
        transactionIndex := transactionIndex + TxSet(b);
        blocks := blocks + [b];
        accepted := accepted + [b];
        assert blocks == [b];
        return None;
      }
      var last := Last(blocks).header;
      if last.index + 1 > b.header.index {
        return Some(IndexTooSmall);
      }
      if !BlockVerifies(w, b) {
        return Some(InvalidBlock);
      }
      if last.hash == b.header.hash {
        return Some(DuplicateBlocksReceived);
      }
      if last.hash != b.header.parentHash {
        return Some(ParentHashMismatch);
      }
      if last.index + 1 != b.header.index {
        return Some(IndexMismatch);
      }
      if last.epoch > b.header.epoch {
        return Some(EpochError);
      }
      if last.epoch == b.header.epoch && last.slot > b.header.slot {
        return Some(SlotError);
      }
      var clash := AnyKnown(b, transactionIndex);
      if clash {
        return Some(TransactionExists);
      }
      ghost var before := View();
      ghost var chain := accepted;
      transactionIndex := InsertHashes(b, transactionIndex);
      blocks := blocks + [b];
      if |blocks| > maxBlocksInMemory {
        blocks := blocks[1..];
      }
      accepted := accepted + [b];
      if Inv(w, before, chain) {
        AddKeepsInv(w, before, chain, b);
      }
      return None;
    }

    /** `pop_block` */
    method PopBlock(ghost w: World) returns (popped: Option<Block>)
      modifies this
      ensures popped == if old(blocks) == [] then None else Some(Last(old(blocks)))
      ensures View() == Drop(old(View()))
      ensures old(Valid(w)) ==> accepted == old(accepted)[..|old(accepted)| - 1]
      ensures old(Valid(w)) && |old(blocks)| >= 2 ==> Valid(w)
    {
      hide TxSet, Extends, AcceptedChain;
      if blocks == [] {
        return None;
      }
      ghost var before := View();
      ghost var chain := accepted;
      var block := Last(blocks);
      blocks := blocks[..|blocks| - 1];
      transactionIndex := RemoveHashes(block, transactionIndex);
      if |accepted| > 0 {
        accepted := accepted[..|accepted| - 1];
      }
      if |before.blocks| >= 2 && Inv(w, before, chain) {
        PopKeepsInv(w, before, chain);
      }
      return Some(block);
    }
  }

  method AnyKnown(b: Block, index: set<string>) returns (known: bool)
    ensures known == !(TxSet(b) !! index)
  {
    for i := 0 to |b.transactions|
      invariant forall j :: 0 <= j < i ==> HashesOf(b)[j] !in index
    {
      if b.transactions[i].hash in index {
        assert HashesOf(b)[i] in TxSet(b);
        return true;
      }
    }
    return false;
  }

  method InsertHashes(b: Block, index: set<string>) returns (r: set<string>)
    ensures r == index + TxSet(b)
  {
    r := index;
    for i := 0 to |b.transactions|
      invariant r == index + set h | h in HashesOf(b)[..i]
    {
      assert HashesOf(b)[..i + 1] == HashesOf(b)[..i] + [b.transactions[i].hash];
      r := r + {b.transactions[i].hash};
    }
    assert HashesOf(b)[..|b.transactions|] == HashesOf(b);
  }

  method RemoveHashes(b: Block, index: set<string>) returns (r: set<string>)
    ensures r == index - TxSet(b)
  {
    r := index;
    for i := 0 to |b.transactions|
      invariant r == index - set h | h in HashesOf(b)[..i]
    {
      assert HashesOf(b)[..i + 1] == HashesOf(b)[..i] + [b.transactions[i].hash];
      r := r - {b.transactions[i].hash};
    }
    assert HashesOf(b)[..|b.transactions|] == HashesOf(b);
  }
}
