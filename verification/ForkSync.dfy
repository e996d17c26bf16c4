/**
 The block-sync handler of a node: skip, snapshot, or find the fork point,
 truncate and replay. Proved: a response that is the tail of a longer accepted
 chain and shares a retained block is adopted completely; for every state and
 response, exactly when the handler panics; for every valid store and response,
 exactly when the chain invariant survives; and a snapshot of a chain keeps it
 exactly when the blocks it leaves out carry no transaction.
 */
module ForkSync {
  import opened Encoding
  import opened Ledger
  import opened Merkle
  import opened Evidence
  import opened ChainStore

  /** The part of a node the handler touches. */
  datatype NodeState = NodeState(store: Store, mempool: map<string, PathState>, syncInProgress: bool)

  // ----- finding the fork point

  /** `blocks.iter().find(|b| b.header.index == index)` */
  function FindIndex(blocks: seq<Block>, index: nat): (r: Option<nat>)
    ensures r.Some? ==> r.value < |blocks| && blocks[r.value].header.index == index
  {
    FindIndexFrom(blocks, index, 0)
  }

  function FindIndexFrom(blocks: seq<Block>, index: nat, i: nat): (r: Option<nat>)
    requires i <= |blocks|
    ensures r.Some? ==> r.value < |blocks| && blocks[r.value].header.index == index
    decreases |blocks| - i
  {
    if i == |blocks| then None
    else if blocks[i].header.index == index then Some(i)
    else FindIndexFrom(blocks, index, i + 1)
  }

  /** Where to replay from and how many local blocks to keep, or a slice that is out of range. */
  datatype Fork = NoFork | ReplayFrom(start: nat, keep: nat) | OutOfRange

  /** The cut belonging to a diverging block: its distance from the first local index, as a position. */
  function CutAt(blocks: seq<Block>, index: nat, i: nat): (fork: Fork)
    requires blocks != []
    ensures fork.ReplayFrom? ==> fork.start == i && fork.keep <= |blocks|
  {
    var localStart := blocks[0].header.index;
    if index < localStart || index - localStart > |blocks| then OutOfRange else ReplayFrom(i, index - localStart)
  }

  /** The scan over the response, from position i on. */
  function FindFork(blocks: seq<Block>, currentIndex: nat, response: seq<Block>, i: nat): (fork: Fork)
    requires i <= |response|
    ensures fork.ReplayFrom? ==> fork.start < |response| && fork.keep <= |blocks|
    decreases |response| - i
  {
    if i == |response| then NoFork
    else
      var b := response[i].header;
      match FindIndex(blocks, b.index)
      case Some(k) =>
        if blocks[k].header.hash != b.hash then CutAt(blocks, b.index, i)
        else FindFork(blocks, currentIndex, response, i + 1)
      case None =>
        if b.index > currentIndex then ReplayFrom(i, |blocks|)
        else FindFork(blocks, currentIndex, response, i + 1)
  }

  /** On windows with consecutive indices, as every valid store has them, no cut is out of range. */
  lemma {:induction false} ForkInRange(blocks: seq<Block>, currentIndex: nat, response: seq<Block>, i: nat)
    requires i <= |response|
    requires forall k :: 0 <= k < |blocks| ==> blocks[k].header.index == blocks[0].header.index + k
    ensures FindFork(blocks, currentIndex, response, i) != OutOfRange
    decreases |response| - i
  {
    if i < |response| {
      ForkInRange(blocks, currentIndex, response, i + 1);
    }
  }

  // ----- replay

  /** Adds the blocks in order until one is refused; every added block's transactions leave the mempool. */
  function Replay(w: World, store: Store, mempool: map<string, PathState>, blocks: seq<Block>)
    : (Store, map<string, PathState>)
    decreases |blocks|
  {
    if blocks == [] then (store, mempool)
    else
      match Accept(w, store, blocks[0])
      case Err(_) => (store, mempool)
      case Ok(next) => Replay(w, next, mempool - TxSet(blocks[0]), blocks[1..])
  }

  /** How many blocks a replay adds. */
  function ReplayCount(w: World, store: Store, blocks: seq<Block>): (n: nat)
    ensures n <= |blocks|
    decreases |blocks|
  {
    if blocks == [] then 0
    else
      match Accept(w, store, blocks[0])
      case Err(_) => 0
      case Ok(next) => 1 + ReplayCount(w, next, blocks[1..])
  }

  /** `replace_local_chain_with_snapshot`, and the gap branch of the handler. */
  function Snapshot(node: NodeState, response: seq<Block>): NodeState {
    NodeState(Store(response, AllHashes(response), node.store.limit), node.mempool - AllHashes(response), false)
  }

  /** The branches of the `ResponseBlockSync` handler for a peer's response; NoTip: there is no last block to read. */
  datatype Reaction = Skip | NoTip | Replace | Resolve(fork: Fork)

  function React(store: Store, response: seq<Block>): (r: Reaction)
    ensures r.Resolve? && r.fork.ReplayFrom? ==> r.fork.start < |response| && r.fork.keep <= |store.blocks|
  {
    if response == [] then Skip
    else if store.blocks == [] then NoTip
    else
      var currentIndex := Last(store.blocks).header.index;
      if currentIndex >= Last(response).header.index then Skip
      else if currentIndex + 1 < response[0].header.index then Replace
      else Resolve(FindFork(store.blocks, currentIndex, response, 0))
  }

  /** The state in which the handler stops, and whether it stops by panicking. */
  datatype SyncResult = SyncResult(node: NodeState, panicked: bool)

  /**
   The handler's effect. After a replay it reports the index of the last block, which
   panics on an emptied window before the progress flag is cleared.
   */
  function HandleSync(w: World, node: NodeState, response: seq<Block>): SyncResult {
    match React(node.store, response)
    case Skip => SyncResult(node, false)
    case NoTip => SyncResult(node, true)
    case Replace => SyncResult(Snapshot(node, response), false)
    case Resolve(NoFork) => SyncResult(node.(syncInProgress := false), false)
    case Resolve(OutOfRange) => SyncResult(node, true)
    case Resolve(ReplayFrom(start, keep)) =>
      var r := Replay(w, Truncate(node.store, keep), node.mempool, response[start..]);
      var panicked := r.0.blocks == [];
      SyncResult(NodeState(r.0, r.1, panicked && node.syncInProgress), panicked)
  }

  /** The accepted chain that belongs to the store after the handler. */
  function AcceptedAfter(w: World, store: Store, accepted: seq<Block>, response: seq<Block>): seq<Block> {
    match React(store, response)
    case Replace => response
    case Resolve(ReplayFrom(start, keep)) =>
      var n := ReplayCount(w, Truncate(store, keep), response[start..]);
      Shorten(accepted, |store.blocks| - keep) + response[start..start + n]
    case _ => accepted
  }

  function Shorten(chain: seq<Block>, n: nat): seq<Block> {
    if n <= |chain| then chain[..|chain| - n] else []
  }

  // ----- panics

  /** A replay leaves the window empty only if it was empty before and the first block does not verify. */
  lemma {:induction false} ReplayEmpties(w: World, s: Store, mempool: map<string, PathState>, blocks: seq<Block>)
    ensures Replay(w, s, mempool, blocks).0.blocks == []
       <==> s.blocks == [] && (blocks == [] || !BlockVerifies(w, blocks[0]))
    decreases |blocks|
  {
    hide BlockVerifies, TxSet;
    if blocks != [] && Accept(w, s, blocks[0]).Ok? {
      ReplayEmpties(w, Accept(w, s, blocks[0]).value, mempool - TxSet(blocks[0]), blocks[1..]);
    }
  }

  /** Whatever the state and the response, the handler panics in exactly three situations. */
  lemma PanicExact(w: World, node: NodeState, response: seq<Block>)
    ensures var r := React(node.store, response);
            HandleSync(w, node, response).panicked
            <==> || r == NoTip
                 || r == Resolve(OutOfRange)
                 || (r.Resolve? && r.fork.ReplayFrom? && r.fork.keep == 0 && !BlockVerifies(w, response[r.fork.start]))
  {
    hide BlockVerifies, TxSet, React;
    var r := React(node.store, response);
    if r.Resolve? && r.fork.ReplayFrom? {
      ReplayEmpties(w, Truncate(node.store, r.fork.keep), node.mempool, response[r.fork.start..]);
    }
  }

  /** On a valid store only one is left: a fork at the first retained block whose new first block does not verify. */
  lemma ValidStorePanicExact(w: World, node: NodeState, accepted: seq<Block>, response: seq<Block>)
    requires Inv(w, node.store, accepted)
    ensures var r := React(node.store, response);
            HandleSync(w, node, response).panicked
            <==> r.Resolve? && r.fork.ReplayFrom? && r.fork.keep == 0 && !BlockVerifies(w, response[r.fork.start])
  {
    hide BlockVerifies, TxSet, Replay;
    PanicExact(w, node, response);
    forall k | 0 <= k < |node.store.blocks|
      ensures node.store.blocks[k].header.index == node.store.blocks[0].header.index + k
    {
      var off := |accepted| - |node.store.blocks|;
      IndexAt(w, accepted, off);
      IndexAt(w, accepted, off + k);
    }
    if response != [] {
      ForkInRange(node.store.blocks, Last(node.store.blocks).header.index, response, 0);
    }
  }

  /** Such a response exists for every valid store; the panic leaves an empty window and the progress flag as it was. */
  lemma RefusedRestartPanics(w: World, node: NodeState, accepted: seq<Block>, c: Block, d: Block)
    requires Inv(w, node.store, accepted) && !BlockVerifies(w, c)
    requires c.header.index == node.store.blocks[0].header.index
    requires c.header.hash != node.store.blocks[0].header.hash
    requires d.header.index > Last(node.store.blocks).header.index
    ensures var r := HandleSync(w, node, [c, d]);
            && r.panicked && r.node.store.blocks == []
            && r.node.mempool == node.mempool && r.node.syncInProgress == node.syncInProgress
  {
    hide BlockVerifies, TxSet;
    var blocks, off := node.store.blocks, |accepted| - |node.store.blocks|;
    IndexAt(w, accepted, off);
    IndexAt(w, accepted, |accepted| - 1);
    assert Last(blocks).header.index >= c.header.index;
    assert FindIndex(blocks, c.header.index) == Some(0);
    assert FindFork(blocks, Last(blocks).header.index, [c, d], 0) == ReplayFrom(0, 0);
  }

  /** In a window with a gap, the cut of a diverging block lies beyond the window's end. */
  lemma GapPanics(w: World, node: NodeState, a: Block, b: Block, c: Block, d: Block)
    requires node.store.blocks == [a, b] && b.header.index > a.header.index + 2
    requires c.header.index == b.header.index && c.header.hash != b.header.hash
    requires d.header.index > b.header.index
    ensures HandleSync(w, node, [c, d]) == SyncResult(node, true)
  {
    var blocks := [a, b];
    assert FindIndexFrom(blocks, c.header.index, 1) == Some(1);
    assert FindIndex(blocks, c.header.index) == Some(1);
    assert FindFork(blocks, b.header.index, [c, d], 0) == OutOfRange;
  }

  /** A response that does not reach beyond the local tip changes nothing. */
  lemma ShorterIsIgnored(w: World, node: NodeState, response: seq<Block>)
    requires node.store.blocks != []
    requires response == [] || response[|response| - 1].header.index
                               <= node.store.blocks[|node.store.blocks| - 1].header.index
    ensures HandleSync(w, node, response) == SyncResult(node, false)
  {}

  /** Every longer response that does not panic ends the synchronisation. */
  lemma LongerEndsSync(w: World, node: NodeState, response: seq<Block>)
    requires node.store.blocks != [] && response != []
    requires response[|response| - 1].header.index > node.store.blocks[|node.store.blocks| - 1].header.index
    ensures var r := HandleSync(w, node, response);
            r.node.syncInProgress == (r.panicked && node.syncInProgress)
  {
    hide Replay, FindFork, Truncate, AllHashes;
  }

  // ----- the chain invariant

  /** b is what `add_block` would accept as the first block on top of the chain below, of which nothing is retained. */
  ghost predicate Joins(w: World, below: seq<Block>, b: Block) {
    && BlockVerifies(w, b)
    && (below == [] || (Extends(w, Last(below), b) && TxSet(b) !! AllHashes(below)))
  }

  /** What a response must be for the store to stay valid, case by case of the handler's reaction. */
  ghost predicate Continues(w: World, store: Store, accepted: seq<Block>, response: seq<Block>) {
    match React(store, response)
    case Replace => AcceptedChain(w, response) && |response| <= store.limit
    case Resolve(ReplayFrom(start, keep)) =>
      keep == 0 ==> Joins(w, Shorten(accepted, |store.blocks|), response[start])
    case _ => true
  }

  /** For every response, the chain invariant survives the handler exactly when the response continues the chain. */
  lemma HandlerInvExact(w: World, node: NodeState, accepted: seq<Block>, response: seq<Block>)
    requires Inv(w, node.store, accepted)
    ensures Inv(w, HandleSync(w, node, response).node.store, AcceptedAfter(w, node.store, accepted, response))
       <==> Continues(w, node.store, accepted, response)
  {
    hide BlockVerifies, TxSet, AcceptedChain, Accept, Joins, React, Inv, Truncate, AllHashes;
    var r := React(node.store, response);
    SnapshotInv(w, node, response);
    assert 1 <= |node.store.blocks| <= |accepted| by { InvAccepted(w, node.store, accepted); }
    if r == Replace {
      assert response != [] by { ReplaceNotEmpty(node.store, response); }
    }
    if r.Resolve? && r.fork.ReplayFrom? {
      var start, keep := r.fork.start, r.fork.keep;
      var kept, rest := Truncate(node.store, keep), response[start..];
      if keep >= 1 {
        TruncateKeepsInv(w, node.store, accepted, keep);
        ReplayKeepsInv(w, kept, node.mempool, Shorten(accepted, |node.store.blocks| - keep), rest);
      } else {
        RestartExact(w, node.store, node.mempool, accepted, rest);
      }
      var n := ReplayCount(w, kept, rest);
      assert rest[..n] == response[start..start + n];
    }
  }

  /** After every retained block is cut, the first replayed block is checked on its own only. */
  lemma RestartExact(w: World, s: Store, mempool: map<string, PathState>, accepted: seq<Block>, blocks: seq<Block>)
    requires Inv(w, s, accepted) && blocks != []
    ensures var kept, below := Truncate(s, 0), Shorten(accepted, |s.blocks|);
            Inv(w, Replay(w, kept, mempool, blocks).0, below + blocks[..ReplayCount(w, kept, blocks)])
            <==> Joins(w, below, blocks[0])
  {
    hide BlockVerifies, TxSet, AcceptedChain, Joins, Inv, Truncate, Shorten;
    var below := Shorten(accepted, |s.blocks|);
    CutAllHashes(w, s, accepted);
    assert below == [] || AcceptedChain(w, below) by { ShortenAccepted(w, s, accepted); }
    if BlockVerifies(w, blocks[0]) {
      FirstBlockExact(w, below, s.limit, mempool, blocks);
    } else {
      NotJoining(w, below, blocks[0], Truncate(s, 0), below + blocks[..ReplayCount(w, Truncate(s, 0), blocks)]);
    }
  }

  /** The same for a store that holds nothing but the index of the chain below. */
  lemma FirstBlockExact(w: World, below: seq<Block>, limit: nat, mempool: map<string, PathState>, blocks: seq<Block>)
    requires (below == [] || AcceptedChain(w, below)) && limit >= 1
    requires blocks != [] && BlockVerifies(w, blocks[0])
    ensures var kept := Store([], AllHashes(below), limit);
            Inv(w, Replay(w, kept, mempool, blocks).0, below + blocks[..ReplayCount(w, kept, blocks)])
            <==> Joins(w, below, blocks[0])
  {
    hide BlockVerifies, TxSet, AcceptedChain, Joins, Inv, AllHashes;
    var b, rest, chain := blocks[0], blocks[1..], below + [blocks[0]];
    var next := Store([b], AllHashes(below) + TxSet(b), limit);
    var n := ReplayCount(w, next, rest);
    assert chain + rest[..n] == below + blocks[..n + 1];
    if Joins(w, below, b) {
      JoinedInv(w, below, b, limit);
      ReplayKeepsInv(w, next, mempool - TxSet(b), chain, rest);
    } else {
      UnjoinedChain(w, below, b, rest[..n], Replay(w, next, mempool - TxSet(b), rest).0);
    }
  }

  lemma JoinedInv(w: World, below: seq<Block>, b: Block, limit: nat)
    requires (below == [] || AcceptedChain(w, below)) && limit >= 1 && Joins(w, below, b)
    ensures Inv(w, Store([b], AllHashes(below) + TxSet(b), limit), below + [b])
  {
    hide BlockVerifies, TxSet, Extends, AcceptedChain, AllHashes;
    var chain := below + [b];
    assert chain[|chain| - 1..] == [b] && chain[..|chain| - 1] == below;
    if below == [] {
      OneBlock(w, chain);
    } else {
      ExtendChain(w, below, b);
    }
  }

  lemma OneBlock(w: World, chain: seq<Block>)
    requires |chain| == 1
    ensures AcceptedChain(w, chain) && AllHashes(chain[..0]) == {} && AllHashes(chain) == TxSet(chain[0])
  {
    hide TxSet, Extends;
    assert chain[..0] == [];
  }

  lemma UnjoinedChain(w: World, below: seq<Block>, b: Block, more: seq<Block>, s: Store)
    requires BlockVerifies(w, b) && !Joins(w, below, b)
    ensures !Inv(w, s, below + [b] + more)
  {
    hide BlockVerifies, TxSet, Extends, Joins, Inv;
    if Inv(w, s, below + [b] + more) {
      var chain := below + [b] + more;
      assert AcceptedChain(w, chain) by { InvAccepted(w, s, chain); }
      assert chain[..|below|] == below && chain[|below|] == b;
      AcceptedJoins(w, chain, |below|);
    }
  }

  /** Every later block of an accepted chain joins the part below it. */
  lemma AcceptedJoins(w: World, chain: seq<Block>, off: nat)
    requires AcceptedChain(w, chain) && off < |chain| && BlockVerifies(w, chain[off])
    ensures Joins(w, chain[..off], chain[off])
  {
    hide BlockVerifies, TxSet, Extends;
    if off >= 1 {
      assert Extends(w, chain[off - 1], chain[off]);
      forall h | h in AllHashes(chain[..off])
        ensures h !in TxSet(chain[off])
      {
        AllHashesMember(chain[..off], h);
        var i :| 0 <= i < off && h in TxSet(chain[..off][i]);
        assert TxSet(chain[i]) !! TxSet(chain[off]);
      }
    }
  }

  lemma InvAccepted(w: World, s: Store, accepted: seq<Block>)
    requires Inv(w, s, accepted)
    ensures AcceptedChain(w, accepted) && 1 <= |s.blocks| <= |accepted|
  {}

  lemma ReplaceNotEmpty(s: Store, response: seq<Block>)
    requires React(s, response) == Replace
    ensures response != []
  {}

  lemma SnapshotInv(w: World, node: NodeState, response: seq<Block>)
    ensures response != [] ==>
              (Inv(w, Snapshot(node, response).store, response)
               <==> AcceptedChain(w, response) && |response| <= node.store.limit)
  {
    hide AcceptedChain, AllHashes;
  }

  lemma NotJoining(w: World, below: seq<Block>, b: Block, s: Store, accepted: seq<Block>)
    requires !BlockVerifies(w, b) && s.blocks == []
    ensures !Joins(w, below, b) && !Inv(w, s, accepted)
  {}

  lemma ShortenAccepted(w: World, s: Store, accepted: seq<Block>)
    requires Inv(w, s, accepted)
    ensures s.limit >= 1
    ensures Shorten(accepted, |s.blocks|) == [] || AcceptedChain(w, Shorten(accepted, |s.blocks|))
  {
    hide AcceptedChain;
    if |s.blocks| < |accepted| {
      PrefixAccepted(w, accepted, |accepted| - |s.blocks|);
    }
  }

  lemma CutAllHashes(w: World, s: Store, accepted: seq<Block>)
    requires Inv(w, s, accepted)
    ensures s.limit >= 1
    ensures Truncate(s, 0) == Store([], AllHashes(Shorten(accepted, |s.blocks|)), s.limit)
  {
    hide AcceptedChain;
    HashesSplit(w, accepted, |accepted| - |s.blocks|);
    assert s.blocks[0..] == s.blocks;
  }

  lemma {:induction false} ReplayKeepsInv(w: World, s: Store, mempool: map<string, PathState>, accepted: seq<Block>,
                                          blocks: seq<Block>)
    requires Inv(w, s, accepted)
    ensures Inv(w, Replay(w, s, mempool, blocks).0, accepted + blocks[..ReplayCount(w, s, blocks)])
    decreases |blocks|
  {
    hide BlockVerifies, TxSet, Accept, Inv;
    assert accepted + [] == accepted;
    if blocks != [] && Accept(w, s, blocks[0]).Ok? {
      var next := Accept(w, s, blocks[0]).value;
      AddKeepsInv(w, s, accepted, blocks[0]);
      ReplayKeepsInv(w, next, mempool - TxSet(blocks[0]), accepted + [blocks[0]], blocks[1..]);
      var n := ReplayCount(w, next, blocks[1..]);
      assert accepted + [blocks[0]] + blocks[1..][..n] == accepted + blocks[..n + 1];
    }
  }

  // ----- snapshots

  /** No pending transaction is already in an accepted block. */
  ghost predicate Separate(node: NodeState) {
    node.mempool.Keys !! node.store.index
  }

  /** Exactly the entries whose transaction no block carries are left, and the index holds exactly the carried ones. */
  ghost predicate Replaced(before: NodeState, after: NodeState, blocks: seq<Block>) {
    && after.store.blocks == blocks && after.store.limit == before.store.limit && !after.syncInProgress
    && (forall h :: h in after.store.index <==> Carries(blocks, h))
    && (forall h :: h in after.mempool <==> h in before.mempool && !Carries(blocks, h))
    && (forall h :: h in after.mempool ==> after.mempool[h] == before.mempool[h])
  }

  lemma SnapshotReplaces(node: NodeState, response: seq<Block>)
    ensures Replaced(node, Snapshot(node, response), response)
  {
    hide AllHashes, Carries;
    forall h
      ensures h in AllHashes(response) <==> Carries(response, h)
    {
      IndexedIffCarried(response, h);
    }
  }

  /** A response from beyond the next index replaces window, index and mempool entries. */
  lemma GapReplaces(w: World, node: NodeState, response: seq<Block>)
    requires node.store.blocks != [] && response != []
    requires Last(node.store.blocks).header.index + 1 < response[0].header.index
    requires Last(node.store.blocks).header.index < Last(response).header.index
    ensures !HandleSync(w, node, response).panicked && Replaced(node, HandleSync(w, node, response).node, response)
  {
    hide Replaced;
    SnapshotReplaces(node, response);
  }

  lemma {:induction false} ReplaySeparates(w: World, s: Store, mempool: map<string, PathState>, blocks: seq<Block>)
    requires mempool.Keys !! s.index
    ensures Replay(w, s, mempool, blocks).1.Keys !! Replay(w, s, mempool, blocks).0.index
    decreases |blocks|
  {
    hide BlockVerifies, TxSet;
    if blocks != [] && Accept(w, s, blocks[0]).Ok? {
      ReplaySeparates(w, Accept(w, s, blocks[0]).value, mempool - TxSet(blocks[0]), blocks[1..]);
    }
  }

  /** In every branch of the handler, a mempool free of accepted transactions stays free of them. */
  lemma HandlerSeparates(w: World, node: NodeState, response: seq<Block>)
    requires Separate(node)
    ensures Separate(HandleSync(w, node, response).node)
  {
    hide AllHashes, React, Replay;
    var r := React(node.store, response);
    if r.Resolve? && r.fork.ReplayFrom? {
      ReplaySeparates(w, Truncate(node.store, r.fork.keep), node.mempool, response[r.fork.start..]);
    }
  }

  /**
   A snapshot of a chain from block k on is a valid store of it exactly when it fits and nothing
   before it carries a transaction.
   */
  lemma SnapshotExact(w: World, node: NodeState, chain: seq<Block>, k: nat)
    requires AcceptedChain(w, chain) && k < |chain|
    ensures Inv(w, Snapshot(node, chain[k..]).store, chain)
       <==> |chain| - k <= node.store.limit && AllHashes(chain[..k]) == {}
  {
    hide TxSet, Extends;
    HashesSplit(w, chain, k);
  }

  /** Otherwise a transaction of a left-out block can be accepted again: the snapshot has forgotten it. */
  lemma SnapshotForgets(w: World, node: NodeState, s: Store, chain: seq<Block>, k: nat, b: Block)
    requires Inv(w, s, chain) && k < |chain| && Extends(w, Last(chain), b)
    requires TxSet(b) !! AllHashes(chain[k..]) && !(TxSet(b) !! AllHashes(chain[..k]))
    ensures Accept(w, s, b) == Err(TransactionExists)
    ensures Accept(w, Snapshot(node, chain[k..]).store, b).Ok?
  {
    hide TxSet, BlockVerifies, AcceptedChain;
    InvLast(w, s, chain);
    HashesSplit(w, chain, k);
    assert Last(chain[k..]) == Last(chain);
  }

  // ----- commitments bind blocks

  ghost function HeaderDigest(w: World, h: Header): Digest {
    Sha3(Text(w.headerJson(h.(hash := ""))))
  }

  /** Everything whose hash a verification of the block compares. */
  ghost function BlockDigests(w: World, b: Block): set<Digest> {
    {HeaderDigest(w, b.header)}
    + (set i | 0 <= i < |b.transactions| :: Sha3(Text(HashedText(w, b.transactions[i]))))
    + TreeDigests(w.sha3, HashesOf(b))
    + (set i | 0 <= i < |b.paths| :: RecordDigest(w, b.paths[i]))
    + TreeDigests(w.sha3, RecordHashes(w, b))
  }

  ghost function RecordDigest(w: World, r: PathRecord): Digest {
    Sha3(Text(w.recordJson(r)))
  }

  ghost function ChainDigests(w: World, chain: seq<Block>): set<Digest> {
    set i, d | 0 <= i < |chain| && d in BlockDigests(w, chain[i]) :: d
  }

  /** The serialiser is faithful and SHA3 has no collision among the digests of the two chains. */
  ghost predicate SoundHashes(w: World, a: seq<Block>, b: seq<Block>) {
    FaithfulJson(w) && NoCollision(w.sha3, ChainDigests(w, a) + ChainDigests(w, b))
  }

  /**
   The same header, the same set of transactions and the same set of path records, each in the
   same order if there are equally many.
   */
  ghost predicate SameBlock(a: Block, b: Block) {
    && a.header == b.header
    && TxSet(a) == TxSet(b) && (|a.transactions| == |b.transactions| ==> HashesOf(a) == HashesOf(b))
    && (forall r :: r in a.paths <==> r in b.paths) && (|a.paths| == |b.paths| ==> a.paths == b.paths)
  }

  /** The header hash binds the header and, through the two Merkle roots, transactions and path records. */
  lemma HashBindsBlock(w: World, digests: set<Digest>, a: Block, b: Block)
    requires FaithfulJson(w) && NoCollision(w.sha3, digests) && BlockDigests(w, a) <= digests
             && BlockDigests(w, b) <= digests
    requires BlockVerifies(w, a) && BlockVerifies(w, b) && a.header.hash == b.header.hash
    ensures SameBlock(a, b)
  {
    hide BlockVerifies, BlockDigests, RecordHashes, HashesOf, NoCollision, FaithfulJson;
    HashBindsHeader(w, digests, a, b);
    RootBindsTransactions(w, digests, a, b);
    RootBindsRecords(w, digests, a, b);
  }

  lemma HashBindsHeader(w: World, digests: set<Digest>, a: Block, b: Block)
    requires FaithfulJson(w) && NoCollision(w.sha3, digests) && BlockDigests(w, a) <= digests
             && BlockDigests(w, b) <= digests
    requires BlockVerifies(w, a) && BlockVerifies(w, b) && a.header.hash == b.header.hash
    ensures a.header == b.header
  {
    hide TransactionVerifies, NoCollision, DigestText, TreeDigests, Root;
    SameTextSameDigest(w.sha3, digests, HeaderDigest(w, a.header), HeaderDigest(w, b.header));
    var x, y := a.header.(hash := ""), b.header.(hash := "");
    TextInjective(w.headerJson(x), w.headerJson(y));
    assert x == y;
    assert a.header == x.(hash := a.header.hash) && b.header == y.(hash := b.header.hash);
  }

  lemma RootBindsTransactions(w: World, digests: set<Digest>, a: Block, b: Block)
    requires FaithfulJson(w) && NoCollision(w.sha3, digests) && BlockDigests(w, a) <= digests
             && BlockDigests(w, b) <= digests
    requires BlockVerifies(w, a) && BlockVerifies(w, b) && a.header == b.header
    ensures TxSet(a) == TxSet(b) && (|a.transactions| == |b.transactions| ==> HashesOf(a) == HashesOf(b))
  {
    hide TransactionVerifies, HasRank, NoCollision, DigestText, TreeDigests, Root, FaithfulJson;
    LeavesAreHashes(w, digests, a);
    LeavesAreHashes(w, digests, b);
    BindsLeaves(w.sha3, digests, HashesOf(a), HashesOf(b));
  }

  lemma BindsLeaves(sha3: ByteView, digests: set<Digest>, a: seq<string>, b: seq<string>)
    requires NoCollision(sha3, digests) && TreeDigests(sha3, a) <= digests && TreeDigests(sha3, b) <= digests
    requires AllRank(sha3, digests, 0, a) && AllRank(sha3, digests, 0, b) && Root(sha3, a) == Root(sha3, b)
    ensures (forall x :: x in a <==> x in b) && (|a| == |b| ==> a == b)
  {
    hide NoCollision, AllRank, AllCanonical, TreeDigests, Root;
    RootBindsLeafSet(sha3, digests, a, b);
    if |a| == |b| {
      AllRankCanonical(sha3, digests, 0, a);
      AllRankCanonical(sha3, digests, 0, b);
      RootInjective(sha3, digests, a, b);
    }
  }

  lemma RootBindsRecords(w: World, digests: set<Digest>, a: Block, b: Block)
    requires FaithfulJson(w) && NoCollision(w.sha3, digests) && BlockDigests(w, a) <= digests
             && BlockDigests(w, b) <= digests
    requires BlockVerifies(w, a) && BlockVerifies(w, b) && a.header == b.header
    ensures (forall r :: r in a.paths <==> r in b.paths) && (|a.paths| == |b.paths| ==> a.paths == b.paths)
  {
    hide TransactionVerifies, HasRank, NoCollision, DigestText, TreeDigests, Root, FaithfulJson;
    RecordLeavesAreHashes(w, digests, a);
    RecordLeavesAreHashes(w, digests, b);
    BindsLeaves(w.sha3, digests, RecordHashes(w, a), RecordHashes(w, b));
    forall r
      ensures r in a.paths <==> r in b.paths
    {
      if r in a.paths { LeafFindsRecord(w, digests, a, b, r); }
      if r in b.paths { LeafFindsRecord(w, digests, b, a, r); }
    }
    if |a.paths| == |b.paths| {
      forall i | 0 <= i < |a.paths|
        ensures a.paths[i] == b.paths[i]
      {
        assert RecordHashes(w, a)[i] == RecordHashes(w, b)[i];
        RecordOfLeaf(w, digests, a, b, i, i);
      }
    }
  }

  lemma RecordOfLeaf(w: World, digests: set<Digest>, a: Block, b: Block, i: nat, j: nat)
    requires FaithfulJson(w) && NoCollision(w.sha3, digests) && BlockDigests(w, a) <= digests
             && BlockDigests(w, b) <= digests
    requires i < |a.paths| && j < |b.paths| && RecordHashes(w, a)[i] == RecordHashes(w, b)[j]
    ensures a.paths[i] == b.paths[j]
  {
    hide NoCollision, DigestText, TreeDigests;
    assert RecordDigest(w, a.paths[i]) in BlockDigests(w, a) && RecordDigest(w, b.paths[j]) in BlockDigests(w, b);
    SameTextSameDigest(w.sha3, digests, RecordDigest(w, a.paths[i]), RecordDigest(w, b.paths[j]));
    TextInjective(w.recordJson(a.paths[i]), w.recordJson(b.paths[j]));
  }

  lemma LeafFindsRecord(w: World, digests: set<Digest>, a: Block, b: Block, r: PathRecord)
    requires FaithfulJson(w) && NoCollision(w.sha3, digests) && BlockDigests(w, a) <= digests
             && BlockDigests(w, b) <= digests
    requires r in a.paths && forall x :: x in RecordHashes(w, a) ==> x in RecordHashes(w, b)
    ensures r in b.paths
  {
    hide NoCollision, DigestText, BlockDigests, FaithfulJson;
    var i :| 0 <= i < |a.paths| && a.paths[i] == r;
    assert RecordHashes(w, a)[i] in RecordHashes(w, b);
    var j :| 0 <= j < |b.paths| && RecordHashes(w, b)[j] == RecordHashes(w, a)[i];
    RecordOfLeaf(w, digests, a, b, i, j);
  }

  lemma RecordLeavesAreHashes(w: World, digests: set<Digest>, a: Block)
    requires FaithfulJson(w) && BlockDigests(w, a) <= digests
    ensures AllRank(w.sha3, digests, 0, RecordHashes(w, a))
  {
    hide DigestText, TreeDigests, Root;
    forall i | 0 <= i < |a.paths|
      ensures HasRank(w.sha3, digests, 0, RecordHashes(w, a)[i])
    {
      var d := RecordDigest(w, a.paths[i]);
      assert d in BlockDigests(w, a);
      assert Text(w.recordJson(a.paths[i]))[0] == Glyph('{');
      assert RankedDigest(w.sha3, digests, 0, d);
    }
  }

  lemma LeavesAreHashes(w: World, digests: set<Digest>, a: Block)
    requires FaithfulJson(w) && BlockVerifies(w, a) && BlockDigests(w, a) <= digests
    ensures AllRank(w.sha3, digests, 0, HashesOf(a))
  {
    hide DigestText, TreeDigests, Root;
    forall i | 0 <= i < |HashesOf(a)|
      ensures HasRank(w.sha3, digests, 0, HashesOf(a)[i])
    {
      var text := HashedText(w, a.transactions[i]);
      var d := Sha3(Text(text));
      assert d in BlockDigests(w, a);
      assert TransactionVerifies(w, a.transactions[i]);
      assert Text(text)[0] == Glyph('{');
      assert RankedDigest(w.sha3, digests, 0, d);
    }
  }

  ghost predicate SameChain(a: seq<Block>, b: seq<Block>) {
    |a| == |b| && forall i :: 0 <= i < |a| ==> SameBlock(a[i], b[i])
  }

  /** An accepted chain whose first block verifies too. */
  ghost predicate FullChain(w: World, chain: seq<Block>) {
    AcceptedChain(w, chain) && BlockVerifies(w, chain[0])
  }

  lemma {:induction false} IndexAt(w: World, chain: seq<Block>, i: nat)
    requires AcceptedChain(w, chain) && i < |chain|
    ensures chain[i].header.index == chain[0].header.index + i
  {
    hide BlockVerifies;
    if i > 0 {
      IndexAt(w, chain, i - 1);
      assert Extends(w, chain[i - 1], chain[i]);
    }
  }

  lemma BlockAtVerifies(w: World, chain: seq<Block>, i: nat)
    requires FullChain(w, chain) && i < |chain|
    ensures BlockVerifies(w, chain[i])
  {
    if i > 0 {
      assert Extends(w, chain[i - 1], chain[i]);
    }
  }

  /** Two chains that agree on one hash agree on everything before it. */
  lemma {:induction false} AgreeBelow(w: World, a: seq<Block>, b: seq<Block>, i: nat)
    requires SoundHashes(w, a, b) && FullChain(w, a) && FullChain(w, b)
    requires i < |a| && i < |b| && a[i].header.hash == b[i].header.hash
    ensures SameChain(a[..i + 1], b[..i + 1])
  {
    hide BlockVerifies, TxSet, BlockDigests, NoCollision, FaithfulJson;
    BlockAtVerifies(w, a, i);
    BlockAtVerifies(w, b, i);
    HashBindsBlock(w, ChainDigests(w, a) + ChainDigests(w, b), a[i], b[i]);
    if i > 0 {
      assert Extends(w, a[i - 1], a[i]) && Extends(w, b[i - 1], b[i]);
      AgreeBelow(w, a, b, i - 1);
      assert a[..i + 1] == a[..i] + [a[i]] && b[..i + 1] == b[..i] + [b[i]];
    } else {
      assert a[..1] == [a[0]] && b[..1] == [b[0]];
    }
  }

  lemma {:induction false} SameChainSameHashes(a: seq<Block>, b: seq<Block>)
    requires SameChain(a, b)
    ensures AllHashes(a) == AllHashes(b)
  {
    hide TxSet;
    if a != [] {
      SameChainSameHashes(a[..|a| - 1], b[..|b| - 1]);
    }
  }

  // ----- the replay succeeds

  /** The next block of a chain is accepted by any store that holds a chain with the same headers and transactions. */
  lemma NextIsAccepted(w: World, s: Store, mine: seq<Block>, peer: seq<Block>, q: nat)
    requires Inv(w, s, mine) && AcceptedChain(w, peer) && 1 <= q < |peer| && SameChain(mine, peer[..q])
    ensures Accept(w, s, peer[q]).Ok?
  {
    hide BlockVerifies, TxSet;
    InvLast(w, s, mine);
    assert Extends(w, peer[q - 1], peer[q]);
    assert mine[q - 1].header == peer[..q][q - 1].header == peer[q - 1].header;
    SameChainSameHashes(mine, peer[..q]);
    assert TxSet(peer[q]) !! AllHashes(peer[..q]) by {
      forall h | h in AllHashes(peer[..q])
        ensures h !in TxSet(peer[q])
      {
        AllHashesMember(peer[..q], h);
        var i :| 0 <= i < q && h in TxSet(peer[..q][i]);
        assert TxSet(peer[i]) !! TxSet(peer[q]);
      }
    }
  }

  lemma {:induction false} ReplayAdopts(w: World, s: Store, mempool: map<string, PathState>, mine: seq<Block>,
                                        peer: seq<Block>, q: nat)
    requires Inv(w, s, mine) && AcceptedChain(w, peer) && 1 <= q <= |peer| && SameChain(mine, peer[..q])
    ensures var r := Replay(w, s, mempool, peer[q..]);
            && Inv(w, r.0, mine + peer[q..]) && SameChain(mine + peer[q..], peer)
            && r.0.limit == s.limit
            && r.1 == mempool - AllHashes(peer[q..])
    ensures ReplayCount(w, s, peer[q..]) == |peer| - q
    decreases |peer| - q
  {
    hide BlockVerifies, TxSet, Accept, AcceptedChain, Inv, AllHashes, SameChain;
    if q == |peer| {
      assert mine + peer[q..] == mine && peer[..q] == peer;
      assert AllHashes(peer[q..]) == {} by { NoHashes(peer[q..]); }
    } else {
      var b := peer[q];
      NextIsAccepted(w, s, mine, peer, q);
      AddKeepsInv(w, s, mine, b);
      var next := Accept(w, s, b).value;
      AcceptKeepsLimit(w, s, b);
      assert peer[q..][0] == b && peer[q..][1..] == peer[q + 1..];
      SameChainGrows(mine, peer, q);
      ReplayAdopts(w, next, mempool - TxSet(b), mine + [b], peer, q + 1);
      assert mine + [b] + peer[q + 1..] == mine + peer[q..];
      FirstHashes(peer[q..]);
      assert mempool - TxSet(b) - AllHashes(peer[q + 1..]) == mempool - AllHashes(peer[q..]);
    }
  }

  lemma NoHashes(chain: seq<Block>)
    requires chain == []
    ensures AllHashes(chain) == {}
  {}

  lemma SameChainGrows(mine: seq<Block>, peer: seq<Block>, q: nat)
    requires q < |peer| && SameChain(mine, peer[..q])
    ensures SameChain(mine + [peer[q]], peer[..q + 1])
  {}

  lemma AcceptKeepsLimit(w: World, s: Store, b: Block)
    requires Accept(w, s, b).Ok?
    ensures Accept(w, s, b).value.limit == s.limit
  {
    hide BlockVerifies, TxSet;
  }

  lemma {:induction false} FirstHashes(chain: seq<Block>)
    requires chain != []
    ensures AllHashes(chain) == TxSet(chain[0]) + AllHashes(chain[1..])
  {
    hide TxSet;
    if |chain| == 1 {
      assert chain[..0] == [] && chain[1..] == [];
    } else {
      var n := |chain| - 1;
      FirstHashes(chain[..n]);
      assert chain[..n][1..] == chain[1..][..n - 1];
      assert chain[1..][n - 1] == chain[n];
    }
  }

  // ----- the scan finds the fork point

  lemma {:induction false} FindIndexInWindow(blocks: seq<Block>, index: nat, i: nat)
    requires blocks != [] && i <= |blocks|
    requires forall k :: 0 <= k < |blocks| ==> blocks[k].header.index == blocks[0].header.index + k
    requires index >= blocks[0].header.index + i
    ensures FindIndexFrom(blocks, index, i)
         == if index < blocks[0].header.index + |blocks| then Some(index - blocks[0].header.index) else None
    decreases |blocks| - i
  {
    if i < |blocks| && blocks[i].header.index != index {
      FindIndexInWindow(blocks, index, i + 1);
    }
  }

  lemma {:induction false} FindIndexBelowWindow(blocks: seq<Block>, index: nat, i: nat)
    requires i <= |blocks|
    requires forall k :: 0 <= k < |blocks| ==> blocks[k].header.index > index
    ensures FindIndexFrom(blocks, index, i).None?
    decreases |blocks| - i
  {
    if i < |blocks| {
      FindIndexBelowWindow(blocks, index, i + 1);
    }
  }

  /** The local chain, the peer's chain, and which part of the latter was sent. */
  ghost predicate Setting(w: World, s: Store, mine: seq<Block>, peer: seq<Block>, from: nat) {
    && SoundHashes(w, mine, peer) && Inv(w, s, mine) && FullChain(w, mine) && FullChain(w, peer)
    && mine[0].header.index == peer[0].header.index
    && from < |peer| && |peer| > |mine|
  }

  /** Scanning position i of the response means comparing position from + i of the two chains. */
  lemma ScanStep(w: World, s: Store, mine: seq<Block>, peer: seq<Block>, from: nat, i: nat)
    requires Setting(w, s, mine, peer, from) && from + i < |peer|
    ensures var p, off := from + i, |mine| - |s.blocks|;
            && s.blocks[0].header.index == mine[0].header.index + off
            && peer[from..][i].header.index == mine[0].header.index + p
            && Last(s.blocks).header.index == mine[0].header.index + |mine| - 1
            && FindIndex(s.blocks, peer[p].header.index) == (if off <= p < |mine| then Some(p - off) else None)
            && (off <= p < |mine| ==> s.blocks[p - off] == mine[p])
  {
    hide BlockVerifies, TxSet, SoundHashes, FullChain, AcceptedChain;
    var p, off := from + i, |mine| - |s.blocks|;
    ChainIndices(w, mine);
    ChainIndices(w, peer);
    assert forall k :: 0 <= k < |s.blocks| ==> s.blocks[k] == mine[off + k];
    if p < off {
      FindIndexBelowWindow(s.blocks, peer[p].header.index, 0);
    } else {
      FindIndexInWindow(s.blocks, peer[p].header.index, 0);
    }
  }

  lemma ChainIndices(w: World, chain: seq<Block>)
    requires FullChain(w, chain)
    ensures forall k :: 0 <= k < |chain| ==> chain[k].header.index == chain[0].header.index + k
  {
    hide Extends, TxSet;
    forall k | 0 <= k < |chain|
      ensures chain[k].header.index == chain[0].header.index + k
    {
      IndexAt(w, chain, k);
    }
  }

  /** The scan of the peer's blocks from position `from` on, at response position i. */
  ghost function Scan(s: Store, peer: seq<Block>, from: nat, i: nat): Fork
    requires s.blocks != [] && from + i <= |peer|
  {
    FindFork(s.blocks, Last(s.blocks).header.index, peer[from..], i)
  }

  /** One step of the scan, told in positions of the two chains. */
  lemma ForkStep(w: World, s: Store, mine: seq<Block>, peer: seq<Block>, from: nat, i: nat)
    requires Setting(w, s, mine, peer, from) && from + i < |peer|
    ensures 1 <= |s.blocks| <= |mine| < |peer|
    ensures var q, off := from + i, |mine| - |s.blocks|;
            Scan(s, peer, from, i)
            == if q >= |mine| then ReplayFrom(i, |s.blocks|)
               else if q >= off && !SharedAt(mine, peer, q) then ReplayFrom(i, q - off)
               else Scan(s, peer, from, i + 1)
  {
    hide BlockVerifies, TxSet, SoundHashes, FullChain, AcceptedChain, FindIndex;
    ScanStep(w, s, mine, peer, from, i);
  }

  /** At every retained position below q the chains carry the same block hash. */
  ghost predicate AgreeUpTo(mine: seq<Block>, peer: seq<Block>, off: nat, from: nat, q: nat) {
    q <= |peer| && forall k :: off <= k && from <= k < q ==> SharedAt(mine, peer, k)
  }

  predicate SharedAt(mine: seq<Block>, peer: seq<Block>, k: nat) {
    k < |mine| && k < |peer| && mine[k].header.hash == peer[k].header.hash
  }

  /** A shared block below the scan position makes everything before it shared. */
  lemma SharedBelow(w: World, s: Store, mine: seq<Block>, peer: seq<Block>, from: nat, x: nat)
    requires Setting(w, s, mine, peer, from)
    requires SharedAt(mine, peer, x)
    ensures SameChain(mine[..x + 1], peer[..x + 1])
    ensures forall k :: 0 <= k <= x ==> SharedAt(mine, peer, k)
  {
    hide BlockVerifies, TxSet, SoundHashes, FullChain, AcceptedChain;
    AgreeBelow(w, mine, peer, x);
    forall k | 0 <= k <= x
      ensures SharedAt(mine, peer, k)
    {
      assert mine[..x + 1][k].header == peer[..x + 1][k].header;
    }
  }

  /** The scan stops at the first position after the shared block where the chains part or the local one ends. */
  lemma {:induction false} ScanFindsFork(w: World, s: Store, mine: seq<Block>, peer: seq<Block>, from: nat, i: nat,
                                         x: nat)
    returns (p: nat)
    requires Setting(w, s, mine, peer, from) && 1 <= |s.blocks| <= |mine| && from <= x + 1
    requires |mine| - |s.blocks| <= x && SharedAt(mine, peer, x)
    requires AgreeUpTo(mine, peer, |mine| - |s.blocks|, from, from + i)
    ensures x < p <= |mine| && from <= p && SameChain(mine[..p], peer[..p])
    ensures Scan(s, peer, from, i) == ReplayFrom(p - from, p - (|mine| - |s.blocks|))
    decreases |peer| - from - i
  {
    hide Setting, SameChain, Scan;
    var q := from + i;
    SettingSizes(w, s, mine, peer, from);
    if q <= x {
      ForkStep(w, s, mine, peer, from, i);
      SharedBelow(w, s, mine, peer, from, x);
      p := ScanFindsFork(w, s, mine, peer, from, i + 1, x);
    } else {
      var k := q - 1;
      assert k == x || (from <= k && |mine| - |s.blocks| <= k < q);
      assert SharedAt(mine, peer, k);
      SharedBelow(w, s, mine, peer, from, k);
      assert mine[..k + 1] == mine[..q] && peer[..k + 1] == peer[..q];
      ForkStep(w, s, mine, peer, from, i);
      if SharedAt(mine, peer, q) {
        p := ScanFindsFork(w, s, mine, peer, from, i + 1, x);
      } else {
        p := q;
      }
    }
  }

  lemma SettingSizes(w: World, s: Store, mine: seq<Block>, peer: seq<Block>, from: nat)
    requires Setting(w, s, mine, peer, from)
    ensures |mine| < |peer| && from < |peer| && s.blocks != []
  {}

  /**
   Fork resolution: if the response is the tail of a longer accepted chain with the same
   genesis index and a retained local block occurs in it (or right before it), the handler
   ends with the response's tip, a valid store for a chain with the peer's headers and transactions,
   and a mempool that lost exactly the replayed transactions.
   */
  lemma ForkResolutionAdopts(w: World, node: NodeState, mine: seq<Block>, peer: seq<Block>, from: nat, x: nat)
    requires Setting(w, node.store, mine, peer, from)
    requires from <= x + 1 && |mine| - |node.store.blocks| <= x && SharedAt(mine, peer, x)
    ensures !HandleSync(w, node, peer[from..]).panicked
    ensures exists p :: x < p <= |mine| && Adopted(w, node, HandleSync(w, node, peer[from..]).node, mine, peer, p)
                        && AcceptedAfter(w, node.store, mine, peer[from..]) == mine[..p] + peer[p..]
  {
    hide *;
    SettingSizes(w, node.store, mine, peer, from);
    assert x < |mine| by { InRange(mine, peer, x); }
    SettingFacts(w, node.store, mine, peer, from, x);
    AgreeOnNothing(mine, peer, |mine| - |node.store.blocks|, from);
    var p := ScanFindsFork(w, node.store, mine, peer, from, 0, x);
    ScanIsReaction(w, node.store, mine, peer, from, x);
    ResolutionAdopts(w, node, mine, peer, from, p);
  }

  lemma InRange(mine: seq<Block>, peer: seq<Block>, x: nat)
    requires SharedAt(mine, peer, x)
    ensures x < |mine| && x < |peer|
  {}

  lemma AgreeOnNothing(mine: seq<Block>, peer: seq<Block>, off: nat, from: nat)
    requires from <= |peer|
    ensures AgreeUpTo(mine, peer, off, from, from + 0)
  {}

  /** Resolving at a position up to which the chains agree adopts the rest of the peer's chain. */
  lemma ResolutionAdopts(w: World, node: NodeState, mine: seq<Block>, peer: seq<Block>, from: nat, p: nat)
    requires Inv(w, node.store, mine) && AcceptedChain(w, peer) && 1 <= |node.store.blocks| <= |mine| < |peer|
    requires from <= p <= |mine| && |mine| - |node.store.blocks| < p && SameChain(mine[..p], peer[..p])
    requires React(node.store, peer[from..]) == Resolve(ReplayFrom(p - from, p - (|mine| - |node.store.blocks|)))
    ensures !HandleSync(w, node, peer[from..]).panicked
    ensures Adopted(w, node, HandleSync(w, node, peer[from..]).node, mine, peer, p)
    ensures AcceptedAfter(w, node.store, mine, peer[from..]) == mine[..p] + peer[p..]
  {
    hide HandleSync, AcceptedAfter, React, Inv, Accept, AcceptedChain, Truncate, TxSet, SameChain;
    var s, response := node.store, peer[from..];
    var keep := p - (|mine| - |s.blocks|);
    TruncateKeepsInv(w, s, mine, keep);
    ReplayAdopts(w, Truncate(s, keep), node.mempool, mine[..p], peer, p);
    assert response[p - from..] == peer[p..];
    AdoptedTip(w, Replay(w, Truncate(s, keep), node.mempool, peer[p..]).0, mine[..p], peer, p);
    ResolvedBy(w, node, mine, response, p - from, keep);
    TruncateKeepsLimit(s, keep);
    assert response[p - from..p - from + (|peer| - p)] == peer[p..];
  }

  lemma TruncateKeepsLimit(s: Store, n: nat)
    requires n <= |s.blocks|
    ensures Truncate(s, n).limit == s.limit
  {}

  /** In the setting of a resolvable fork the handler's reaction is what the scan finds. */
  lemma ScanIsReaction(w: World, s: Store, mine: seq<Block>, peer: seq<Block>, from: nat, x: nat)
    requires Setting(w, s, mine, peer, from) && from <= x + 1 && x < |mine|
    ensures s.blocks != [] && React(s, peer[from..]) == Resolve(Scan(s, peer, from, 0))
  {
    hide FindFork, Inv;
    SettingFacts(w, s, mine, peer, from, x);
  }

  lemma ResolvedBy(w: World, node: NodeState, accepted: seq<Block>, response: seq<Block>, start: nat, keep: nat)
    requires node.store.blocks != [] && React(node.store, response) == Resolve(ReplayFrom(start, keep))
    requires |node.store.blocks| <= |accepted|
    ensures start < |response| && keep <= |node.store.blocks|
    ensures var kept := Truncate(node.store, keep);
            var r := Replay(w, kept, node.mempool, response[start..]);
            && (r.0.blocks != [] ==> HandleSync(w, node, response) == SyncResult(NodeState(r.0, r.1, false), false))
            && AcceptedAfter(w, node.store, accepted, response)
               == accepted[..|accepted| - |node.store.blocks| + keep]
                  + response[start..start + ReplayCount(w, kept, response[start..])]
  {
    hide React, Accept, TxSet, Truncate;
  }

  lemma SettingFacts(w: World, s: Store, mine: seq<Block>, peer: seq<Block>, from: nat, x: nat)
    requires Setting(w, s, mine, peer, from) && from <= x + 1 && x < |mine|
    ensures AcceptedChain(w, peer) && Inv(w, s, mine) && 1 <= |s.blocks| <= |mine|
    ensures Last(s.blocks).header.index < Last(peer[from..]).header.index
    ensures peer[from..][0].header.index <= Last(s.blocks).header.index + 1
  {
    hide BlockVerifies, TxSet, SoundHashes;
    ChainIndices(w, mine);
    ChainIndices(w, peer);
    InvLast(w, s, mine);
    assert Last(peer[from..]) == peer[|peer| - 1];
  }

  lemma AdoptedTip(w: World, s: Store, mine: seq<Block>, peer: seq<Block>, p: nat)
    requires p < |peer| && Inv(w, s, mine + peer[p..])
    ensures s.blocks != [] && Last(s.blocks) == Last(peer)
  {
    hide AcceptedChain;
    InvLast(w, s, mine + peer[p..]);
  }

  /** The outcome with fork position p: local blocks up to p, the peer's from there on. */
  ghost predicate Adopted(w: World, node: NodeState, after: NodeState, mine: seq<Block>, peer: seq<Block>, p: nat) {
    && p <= |mine| && p < |peer|
    && var chain := mine[..p] + peer[p..];
    && Inv(w, after.store, chain) && SameChain(chain, peer)
    && Last(after.store.blocks) == Last(peer)
    && after.store.limit == node.store.limit
    && after.mempool == node.mempool - AllHashes(peer[p..])
    && !after.syncInProgress
  }

  // ----- the handler

  class Node {
    const chain: Blockchain
    var mempool: map<string, PathState>
    var syncInProgress: bool

    constructor (chain: Blockchain)
      ensures this.chain == chain && mempool == map[] && !syncInProgress
    {
      this.chain, mempool, syncInProgress := chain, map[], false;
    }

    function View(): NodeState
      reads this, chain
    {
      NodeState(chain.View(), mempool, syncInProgress)
    }

    /** `ResponseBlockSync`; the chain's ghost history follows the store. */
    method ResponseBlockSync(w: World, syncBlocks: seq<Block>, fromWorldState: bool) returns (panicked: bool)
      modifies this, chain
      ensures SyncResult(View(), panicked)
           == if fromWorldState && syncBlocks != [] then SyncResult(Snapshot(old(View()), syncBlocks), false)
              else HandleSync(w, old(View()), syncBlocks)
      ensures chain.accepted == if fromWorldState && syncBlocks != [] then syncBlocks
                                else AcceptedAfter(w, old(chain.View()), old(chain.accepted), syncBlocks)
    {
      hide TxSet, BlockVerifies, Accept, Truncate, Shorten, Replay, ReplayCount, FindFork, Snapshot;
      panicked := false;
      if syncBlocks == [] {
        return;
      }
      if fromWorldState {
        ReplaceLocalChain(syncBlocks);
        return;
      }
      if chain.blocks == [] {
        return true;
      }
      var currentIndex := Last(chain.blocks).header.index;
      var responseIndex := Last(syncBlocks).header.index;
      var responseStartIndex := syncBlocks[0].header.index;
      if currentIndex >= responseIndex {
        return;
      }
      if currentIndex + 1 < responseStartIndex {
        ReplaceLocalChain(syncBlocks);
        return;
      }
      var fork := ScanResponse(chain.blocks, currentIndex, syncBlocks);
      if fork.OutOfRange? {
        return true;
      }
      if fork.ReplayFrom? {
        TruncateChain(fork.keep);
        ReplayBlocks(w, syncBlocks[fork.start..]);
        ghost var n := ReplayCount(w, Truncate(old(chain.View()), fork.keep), syncBlocks[fork.start..]);
        assert syncBlocks[fork.start..][..n] == syncBlocks[fork.start..fork.start + n];
        if chain.blocks == [] {
          return true;
        }
      }
      syncInProgress := false;
    }

    /** Cuts the chain back and unindexes what it loses. */
    method TruncateChain(keep: nat)
      requires keep <= |chain.blocks|
      modifies chain
      ensures chain.View() == Truncate(old(chain.View()), keep)
      ensures chain.accepted == Shorten(old(chain.accepted), |old(chain.blocks)| - keep)
    {
      var hashesToRemove := CollectHashes(chain.blocks[keep..]);
      chain.accepted := Shorten(chain.accepted, |chain.blocks| - keep);
      chain.transactionIndex := chain.transactionIndex - hashesToRemove;
      chain.blocks := chain.blocks[..keep];
    }

    /** `replace_local_chain_with_snapshot` */
    method ReplaceLocalChain(syncBlocks: seq<Block>)
      modifies this, chain
      ensures View() == Snapshot(old(View()), syncBlocks) && chain.accepted == syncBlocks
    {
      var included := CollectHashes(syncBlocks);
      chain.accepted := syncBlocks;
      chain.blocks, chain.transactionIndex := syncBlocks, included;
      mempool := mempool - included;
      syncInProgress := false;
    }

    method ReplayBlocks(w: World, blocks: seq<Block>)
      modifies this`mempool, chain
      ensures (chain.View(), mempool) == Replay(w, old(chain.View()), old(mempool), blocks)
      ensures chain.accepted == old(chain.accepted) + blocks[..ReplayCount(w, old(chain.View()), blocks)]
    {
      hide TxSet, BlockVerifies, Accept;
      ghost var goal := Replay(w, chain.View(), mempool, blocks);
      var i := 0;
      while i < |blocks|
        invariant 0 <= i <= |blocks|
        invariant Replay(w, chain.View(), mempool, blocks[i..]) == goal
        invariant i + ReplayCount(w, chain.View(), blocks[i..]) == ReplayCount(w, old(chain.View()), blocks)
        invariant chain.accepted == old(chain.accepted) + blocks[..i]
      {
        var r := chain.AddBlock(w, blocks[i]);
        assert blocks[i..][0] == blocks[i] && blocks[i..][1..] == blocks[i + 1..];
        if r.Some? {
          return;
        }
        mempool := mempool - TxSet(blocks[i]);
        i := i + 1;
      }
    }
  }

  /** The scan of the response for a diverging or new block. */
  method ScanResponse(blocks: seq<Block>, currentIndex: nat, response: seq<Block>) returns (fork: Fork)
    ensures fork == FindFork(blocks, currentIndex, response, 0)
  {
    for i := 0 to |response|
      invariant FindFork(blocks, currentIndex, response, 0) == FindFork(blocks, currentIndex, response, i)
    {
      var b := response[i].header;
      var found := FindIndex(blocks, b.index);
      if found.Some? {
        if blocks[found.value].header.hash != b.hash {
          return CutAt(blocks, b.index, i);
        }
      } else if b.index > currentIndex {
        return ReplayFrom(i, |blocks|);
      }
    }
    return NoFork;
  }

  method CollectHashes(blocks: seq<Block>) returns (hashes: set<string>)
    ensures hashes == AllHashes(blocks)
  {
    hide TxSet;
    hashes := {};
    for i := 0 to |blocks|
      invariant hashes == AllHashes(blocks[..i])
    {
      assert blocks[..i + 1][..i] == blocks[..i];
      hashes := InsertHashes(blocks[i], hashes);
    }
    assert blocks[..|blocks|] == blocks;
  }
}
