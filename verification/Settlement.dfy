/**
 Delayed settlement of block rewards. Proved over every sequence of calls: what
 has been paid is a prefix of what was planned and the queue holds the rest, and
 nothing is paid early; when block indices do not decrease, exactly the matured
 batches have been paid; when they are consecutive, call j pays the plan of call
 j minus the settlement depth.
 */
module Settlement {
  import opened Ledger

  datatype Batch = Batch(settleAt: nat, rewards: seq<BalanceDelta>)

  /** One call of `distribute_rewards`: the block's index and its planned rewards. */
  datatype Call = Call(index: nat, rewards: seq<BalanceDelta>)

  /** The rewards of a list of batches, in order. */
  function Payout(batches: seq<Batch>): seq<BalanceDelta> {
    if batches == [] then [] else Payout(batches[..|batches| - 1]) + batches[|batches| - 1].rewards
  }

  /** Batches are queued only if they pay something. */
  function Submit(queue: seq<Batch>, depth: nat, call: Call): seq<Batch> {
    if call.rewards == [] then queue else queue + [Batch(call.index + depth, call.rewards)]
  }

  /** How many batches the settling loop takes off the front. */
  function MaturedCount(queue: seq<Batch>, index: nat): (k: nat)
    ensures k <= |queue|
    ensures forall i :: 0 <= i < k ==> queue[i].settleAt <= index
    ensures k < |queue| ==> queue[k].settleAt > index
  {
    if queue == [] || queue[0].settleAt > index then 0 else 1 + MaturedCount(queue[1..], index)
  }

  // ----- runs

  /** The queue, with what the run has planned, paid and, at its last call, returned. */
  datatype Books = Books(queue: seq<Batch>, planned: seq<Batch>, paidCount: nat, paid: seq<BalanceDelta>,
                         output: seq<BalanceDelta>)

  /** `distribute_rewards` with a given plan: queue it, then pay what has matured at this block. */
  function Settle(depth: nat, books: Books, call: Call): Books {
    var queue := Submit(books.queue, depth, call);
    var k := MaturedCount(queue, call.index);
    var output := Payout(queue[..k]);
    Books(queue[k..], Submit(books.planned, depth, call), books.paidCount + k, books.paid + output, output)
  }

  function Run(depth: nat, calls: seq<Call>): Books {
    if calls == [] then Books([], [], 0, [], [])
      else Settle(depth, Run(depth, calls[..|calls| - 1]), calls[|calls| - 1])
  }

  lemma {:induction false} PayoutConcat(a: seq<Batch>, b: seq<Batch>)
    ensures Payout(a + b) == Payout(a) + Payout(b)
    decreases |b|
  {
    if b == [] {
      assert a + b == a;
    } else {
      assert (a + b)[..|a + b| - 1] == a + b[..|b| - 1];
      PayoutConcat(a, b[..|b| - 1]);
    }
  }

  /** Each planned batch has been paid exactly once and in order, or is still queued. */
  ghost predicate Balanced(books: Books) {
    && books.paidCount <= |books.planned|
    && books.queue == books.planned[books.paidCount..]
    && books.paid == Payout(books.planned[..books.paidCount])
  }

  lemma StepBalances(depth: nat, books: Books, call: Call)
    requires Balanced(books)
    ensures Balanced(Settle(depth, books, call))
    ensures var next := Settle(depth, books, call);
            && books.paidCount <= next.paidCount
            && next.output == Payout(next.planned[books.paidCount..next.paidCount])
            && (forall i :: books.paidCount <= i < next.paidCount ==> next.planned[i].settleAt <= call.index)
            && (next.paidCount < |next.planned| ==> next.planned[next.paidCount].settleAt > call.index)
  {
    hide Submit;
    var all, before := Submit(books.planned, depth, call), books.paidCount;
    SubmitTail(books.planned, before, depth, call);
    var k := MaturedCount(all[before..], call.index);
    PayFront(all, before, k);
    MaturedInPlace(all, before, call.index);
  }

  /** Paying the first k unpaid batches. */
  lemma PayFront(all: seq<Batch>, before: nat, k: nat)
    requires before + k <= |all|
    ensures all[before..][k..] == all[before + k..] && all[before..][..k] == all[before..before + k]
    ensures Payout(all[..before]) + Payout(all[before..][..k]) == Payout(all[..before + k])
  {
    assert all[..before + k] == all[..before] + all[before..before + k];
    PayoutConcat(all[..before], all[before..before + k]);
  }

  lemma MaturedInPlace(all: seq<Batch>, before: nat, index: nat)
    requires before <= |all|
    ensures var after := before + MaturedCount(all[before..], index);
            && (forall i :: before <= i < after ==> all[i].settleAt <= index)
            && (after < |all| ==> all[after].settleAt > index)
  {
    var k := MaturedCount(all[before..], index);
    forall i | before <= i < before + k
      ensures all[i].settleAt <= index
    {
      assert all[i] == all[before..][i - before];
    }
  }

  lemma SubmitTail(planned: seq<Batch>, before: nat, depth: nat, call: Call)
    requires before <= |planned|
    ensures |Submit(planned, depth, call)| >= |planned|
    ensures Submit(planned[before..], depth, call) == Submit(planned, depth, call)[before..]
    ensures Submit(planned, depth, call)[..before] == planned[..before]
  {}

  /**
   Over every sequence of calls: paid rewards followed by queued ones are the planned ones, and
   whatever the last call paid had matured at that call.
   */
  lemma {:induction false} PaidOrPending(depth: nat, calls: seq<Call>)
    ensures var books := Run(depth, calls);
            Balanced(books) && books.paid + Payout(books.queue) == Payout(books.planned)
    ensures calls != [] ==>
              var before, books := Run(depth, calls[..|calls| - 1]).paidCount, Run(depth, calls);
              && before <= books.paidCount
              && books.output == Payout(books.planned[before..books.paidCount])
              && forall i :: before <= i < books.paidCount ==> books.planned[i].settleAt <= calls[|calls| - 1].index
  {
    hide Settle;
    if calls != [] {
      var prev := calls[..|calls| - 1];
      PaidOrPending(depth, prev);
      StepBalances(depth, Run(depth, prev), calls[|calls| - 1]);
    }
    var books := Run(depth, calls);
    assert books.planned == books.planned[..books.paidCount] + books.planned[books.paidCount..];
    PayoutConcat(books.planned[..books.paidCount], books.planned[books.paidCount..]);
  }

  // ----- timing

  ghost predicate NonDecreasing(calls: seq<Call>) {
    forall i, j :: 0 <= i <= j < |calls| ==> calls[i].index <= calls[j].index
  }

  /** The batches mature in order. */
  ghost predicate SortedUpTo(planned: seq<Batch>, limit: nat) {
    && (forall i, j :: 0 <= i <= j < |planned| ==> planned[i].settleAt <= planned[j].settleAt)
    && (forall i :: 0 <= i < |planned| ==> planned[i].settleAt <= limit)
  }

  lemma {:induction false} PlannedSorted(depth: nat, calls: seq<Call>)
    requires NonDecreasing(calls)
    ensures SortedUpTo(Run(depth, calls).planned, if calls == [] then 0 else calls[|calls| - 1].index + depth)
  {
    hide Settle;
    if calls != [] {
      PlannedSorted(depth, calls[..|calls| - 1]);
      PlannedStep(depth, Run(depth, calls[..|calls| - 1]), calls[|calls| - 1]);
    }
  }

  /** With non-decreasing block indices a batch has been paid if and only if it has matured. */
  lemma {:induction false} PaidIffMatured(depth: nat, calls: seq<Call>)
    requires NonDecreasing(calls) && calls != []
    ensures var books := Run(depth, calls);
            forall i :: 0 <= i < |books.planned| ==>
              (i < books.paidCount <==> books.planned[i].settleAt <= calls[|calls| - 1].index)
  {
    hide Settle;
    var n := |calls| - 1;
    var books, prev := Run(depth, calls), Run(depth, calls[..n]);
    PaidOrPending(depth, calls[..n]);
    PlannedSorted(depth, calls);
    StepBalances(depth, prev, calls[n]);
    PlannedStep(depth, prev, calls[n]);
    if n > 0 {
      PaidIffMatured(depth, calls[..n]);
    }
    forall i | 0 <= i < |books.planned|
      ensures i < books.paidCount <==> books.planned[i].settleAt <= calls[n].index
    {
      if i < prev.paidCount {
        assert books.planned[i] == prev.planned[i];
      }
      if books.paidCount <= i {
        assert books.planned[books.paidCount].settleAt <= books.planned[i].settleAt;
      }
    }
  }

  lemma PlannedStep(depth: nat, books: Books, call: Call)
    ensures Settle(depth, books, call).planned == Submit(books.planned, depth, call)
  {}

  ghost predicate Consecutive(calls: seq<Call>) {
    forall i :: 0 <= i < |calls| ==> calls[i].index == calls[0].index + i && calls[i].rewards != []
  }

  lemma {:induction false} PlannedOneEach(depth: nat, calls: seq<Call>)
    requires Consecutive(calls)
    ensures |Run(depth, calls).planned| == |calls|
    ensures forall i :: 0 <= i < |calls| ==>
              Run(depth, calls).planned[i] == Batch(calls[i].index + depth, calls[i].rewards)
  {
    hide Settle;
    if calls != [] {
      PlannedOneEach(depth, calls[..|calls| - 1]);
      PlannedStep(depth, Run(depth, calls[..|calls| - 1]), calls[|calls| - 1]);
    }
  }

  /** On consecutive blocks with a reward each, everything but the last depth plans has been paid. */
  lemma ConsecutivePaidCount(depth: nat, calls: seq<Call>)
    requires Consecutive(calls)
    ensures Run(depth, calls).paidCount == if |calls| <= depth then 0 else |calls| - depth
  {
    hide Settle;
    PaidOrPending(depth, calls);
    if calls != [] {
      var books := Run(depth, calls);
      PlannedOneEach(depth, calls);
      PaidIffMatured(depth, calls);
      assert books.paidCount < |calls| ==> books.planned[books.paidCount].settleAt > calls[|calls| - 1].index;
      assert books.paidCount > 0 ==> books.planned[books.paidCount - 1].settleAt <= calls[|calls| - 1].index;
    }
  }

  /** Settlement is a delay line: call j pays exactly the plan of call j - depth. */
  lemma SettlementIsDelay(depth: nat, calls: seq<Call>)
    requires Consecutive(calls) && calls != []
    ensures Run(depth, calls).output == if |calls| <= depth then [] else calls[|calls| - 1 - depth].rewards
  {
    hide Run;
    var n, books := |calls| - 1, Run(depth, calls);
    ConsecutivePaidCount(depth, calls);
    ConsecutivePaidCount(depth, calls[..n]);
    PaidOrPending(depth, calls);
    if n >= depth {
      PlannedOneEach(depth, calls);
      PayoutOne(books.planned, n - depth);
    } else {
      assert books.planned[0..0] == [];
    }
  }

  lemma PayoutOne(batches: seq<Batch>, i: nat)
    requires i < |batches|
    ensures Payout(batches[i..i + 1]) == batches[i].rewards
  {
    assert batches[i..i + 1] == [batches[i]];
    assert [batches[i]][..0] == [];
  }
}
