/**
 The exhaustive padding evaluator: it enumerates every coalition containing the
 padded relay as a bit mask, keeps the largest ratio of padded to original
 credit, and sweeps a grid of path shapes. Proved: the enumeration is a
 bijection onto coalitions, the reported maximum is the true one, and every
 case passes at every depth.
 */
module PaddingEval {
  import opened Sequences
  import opened PathCredit

  datatype PaddingCaseResult = PaddingCaseResult(
    depth: nat,
    originalPathLength: nat,
    relayPosition: nat,
    insertedIdentities: nat,
    coalitionAssignments: nat,
    worstOriginalPositions: seq<nat>,
    baseCredit: real,
    paddedCredit: real,
    maxRatio: real,
    passed: bool)

  // ----- position lists

  function Credit(depth: nat, pathLength: nat, positions: seq<nat>): real {
    if positions == [] then 0.0
    else
      var n := |positions| - 1;
      Credit(depth, pathLength, positions[..n]) + GammaForDepth(depth, positions[n], pathLength)
  }

  /** lo..hi-1 */
  function Range(lo: nat, hi: nat): seq<nat>
    decreases hi
  {
    if hi <= lo then [] else Range(lo, hi - 1) + [hi - 1]
  }

  function OtherPositions(pathLength: nat, relay: nat): seq<nat>
    requires 1 <= relay < pathLength
  {
    Range(1, relay) + Range(relay + 1, pathLength)
  }

  function Shift(q: nat, relay: nat, k: nat): nat {
    if q < relay then q else q + k
  }

  /** The coalition's other members on the padded path, in list order. */
  function ShiftOthers(positions: seq<nat>, relay: nat, k: nat): seq<nat> {
    if positions == [] then []
    else
      var n := |positions| - 1;
      ShiftOthers(positions[..n], relay, k)
      + (if positions[n] == relay then [] else [Shift(positions[n], relay, k)])
  }

  function Insert(x: nat, xs: seq<nat>): seq<nat> {
    if xs == [] then [x]
    else
      var n := |xs| - 1;
      if xs[n] <= x then xs + [x] else Insert(x, xs[..n]) + [xs[n]]
  }

  /** `sort_unstable` on positions. */
  function SortPositions(xs: seq<nat>): seq<nat> {
    if xs == [] then [] else Insert(xs[|xs| - 1], SortPositions(xs[..|xs| - 1]))
  }

  predicate Sorted(xs: seq<nat>) {
    forall i, j :: 0 <= i < j < |xs| ==> xs[i] <= xs[j]
  }

  lemma {:induction false} InsertSorted(x: nat, xs: seq<nat>)
    requires Sorted(xs)
    ensures Sorted(Insert(x, xs))
  {
    if xs != [] {
      var n := |xs| - 1;
      if xs[n] > x {
        InsertSorted(x, xs[..n]);
        var r := Insert(x, xs[..n]);
        forall i | 0 <= i < |r|
          ensures r[i] <= xs[n]
        {
          CountMember(r, r[i]);
          CountInsert(x, xs[..n], r[i]);
          CountMember(xs[..n], r[i]);
        }
      }
    }
  }

  // ----- counting occurrences

  ghost predicate NoRepeats(xs: seq<nat>) {
    forall x: nat :: Count(xs, x) <= 1
  }

  ghost function Members(xs: seq<nat>): set<nat> {
    set x | x in xs
  }

  lemma {:induction false} CountInsert(x: nat, xs: seq<nat>, y: nat)
    ensures Count(Insert(x, xs), y) == Count(xs, y) + (if x == y then 1 else 0)
  {
    if xs != [] {
      var n := |xs| - 1;
      if xs[n] <= x {
        CountConcat(xs, [x], y);
      } else {
        CountInsert(x, xs[..n], y);
        CountConcat(Insert(x, xs[..n]), [xs[n]], y);
      }
    }
  }

  /** Sorting yields a sorted list with every position as often as before. */
  lemma {:induction false} SortPositionsCorrect(xs: seq<nat>)
    ensures Sorted(SortPositions(xs))
    ensures forall y: nat :: Count(SortPositions(xs), y) == Count(xs, y)
  {
    if xs != [] {
      var n := |xs| - 1;
      SortPositionsCorrect(xs[..n]);
      InsertSorted(xs[n], SortPositions(xs[..n]));
      forall y: nat
        ensures Count(SortPositions(xs), y) == Count(xs, y)
      {
        CountInsert(xs[n], SortPositions(xs[..n]), y);
      }
    }
  }

  lemma SortedMembers(xs: seq<nat>)
    ensures Sorted(SortPositions(xs))
    ensures Members(SortPositions(xs)) == Members(xs)
    ensures NoRepeats(xs) ==> NoRepeats(SortPositions(xs))
  {
    SortPositionsCorrect(xs);
    forall x: nat
      ensures x in xs <==> x in SortPositions(xs)
    {
      CountMember(xs, x);
      CountMember(SortPositions(xs), x);
    }
  }

  lemma NoRepeatsInit(xs: seq<nat>)
    requires xs != [] && NoRepeats(xs)
    ensures NoRepeats(xs[..|xs| - 1])
    ensures xs[|xs| - 1] !in xs[..|xs| - 1]
  {
    var n := |xs| - 1;
    CountMember(xs[..n], xs[n]);
    assert Count(xs, xs[n]) <= 1;
    forall x: nat
      ensures Count(xs[..n], x) <= 1
    {
      assert Count(xs, x) <= 1;
    }
  }

  lemma {:induction false} CreditInsert(w: nat -> real, c: set<nat>, x: nat, lo: nat, hi: nat)
    requires lo <= hi
    requires x !in c
    ensures CreditBetween(w, c + {x}, lo, hi)
         == CreditBetween(w, c, lo, hi) + (if lo <= x < hi then w(x) else 0.0)
    decreases hi
  {
    if lo < hi {
      CreditInsert(w, c, x, lo, hi - 1);
    }
  }

  /** The evaluator's list sum is the coalition's credit. */
  lemma {:induction false} CreditOfList(depth: nat, m: nat, xs: seq<nat>)
    requires m >= 1
    requires NoRepeats(xs)
    requires forall x :: x in xs ==> 1 <= x < m
    ensures Credit(depth, m, xs) == CoalitionCredit(depth, m, Members(xs))
  {
    hide GammaForDepth;
    if xs == [] {
      EmptyCredit(Shares(depth, m), 1, m);
      assert Members(xs) == {};
    } else {
      var n := |xs| - 1;
      NoRepeatsInit(xs);
      assert xs == xs[..n] + [xs[n]];
      assert forall x :: x in xs[..n] ==> x in xs;
      CreditOfList(depth, m, xs[..n]);
      CreditInsert(Shares(depth, m), Members(xs[..n]), xs[n], 1, m);
      assert Members(xs) == Members(xs[..n]) + {xs[n]};
    }
  }

  lemma {:induction false} EmptyCredit(w: nat -> real, lo: nat, hi: nat)
    requires lo <= hi
    ensures CreditBetween(w, {}, lo, hi) == 0.0
    decreases hi
  {
    if lo < hi {
      EmptyCredit(w, lo, hi - 1);
    }
  }

  lemma {:induction false} CountRange(lo: nat, hi: nat, x: nat)
    ensures Count(Range(lo, hi), x) == (if lo <= x < hi then 1 else 0)
    ensures lo <= hi ==> |Range(lo, hi)| == hi - lo
    decreases hi
  {
    if lo < hi {
      CountRange(lo, hi - 1, x);
      CountConcat(Range(lo, hi - 1), [hi - 1], x);
    }
  }

  lemma CountOthers(m: nat, p: nat, x: nat)
    requires 1 <= p < m
    ensures Count(OtherPositions(m, p), x) == (if 1 <= x < m && x != p then 1 else 0)
    ensures x in OtherPositions(m, p) <==> 1 <= x < m && x != p
    ensures |OtherPositions(m, p)| == m - 2
  {
    CountRange(1, p, x);
    CountRange(p + 1, m, x);
    var a, b := Range(1, p), Range(p + 1, m);
    CountConcat(a, b, x);
    CountMember(a + b, x);
  }

  lemma OthersElements(m: nat, p: nat)
    requires 1 <= p < m
    ensures NoRepeats(OtherPositions(m, p))
    ensures forall x: nat :: x in OtherPositions(m, p) <==> 1 <= x < m && x != p
    ensures |OtherPositions(m, p)| == m - 2
  {
    forall x: nat
      ensures Count(OtherPositions(m, p), x) <= 1
      ensures x in OtherPositions(m, p) <==> 1 <= x < m && x != p
    {
      CountOthers(m, p, x);
    }
    CountOthers(m, p, 0);
  }

  // ----- masks

  function Pow2(n: nat): nat {
    if n == 0 then 1 else 2 * Pow2(n - 1)
  }

  /** mask & (1 << i) != 0 */
  predicate Bit(mask: nat, i: nat)
    decreases i
  {
    if i == 0 then mask % 2 == 1 else Bit(mask / 2, i - 1)
  }

  /** The positions a mask selects, in order. */
  function Selected(mask: nat, others: seq<nat>): seq<nat> {
    if others == [] then []
    else
      var n := |others| - 1;
      Selected(mask, others[..n]) + (if Bit(mask, n) then [others[n]] else [])
  }

  /** The mask that selects exactly c. */
  ghost function MaskOf(c: set<nat>, others: seq<nat>): (mask: nat)
    ensures mask < Pow2(|others|)
  {
    if others == [] then 0
    else
      var n := |others| - 1;
      MaskOf(c, others[..n]) + (if others[n] in c then Pow2(n) else 0)
  }

  lemma {:induction false} BitOfSum(mask: nat, n: nat, i: nat)
    requires mask < Pow2(n)
    ensures i <= n ==> (Bit(mask + Pow2(n), i) <==> i == n || Bit(mask, i))
    ensures i >= n ==> !Bit(mask, i)
    decreases i
  {
    if i > 0 {
      if n > 0 {
        BitOfSum(mask / 2, n - 1, i - 1);
        assert (mask + Pow2(n)) / 2 == mask / 2 + Pow2(n - 1);
      } else {
        assert mask == 0;
        BitOfSum(0, 0, i - 1);
      }
    }
  }

  /** Bits above the list do not matter. */
  lemma {:induction false} SelectedIgnoresHighBit(mask: nat, n: nat, others: seq<nat>)
    requires mask < Pow2(n) && |others| <= n
    ensures Selected(mask + Pow2(n), others) == Selected(mask, others)
    decreases |others|
  {
    if others != [] {
      SelectedIgnoresHighBit(mask, n, others[..|others| - 1]);
      BitOfSum(mask, n, |others| - 1);
    }
  }

  lemma {:induction false} MaskSelects(c: set<nat>, others: seq<nat>)
    ensures Members(Selected(MaskOf(c, others), others)) == c * Members(others)
  {
    if others != [] {
      var n := |others| - 1;
      var init, last := others[..n], others[n];
      var low := MaskOf(c, init);
      MaskSelects(c, init);
      BitOfSum(low, n, n);
      SelectedIgnoresHighBit(low, n, init);
      assert Selected(MaskOf(c, others), others) == Selected(low, init) + (if last in c then [last] else []);
      assert others == init + [last];
      MembersConcat(init, [last]);
      MembersConcat(Selected(low, init), if last in c then [last] else []);
    }
  }

  lemma MembersConcat(xs: seq<nat>, ys: seq<nat>)
    ensures Members(xs + ys) == Members(xs) + Members(ys)
  {}

  lemma {:induction false} SelectedSubset(mask: nat, others: seq<nat>)
    ensures forall x :: x in Selected(mask, others) ==> x in others
    ensures forall x: nat :: Count(Selected(mask, others), x) <= Count(others, x)
  {
    if others != [] {
      var n := |others| - 1;
      SelectedSubset(mask, others[..n]);
      forall x: nat
        ensures Count(Selected(mask, others), x) <= Count(others, x)
      {
        CountConcat(Selected(mask, others[..n]), [others[n]], x);
        assert Selected(mask, others[..n]) + [] == Selected(mask, others[..n]);
      }
    }
  }

  /** A mask is recovered from the coalition it selects. */
  lemma {:induction false} MaskRecovered(mask: nat, others: seq<nat>)
    requires NoRepeats(others)
    requires mask < Pow2(|others|)
    ensures MaskOf(Members(Selected(mask, others)), others) == mask
  {
    if others != [] {
      var n := |others| - 1;
      var init := others[..n];
      NoRepeatsInit(others);
      var high := mask >= Pow2(n);
      var low := if high then mask - Pow2(n) else mask;
      BitOfSum(low, n, n);
      SelectedIgnoresHighBit(low, n, init);
      MaskRecovered(low, init);
      SelectedSubset(low, init);
      MaskOfAgrees(Members(Selected(mask, others)), Members(Selected(low, init)), init);
    }
  }

  lemma {:induction false} MaskOfAgrees(c: set<nat>, c': set<nat>, others: seq<nat>)
    requires forall x :: x in others ==> (x in c <==> x in c')
    ensures MaskOf(c, others) == MaskOf(c', others)
  {
    if others != [] {
      var n := |others| - 1;
      MaskOfAgrees(c, c', others[..n]);
    }
  }

  // ----- one case

  ghost predicate IsCoalition(m: nat, p: nat, c: set<nat>) {
    p in c && forall x :: x in c ==> 1 <= x < m
  }

  ghost function MaskCoalition(m: nat, p: nat, mask: nat): set<nat>
    requires 1 <= p < m
  {
    {p} + Members(Selected(mask, OtherPositions(m, p)))
  }

  /** The masks 0 .. 2^(m-2)-1 enumerate every coalition containing the relay, each exactly once. */
  lemma MasksEnumerateCoalitions(m: nat, p: nat)
    requires 1 <= p < m
    ensures forall mask: nat :: mask < Pow2(m - 2) ==> IsCoalition(m, p, MaskCoalition(m, p, mask))
    ensures forall c :: IsCoalition(m, p, c) ==>
              exists mask: nat :: mask < Pow2(m - 2) && MaskCoalition(m, p, mask) == c
    ensures forall a: nat, b: nat :: a < Pow2(m - 2) && b < Pow2(m - 2) && a != b
              ==> MaskCoalition(m, p, a) != MaskCoalition(m, p, b)
  {
    hide MaskCoalition, IsCoalition;
    forall mask: nat | mask < Pow2(m - 2)
      ensures IsCoalition(m, p, MaskCoalition(m, p, mask))
    {
      OriginalPositions(m, p, mask);
    }
    forall c | IsCoalition(m, p, c)
      ensures exists mask: nat :: mask < Pow2(m - 2) && MaskCoalition(m, p, mask) == c
    {
      var mask := CoalitionHasMask(m, p, c);
    }
    forall a: nat, b: nat | a < Pow2(m - 2) && b < Pow2(m - 2) && a != b
      ensures MaskCoalition(m, p, a) != MaskCoalition(m, p, b)
    {
      if MaskCoalition(m, p, a) == MaskCoalition(m, p, b) {
        MaskUnique(m, p, a, b);
      }
    }
  }

  lemma CoalitionHasMask(m: nat, p: nat, c: set<nat>) returns (mask: nat)
    requires 1 <= p < m && IsCoalition(m, p, c)
    ensures mask < Pow2(m - 2) && MaskCoalition(m, p, mask) == c
  {
    var others := OtherPositions(m, p);
    OthersElements(m, p);
    mask := MaskOf(c, others);
    MaskSelects(c, others);
    assert c * Members(others) == c - {p};
  }

  lemma MaskUnique(m: nat, p: nat, a: nat, b: nat)
    requires 1 <= p < m && a < Pow2(m - 2) && b < Pow2(m - 2)
    requires MaskCoalition(m, p, a) == MaskCoalition(m, p, b)
    ensures a == b
  {
    var others := OtherPositions(m, p);
    OthersElements(m, p);
    MaskRecovered(a, others);
    MaskRecovered(b, others);
    SelectedSubset(a, others);
    SelectedSubset(b, others);
    assert Members(Selected(a, others)) == MaskCoalition(m, p, a) - {p};
    assert Members(Selected(b, others)) == MaskCoalition(m, p, b) - {p};
  }

  lemma BaseCreditPositive(depth: nat, m: nat, p: nat, c: set<nat>)
    requires depth >= 1 && 1 <= p < m && p in c
    ensures CoalitionCredit(depth, m, c) > 0.0
  {
    hide GammaForDepth;
    var w := Shares(depth, m);
    SharesNonNegative(depth, m);
    CreditMonotone(w, {} + {p}, c, 1, m);
    CreditInsert(w, {}, p, 1, m);
    EmptyCredit(w, 1, m);
    GammaNonNegative(depth, p, m);
  }

  /** Padded over original credit of a coalition; the quantity the evaluator maximises. */
  ghost function PaddingRatio(depth: nat, m: nat, p: nat, k: nat, c: set<nat>): real
    requires depth >= 1 && 1 <= p < m && p in c
  {
    BaseCreditPositive(depth, m, p, c);
    CoalitionCredit(depth, m + k, PaddedCoalition(c, m, p, k)) / CoalitionCredit(depth, m, c)
  }

  lemma PaddingRatioRange(depth: nat, m: nat, p: nat, k: nat, c: set<nat>)
    requires depth >= 1 && 1 <= p < m && p in c
    ensures 0.0 <= PaddingRatio(depth, m, p, k, c) <= 1.0
  {
    hide GammaForDepth;
    BaseCreditPositive(depth, m, p, c);
    PaddingNeverPays(depth, m, p, k, c);
    CoalitionCreditBounded(depth, m + k, PaddedCoalition(c, m, p, k));
    var x, y := CoalitionCredit(depth, m + k, PaddedCoalition(c, m, p, k)), CoalitionCredit(depth, m, c);
    QuotientAtMostOne(x, y);
    QuotientNonNegative(x, y);
  }

  /** The list the evaluator builds for a mask, before sorting, is its coalition without repetition. */
  lemma OriginalPositions(m: nat, p: nat, mask: nat)
    requires 1 <= p < m
    ensures NoRepeats([p] + Selected(mask, OtherPositions(m, p)))
    ensures Members([p] + Selected(mask, OtherPositions(m, p))) == MaskCoalition(m, p, mask)
    ensures IsCoalition(m, p, MaskCoalition(m, p, mask))
  {
    var others := OtherPositions(m, p);
    OthersElements(m, p);
    SelectedSubset(mask, others);
    forall x: nat
      ensures Count([p] + Selected(mask, others), x) <= 1
    {
      CountConcat([p], Selected(mask, others), x);
      CountOthers(m, p, x);
      assert Count([p], x) == if x == p then 1 else 0;
    }
    MembersConcat([p], Selected(mask, others));
  }

  lemma {:induction false} ShiftOthersElements(xs: seq<nat>, p: nat, k: nat, y: nat)
    ensures Count(ShiftOthers(xs, p, k), y) == if Origin(y, p, k) == p then 0 else Count(xs, Origin(y, p, k))
  {
    if xs != [] {
      var n := |xs| - 1;
      ShiftOthersElements(xs[..n], p, k, y);
      if xs[n] != p {
        CountConcat(ShiftOthers(xs[..n], p, k), [Shift(xs[n], p, k)], y);
        assert Shift(xs[n], p, k) == y <==> xs[n] == Origin(y, p, k);
        assert Count([Shift(xs[n], p, k)], y) == if xs[n] == Origin(y, p, k) then 1 else 0;
      } else {
        assert ShiftOthers(xs, p, k) == ShiftOthers(xs[..n], p, k);
      }
    }
  }

  /** The padded list is the padded coalition without repetition. */
  lemma PaddedPositions(m: nat, p: nat, k: nat, xs: seq<nat>)
    requires 1 <= p < m && NoRepeats(xs) && IsCoalition(m, p, Members(xs))
    ensures NoRepeats(Range(p, p + k + 1) + ShiftOthers(xs, p, k))
    ensures Members(Range(p, p + k + 1) + ShiftOthers(xs, p, k)) == PaddedCoalition(Members(xs), m, p, k)
  {
    var all := Range(p, p + k + 1) + ShiftOthers(xs, p, k);
    forall y: nat
      ensures Count(all, y) <= 1
    {
      PaddedPosition(m, p, k, xs, y);
    }
    forall y: nat
      ensures y in all <==> y in PaddedCoalition(Members(xs), m, p, k)
    {
      PaddedPosition(m, p, k, xs, y);
    }
  }

  lemma PaddedPosition(m: nat, p: nat, k: nat, xs: seq<nat>, y: nat)
    requires 1 <= p < m && NoRepeats(xs) && IsCoalition(m, p, Members(xs))
    ensures Count(Range(p, p + k + 1) + ShiftOthers(xs, p, k), y) <= 1
    ensures y in Range(p, p + k + 1) + ShiftOthers(xs, p, k) <==> y in PaddedCoalition(Members(xs), m, p, k)
  {
    var x := Origin(y, p, k);
    PaddedCount(p, k, xs, y);
    CountMember(Range(p, p + k + 1) + ShiftOthers(xs, p, k), y);
    CountMember(xs, x);
    assert Count(xs, x) <= 1;
    assert x in Members(xs) <==> x in xs;
    assert p in Members(xs);
  }

  lemma PaddedCount(p: nat, k: nat, xs: seq<nat>, y: nat)
    ensures Count(Range(p, p + k + 1) + ShiftOthers(xs, p, k), y) == if p <= y
            <= p + k then 1 else Count(xs, Origin(y, p, k))
  {
    CountRange(p, p + k + 1, y);
    ShiftOthersElements(xs, p, k, y);
    CountConcat(Range(p, p + k + 1), ShiftOthers(xs, p, k), y);
  }

  /** One iteration of the mask loop: the two position lists of a mask and their credits. */
  method CreditsOfMask(depth: nat, m: nat, p: nat, k: nat, mask: nat)
    returns (originalPositions: seq<nat>, base: real, padded: real)
    requires depth >= 1 && 1 <= p < m
    ensures Sorted(originalPositions) && Members(originalPositions) == MaskCoalition(m, p, mask)
    ensures base == CoalitionCredit(depth, m, MaskCoalition(m, p, mask))
    ensures padded == CoalitionCredit(depth, m + k, PaddedCoalition(MaskCoalition(m, p, mask), m, p, k))
  {
    hide GammaForDepth, CoalitionCredit, PaddedCoalition, MaskCoalition;
    OriginalPositions(m, p, mask);
    originalPositions := SelectPositions(mask, p, OtherPositions(m, p));
    SortedMembers(originalPositions);
    originalPositions := SortPositions(originalPositions);

    PaddedPositions(m, p, k, originalPositions);
    var paddedPositions := PadPositions(originalPositions, p, k);
    SortedMembers(paddedPositions);
    paddedPositions := SortPositions(paddedPositions);

    base := Credit(depth, m, originalPositions);
    padded := Credit(depth, m + k, paddedPositions);
    ListCredits(depth, m, p, k, originalPositions, paddedPositions, MaskCoalition(m, p, mask));
  }

  method SelectPositions(mask: nat, relay: nat, otherPositions: seq<nat>) returns (positions: seq<nat>)
    ensures positions == [relay] + Selected(mask, otherPositions)
  {
    positions := [relay];
    for index := 0 to |otherPositions|
      invariant positions == [relay] + Selected(mask, otherPositions[..index])
    {
      assert otherPositions[..index + 1][..index] == otherPositions[..index];
      if Bit(mask, index) {
        positions := positions + [otherPositions[index]];
      }
    }
    assert otherPositions[..|otherPositions|] == otherPositions;
  }

  method PadPositions(original: seq<nat>, relay: nat, k: nat) returns (positions: seq<nat>)
    ensures positions == Range(relay, relay + k + 1) + ShiftOthers(original, relay, k)
  {
    positions := Range(relay, relay + k + 1);
    for index := 0 to |original|
      invariant positions == Range(relay, relay + k + 1) + ShiftOthers(original[..index], relay, k)
    {
      assert original[..index + 1][..index] == original[..index];
      var position := original[index];
      if position != relay {
        positions := positions + [if position < relay then position else position + k];
      }
    }
    assert original[..|original|] == original;
  }

  method EvaluatePaddingCase(depth: nat, originalPathLength: nat, relayPosition: nat,
                             insertedIdentities: nat, tolerance: real)
    returns (row: PaddingCaseResult)
    requires depth > 0
    requires originalPathLength >= 2
    requires 1 <= relayPosition < originalPathLength
    requires insertedIdentities > 0
    requires originalPathLength - 2 < 63
    ensures ShapeOf(row) == Shape(depth, originalPathLength, relayPosition, insertedIdentities)
    ensures row.coalitionAssignments == Pow2(originalPathLength - 2)
    // the reported worst case is a coalition that attains the maximum ...
    ensures Sorted(row.worstOriginalPositions)
    ensures IsWorstCase(row, Members(row.worstOriginalPositions))
    // ... over every coalition containing the relay
    ensures forall c :: IsCoalition(originalPathLength, relayPosition, c) ==>
              PaddingRatio(depth, originalPathLength, relayPosition, insertedIdentities, c) <= row.maxRatio
    ensures 0.0 <= row.maxRatio <= 1.0
    ensures row.passed == (row.maxRatio <= 1.0 + tolerance)
  {
    hide CoalitionCredit, PaddedCoalition, MaskCoalition, PaddingRatio;
    var m, p, k := originalPathLength, relayPosition, insertedIdentities;
    OthersElements(m, p);
    var assignments := Pow2(|OtherPositions(m, p)|);
    var maximum, worstBase, worstPadded := -1.0, 0.0, 0.0;
    var worstPositions: seq<nat> := [];
    MasksEnumerateCoalitions(m, p);
    for mask := 0 to assignments
      invariant mask == 0 ==> maximum == -1.0
      invariant mask > 0 ==> Sorted(worstPositions)
      invariant mask > 0 ==> Attains(depth, m, p, k, Members(worstPositions), worstBase, worstPadded, maximum)
      invariant forall a: nat :: a < mask ==>
        p in MaskCoalition(m, p, a) && PaddingRatio(depth, m, p, k, MaskCoalition(m, p, a)) <= maximum
    {
      var originalPositions, base, padded := CreditsOfMask(depth, m, p, k, mask);
      ghost var c := MaskCoalition(m, p, mask);
      assert IsCoalition(m, p, c);
      BaseCreditPositive(depth, m, p, c);
      PaddingRatioRange(depth, m, p, k, c);
      var ratio := padded / base;
      RatioIsQuotient(depth, m, p, k, c, base, padded);
      if ratio > maximum {
        maximum, worstBase, worstPadded := ratio, base, padded;
        worstPositions := originalPositions;
      }
    }
    Pow2Positive(m - 2);
    PaddingRatioRange(depth, m, p, k, Members(worstPositions));
    forall c | IsCoalition(m, p, c)
      ensures PaddingRatio(depth, m, p, k, c) <= maximum
    {
      var mask: nat :| mask < Pow2(m - 2) && MaskCoalition(m, p, mask) == c;
    }
    row := PaddingCaseResult(depth, m, p, k, assignments, worstPositions,
                             worstBase, worstPadded, maximum, maximum <= 1.0 + tolerance);
  }

  lemma RatioIsQuotient(depth: nat, m: nat, p: nat, k: nat, c: set<nat>, base: real, padded: real)
    requires depth >= 1 && 1 <= p < m && p in c
    requires base == CoalitionCredit(depth, m, c) > 0.0
    requires padded == CoalitionCredit(depth, m + k, PaddedCoalition(c, m, p, k))
    ensures PaddingRatio(depth, m, p, k, c) == padded / base
  {
    hide CoalitionCredit, PaddedCoalition;
  }

  lemma {:induction false} Pow2Positive(n: nat)
    ensures Pow2(n) >= 1
  {
    if n > 0 {
      Pow2Positive(n - 1);
    }
  }

  lemma ListCredits(depth: nat, m: nat, p: nat, k: nat, xs: seq<nat>, ys: seq<nat>, c: set<nat>)
    requires 1 <= p < m && IsCoalition(m, p, c)
    requires NoRepeats(xs) && Members(xs) == c
    requires NoRepeats(ys) && Members(ys) == PaddedCoalition(c, m, p, k)
    ensures Credit(depth, m, xs) == CoalitionCredit(depth, m, c)
    ensures Credit(depth, m + k, ys) == CoalitionCredit(depth, m + k, PaddedCoalition(c, m, p, k))
  {
    hide GammaForDepth;
    assert forall x :: x in xs ==> x in Members(xs);
    assert forall x :: x in ys ==> x in Members(ys);
    CreditOfList(depth, m, xs);
    CreditOfList(depth, m + k, ys);
  }

  /** c is a coalition with the given credits, and its ratio is the given one. */
  ghost predicate Attains(depth: nat, m: nat, p: nat, k: nat, c: set<nat>, base: real, padded: real, ratio: real)
    requires depth >= 1 && 1 <= p < m
  {
    && IsCoalition(m, p, c)
    && base == CoalitionCredit(depth, m, c) > 0.0
    && padded == CoalitionCredit(depth, m + k, PaddedCoalition(c, m, p, k))
    && ratio == PaddingRatio(depth, m, p, k, c)
  }

  ghost predicate IsWorstCase(row: PaddingCaseResult, c: set<nat>)
    requires row.depth >= 1 && 1 <= row.relayPosition < row.originalPathLength
  {
    Attains(row.depth, row.originalPathLength, row.relayPosition, row.insertedIdentities, c,
            row.baseCredit, row.paddedCredit, row.maxRatio)
  }

  // ----- the grid

  /** The shape of one evaluated case. */
  datatype Shape = Shape(depth: nat, length: nat, relay: nat, inserted: nat)

  function ShapeOf(row: PaddingCaseResult): Shape {
    Shape(row.depth, row.originalPathLength, row.relayPosition, row.insertedIdentities)
  }

  /** Padded paths that still fit into the hop limit. */
  predicate OnGrid(maxPathHops: nat, s: Shape) {
    1 <= s.relay < s.length && 1 <= s.inserted && s.length + s.inserted <= maxPathHops
  }

  /** Lexicographic order of (length, relay, inserted), the order in which the sweep visits shapes. */
  predicate Before(a: Shape, b: Shape) {
    || a.length < b.length
    || (a.length == b.length && a.relay < b.relay)
    || (a.length == b.length && a.relay == b.relay && a.inserted < b.inserted)
  }

  /** The rows visited before the given bound: each admissible shape once, in sweep order. */
  ghost predicate Swept(rows: seq<PaddingCaseResult>, depth: nat, bound: Shape, hops: nat, tolerance: real) {
    && (forall i :: 0 <= i < |rows| ==>
          ShapeOf(rows[i]).depth == depth && OnGrid(hops, ShapeOf(rows[i])) && Before(ShapeOf(rows[i]), bound))
    && (tolerance >= 0.0 ==> forall i :: 0 <= i < |rows| ==> rows[i].passed)
    && (forall i, j :: 0 <= i < j < |rows| ==> Before(ShapeOf(rows[i]), ShapeOf(rows[j])))
    && (forall s: Shape :: s.depth == depth && OnGrid(hops, s) && Before(s, bound) ==> Covered(rows, s))
  }

  ghost predicate Covered(rows: seq<PaddingCaseResult>, s: Shape) {
    exists i :: 0 <= i < |rows| && ShapeOf(rows[i]) == s
  }

  /** The sweep of one depth, complete. */
  ghost predicate SweptDepth(rows: seq<PaddingCaseResult>, depth: nat, hops: nat, tolerance: real) {
    Swept(rows, depth, Shape(depth, hops, 0, 0), hops, tolerance)
  }

  method SweepDepth(depth: nat, maxPathHops: nat, tolerance: real) returns (rows: seq<PaddingCaseResult>)
    requires depth > 0 && 3 <= maxPathHops <= 65
    ensures SweptDepth(rows, depth, maxPathHops, tolerance)
  {
    hide Swept;
    rows := [];
    SweptNothing(depth, maxPathHops, tolerance);
    for length := 2 to maxPathHops
      invariant Swept(rows, depth, Shape(depth, length, 0, 0), maxPathHops, tolerance)
    {
      Rebound(rows, depth, Shape(depth, length, 0, 0), Shape(depth, length, 1, 0), maxPathHops, tolerance);
      for relay := 1 to length
        invariant Swept(rows, depth, Shape(depth, length, relay, 0), maxPathHops, tolerance)
      {
        Rebound(rows, depth, Shape(depth, length, relay, 0), Shape(depth, length, relay, 1), maxPathHops, tolerance);
        for inserted := 1 to maxPathHops - length + 1
          invariant Swept(rows, depth, Shape(depth, length, relay, inserted), maxPathHops, tolerance)
        {
          var row := EvaluatePaddingCase(depth, length, relay, inserted, tolerance);
          Extend(rows, row, depth, Shape(depth, length, relay, inserted), maxPathHops, tolerance);
          rows := rows + [row];
        }
        Rebound(rows, depth, Shape(depth, length, relay, maxPathHops - length + 1), Shape(depth, length, relay + 1, 0),
                maxPathHops, tolerance);
      }
      Rebound(rows, depth, Shape(depth, length, length, 0), Shape(depth, length + 1, 0, 0), maxPathHops, tolerance);
    }
  }

  lemma SweptNothing(depth: nat, hops: nat, tolerance: real)
    ensures Swept([], depth, Shape(depth, 2, 0, 0), hops, tolerance)
  {}

  /** Moving the bound over shapes that are not on the grid changes nothing. */
  lemma Rebound(rows: seq<PaddingCaseResult>, depth: nat, a: Shape, b: Shape, hops: nat, tolerance: real)
    requires Swept(rows, depth, a, hops, tolerance)
    requires forall s: Shape :: s.depth == depth && OnGrid(hops, s) ==> (Before(s, a) <==> Before(s, b))
    ensures Swept(rows, depth, b, hops, tolerance)
  {}

  lemma Extend(rows: seq<PaddingCaseResult>, row: PaddingCaseResult, depth: nat, s: Shape, hops: nat, tolerance: real)
    requires s.depth == depth
    requires Swept(rows, depth, s, hops, tolerance)
    requires ShapeOf(row) == s && OnGrid(hops, s) && (tolerance >= 0.0 ==> row.passed)
    ensures Swept(rows + [row], depth, s.(inserted := s.inserted + 1), hops, tolerance)
  {
    var all, next := rows + [row], s.(inserted := s.inserted + 1);
    forall t: Shape | t.depth == depth && OnGrid(hops, t) && Before(t, next)
      ensures Covered(all, t)
    {
      if t == s {
        assert ShapeOf(all[|rows|]) == t;
      } else {
        assert Before(t, s);
        var i :| 0 <= i < |rows| && ShapeOf(rows[i]) == t;
        assert ShapeOf(all[i]) == t;
      }
    }
  }

  function Flatten(blocks: seq<seq<PaddingCaseResult>>): seq<PaddingCaseResult> {
    if blocks == [] then [] else Flatten(blocks[..|blocks| - 1]) + blocks[|blocks| - 1]
  }

  /** The whole grid, depth by depth. */
  method EvaluatePaddingGrid(depths: seq<nat>, maxPathHops: nat, tolerance: real)
    returns (rows: seq<PaddingCaseResult>, ghost blocks: seq<seq<PaddingCaseResult>>)
    requires maxPathHops >= 3 && (depths != [] ==> maxPathHops <= 65)
    requires forall d :: d in depths ==> d > 0
    ensures rows == Flatten(blocks) && |blocks| == |depths|
    ensures forall i :: 0 <= i < |depths| ==> SweptDepth(blocks[i], depths[i], maxPathHops, tolerance)
    ensures tolerance >= 0.0 ==> forall i :: 0 <= i < |rows| ==> rows[i].passed
    ensures forall i :: 0 <= i < |rows| ==> rows[i].depth in depths && OnGrid(maxPathHops, ShapeOf(rows[i]))
    ensures forall s: Shape :: s.depth in depths && OnGrid(maxPathHops, s) ==> Covered(rows, s)
  {
    rows, blocks := [], [];
    for n := 0 to |depths|
      invariant rows == Flatten(blocks) && |blocks| == n
      invariant forall i :: 0 <= i < n ==> SweptDepth(blocks[i], depths[i], maxPathHops, tolerance)
      invariant tolerance >= 0.0 ==> forall i :: 0 <= i < |rows| ==> rows[i].passed
      invariant forall i :: 0 <= i < |rows| ==> rows[i].depth in depths && OnGrid(maxPathHops, ShapeOf(rows[i]))
      invariant forall s: Shape :: s.depth in depths[..n] && OnGrid(maxPathHops, s) ==> Covered(rows, s)
    {
      assert depths[n] in depths;
      var block := SweepDepth(depths[n], maxPathHops, tolerance);
      assert (blocks + [block])[..n] == blocks;
      GridGrows(rows, block, depths, n, maxPathHops, tolerance);
      rows, blocks := rows + block, blocks + [block];
    }
    assert depths[..|depths|] == depths;
  }

  lemma GridGrows(rows: seq<PaddingCaseResult>, block: seq<PaddingCaseResult>, depths: seq<nat>, n: nat, hops: nat,
                  tolerance: real)
    requires n < |depths|
    requires forall s: Shape :: s.depth in depths[..n] && OnGrid(hops, s) ==> Covered(rows, s)
    requires SweptDepth(block, depths[n], hops, tolerance)
    ensures forall s: Shape :: s.depth in depths[..n + 1] && OnGrid(hops, s) ==> Covered(rows + block, s)
  {
    forall s: Shape | s.depth in depths[..n + 1] && OnGrid(hops, s)
      ensures Covered(rows + block, s)
    {
      if s.depth in depths[..n] {
        var i :| 0 <= i < |rows| && ShapeOf(rows[i]) == s;
        assert ShapeOf((rows + block)[i]) == s;
      } else {
        assert Before(s, Shape(depths[n], hops, 0, 0));
        var i :| 0 <= i < |block| && ShapeOf(block[i]) == s;
        assert ShapeOf((rows + block)[|rows| + i]) == s;
      }
    }
  }
}
