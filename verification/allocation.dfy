/**
  Allocation of the night's slots to one squad of the platoon.

  Given the number of slots n, the night's length, the ordered squad sizes and
  the position of the squad asking, the allocation is a half-open range of
  slot indices [lo, hi):
  - one squad takes every slot;
  - two squads of comparable size (neither at least twice the other) take
    one half each, the first squad the first half; with an odd count the last
    slot goes to nobody;
  - two squads of which one is at least twice the other: the smaller squad
    gets a third of the slots (rounded down), by the program's own index
    formulas, kept as they are;
  - three or more squads: the night's hours are split into near-equal shares,
    the shares are sorted ascending and handed out in order of squad size,
    and a squad's range starts after the shares of all squads before it.
  Reading a slot index at or past n is an error, as is a squad that is not in
  the platoon.
 */
module Allocation {
  import opened SquadOrder
  import opened Shares

  /** A half-open range [lo, hi) of slot indices. */
  datatype Span = Span(lo: int, hi: int) {
    predicate Contains(x: int) {
      lo <= x < hi
    }

    function Length(): int {
      if lo < hi then hi - lo else 0
    }
  }

  ghost predicate Disjoint(a: Span, b: Span) {
    forall x :: !(a.Contains(x) && b.Contains(x))
  }

  datatype AllocError =
    | NotInPlatoon    // the asking squad is not one of the platoon's squads
    | SlotOutOfRange  // the range reaches past the last slot

  datatype Result<T> = Ok(value: T) | Err(error: AllocError)

  /**
    Neither squad is at least twice the size of the other. Only squads that
    both have soldiers can be balanced.
   */
  predicate Balanced(mine: int, other: int): (b: bool)
    ensures b ==> mine > 0 && other > 0
  {
    mine * 2 > other && mine < other * 2
  }

  /**
    The range of the squad at position target of a two-squad platoon, by the
    program's own index formulas. They come down to halves for balanced
    squads, a third of the slots (rounded down) for the smaller of two skewed
    squads, and the rest, shifted by two in second position, for the larger.
   */
  function TwoSquadSpan(n: nat, sizes: seq<int>, target: int): (r: Span)
    requires |sizes| == 2 && 0 <= target < 2
    ensures Balanced(sizes[target], sizes[1 - target]) ==>
      r == Span(target * (n / 2), (target + 1) * (n / 2))
    ensures sizes[target] * 2 <= sizes[1 - target] ==>
      r == if target == 0 then Span(0, n / 3) else Span(n - n / 3, n)
    ensures sizes[target] * 2 > sizes[1 - target] && sizes[target] >= sizes[1 - target] * 2 ==>
      r == if target == 0 then Span(0, n - n / 3) else Span(n / 3, n - n / 3 + 2)
  {
    var mine := sizes[target];
    var other := sizes[1 - target];
    if Balanced(mine, other) then
      var half := n / 2;
      Span(target * half, half * (target + 1))
    else
      var lesser := n / 3;
      if mine * 2 <= other then
        var start := target * (n - target * lesser);
        Span(start, lesser + start)
      else if mine >= other * 2 then
        Span(target * (n - target * (n - target * lesser)), n - lesser + target * 2)
      else
        Span(0, 0)
  }

  /**
    The range of the squad at position target of a platoon of several squads:
    its share of the hours, placed after the shares of the squads sorted
    before it.
   */
  function ShareSpan(total: nat, sizes: seq<int>, target: int): (span: Span)
    requires 0 <= target < |sizes|
    ensures 0 <= span.lo <= span.hi
    ensures span.lo == Sum(SortedShares(total, |sizes|)[..Position(sizes, target)])
    ensures span.Length() == SortedShares(total, |sizes|)[Position(sizes, target)]
    ensures span.Length() == total / (60 * |sizes|) || span.Length() == total / (60 * |sizes|) + 1
  {
    var asc := SortedShares(total, |sizes|);
    var p := Position(sizes, target);
    var before := Sum(asc[..p]);
    PrefixSumMonotone(asc, 0, p);
    assert asc[..0] == [];
    Span(before, before + asc[p])
  }

  /**
    Reading the slots of a range one by one: fails at the first index that is
    not a slot.
   */
  function ReadSlots(span: Span, n: nat): (r: Result<Span>)
    ensures r.Ok? ==> r.value == span
    ensures r.Ok? <==> forall x :: span.Contains(x) ==> x < n
    ensures r.Err? ==> r.error == SlotOutOfRange
  {
    if span.lo < span.hi && span.hi > n then
      assert span.Contains(span.hi - 1);
      Err(SlotOutOfRange)
    else
      Ok(span)
  }

  /** The range of slots, out of n, that the squad at position target takes. */
  function Allocate(n: nat, total: nat, sizes: seq<int>, target: int): (r: Result<Span>)
    ensures r == Err(NotInPlatoon) <==> !(0 <= target < |sizes|)
    ensures |sizes| == 1 && target == 0 ==> r == Ok(Span(0, n))
    ensures r.Ok? ==> forall x :: r.value.Contains(x) ==> 0 <= x < n
    ensures r.Ok? ==> r.value.Length() == 0 || (0 <= r.value.lo && r.value.hi <= n)
  {
    if !(0 <= target < |sizes|) then Err(NotInPlatoon)
    else if |sizes| == 1 then Ok(Span(0, n))
    else if |sizes| == 2 then ReadSlots(TwoSquadSpan(n, sizes, target), n)
    else ReadSlots(ShareSpan(total, sizes, target), n)
  }

  // ---------------------------------------------------------------------------
  // Two squads

  /** Whether the two squads are balanced does not depend on which one asks. */
  lemma BalancedSymmetric(a: int, b: int)
    ensures Balanced(a, b) <==> Balanced(b, a)
  {
  }

  /**
    Two balanced squads take the two halves; the halves have equal length,
    do not overlap, and leave out only the last slot of an odd count.
   */
  lemma BalancedHalves(n: nat, total: nat, sizes: seq<int>)
    requires |sizes| == 2 && Balanced(sizes[0], sizes[1])
    ensures Allocate(n, total, sizes, 0) == Ok(Span(0, n / 2))
    ensures Allocate(n, total, sizes, 1) == Ok(Span(n / 2, 2 * (n / 2)))
    ensures Disjoint(Span(0, n / 2), Span(n / 2, 2 * (n / 2)))
    ensures Span(0, n / 2).Length() == Span(n / 2, 2 * (n / 2)).Length()
    ensures forall x :: 0 <= x < n ==>
      (Span(0, n / 2).Contains(x) || Span(n / 2, 2 * (n / 2)).Contains(x) <==> !(n % 2 == 1 && x == n - 1))
  {
    BalancedSymmetric(sizes[0], sizes[1]);
  }

  /**
    For two squads of positive size that are not balanced, exactly one of
    the two skewed cases applies.
   */
  lemma SkewedExactlyOne(mine: int, other: int)
    requires mine > 0 && other > 0 && !Balanced(mine, other)
    ensures (mine * 2 <= other) != (mine >= other * 2)
  {
  }

  /**
    The smaller of two skewed squads gets a third of the slots, rounded down:
    the first ones when it comes first, the last ones when it comes second.
   */
  lemma SkewedSmallerSquad(n: nat, total: nat, sizes: seq<int>, target: int)
    requires |sizes| == 2 && 0 <= target < 2
    requires sizes[target] > 0 && sizes[target] * 2 <= sizes[1 - target]
    ensures Allocate(n, total, sizes, target) ==
      Ok(if target == 0 then Span(0, n / 3) else Span(n - n / 3, n))
    ensures Allocate(n, total, sizes, target).value.Length() == n / 3
  {
  }

  /**
    The larger of two skewed squads: in first position it gets everything
    but the smaller squad's third; in second position it gets [n/3, n - n/3 + 2),
    which reaches past the last slot exactly when n < 6.
   */
  lemma SkewedLargerSquad(n: nat, total: nat, sizes: seq<int>, target: int)
    requires |sizes| == 2 && 0 <= target < 2
    requires sizes[1 - target] > 0 && sizes[target] >= sizes[1 - target] * 2
    ensures target == 0 ==> Allocate(n, total, sizes, target) == Ok(Span(0, n - n / 3))
    ensures target == 1 && n >= 6 ==> Allocate(n, total, sizes, target) == Ok(Span(n / 3, n - n / 3 + 2))
    ensures target == 1 ==> (Allocate(n, total, sizes, target).Err? <==> n < 6)
  {
    assert !Balanced(sizes[target], sizes[1 - target]);
    assert !(sizes[target] * 2 <= sizes[1 - target]);
  }

  /**
    A larger squad in first position and a smaller one in second split the
    slots exactly: every slot goes to exactly one of them.
   */
  lemma SkewedFirstLargerPartitions(n: nat, total: nat, sizes: seq<int>)
    requires |sizes| == 2 && sizes[1] > 0 && sizes[0] >= sizes[1] * 2
    ensures Allocate(n, total, sizes, 0).Ok? && Allocate(n, total, sizes, 1).Ok?
    ensures Disjoint(Allocate(n, total, sizes, 0).value, Allocate(n, total, sizes, 1).value)
    ensures forall x :: 0 <= x < n ==>
      Allocate(n, total, sizes, 0).value.Contains(x) || Allocate(n, total, sizes, 1).value.Contains(x)
  {
    SkewedLargerSquad(n, total, sizes, 0);
    SkewedSmallerSquad(n, total, sizes, 1);
  }

  /**
    A smaller squad in first position and a larger one in second: the two
    ranges meet without overlap and together cover [0, n - n/3 + 2).
   */
  lemma SkewedSecondLargerAdjacent(n: nat, total: nat, sizes: seq<int>)
    requires |sizes| == 2 && sizes[0] > 0 && sizes[1] >= sizes[0] * 2
    ensures TwoSquadSpan(n, sizes, 0) == Span(0, n / 3)
    ensures TwoSquadSpan(n, sizes, 1) == Span(n / 3, n - n / 3 + 2)
    ensures Disjoint(TwoSquadSpan(n, sizes, 0), TwoSquadSpan(n, sizes, 1))
    ensures forall x :: 0 <= x < n - n / 3 + 2 ==>
      TwoSquadSpan(n, sizes, 0).Contains(x) || TwoSquadSpan(n, sizes, 1).Contains(x)
  {
    assert !Balanced(sizes[1], sizes[0]);
  }

  // ---------------------------------------------------------------------------
  // Three or more squads

  /** Two different squads get ranges that do not overlap. */
  lemma ShareSpansDisjoint(total: nat, sizes: seq<int>, t1: int, t2: int)
    requires 0 <= t1 < |sizes| && 0 <= t2 < |sizes| && t1 != t2
    ensures Disjoint(ShareSpan(total, sizes, t1), ShareSpan(total, sizes, t2))
  {
    var asc := SortedShares(total, |sizes|);
    var p1 := Position(sizes, t1);
    var p2 := Position(sizes, t2);
    PositionInjective(sizes, t1, t2);
    if p1 < p2 {
      PrefixSumStep(asc, p1);
      PrefixSumMonotone(asc, p1 + 1, p2);
    } else {
      PrefixSumStep(asc, p2);
      PrefixSumMonotone(asc, p2 + 1, p1);
    }
  }

  /** Every range lies within the first ceil(total / 60) slots. */
  lemma ShareSpanBound(total: nat, sizes: seq<int>, t: int)
    requires 0 <= t < |sizes|
    ensures ShareSpan(total, sizes, t).hi <= (total + 59) / 60
  {
    var asc := SortedShares(total, |sizes|);
    var p := Position(sizes, t);
    PrefixSumStep(asc, p);
    PrefixSumMonotone(asc, p + 1, |asc|);
    assert asc[..|asc|] == asc;
    SortedSharesSum(total, |sizes|);
  }

  /** Every slot below ceil(total / 60) lies in the range of some squad. */
  lemma ShareSpansCover(total: nat, sizes: seq<int>, x: int) returns (t: int)
    requires |sizes| > 0 && 0 <= x < (total + 59) / 60
    ensures 0 <= t < |sizes| && ShareSpan(total, sizes, t).Contains(x)
  {
    var asc := SortedShares(total, |sizes|);
    SortedSharesSum(total, |sizes|);
    var p := PrefixSumLocate(asc, x);
    OrderIsStableSort(sizes);
    t := Order(sizes)[p].index;
    assert Order(sizes)[p] in Order(sizes);
    PositionUnique(sizes, t, p);
    PrefixSumStep(asc, p);
  }

  /** Slot x lies in the range of some squad of the platoon. */
  ghost predicate Allocated(total: nat, sizes: seq<int>, x: int) {
    exists t :: 0 <= t < |sizes| && ShareSpan(total, sizes, t).Contains(x)
  }

  /**
    The ranges of all squads partition the first ceil(total / 60) slots:
    they do not overlap, lie within them, and leave none of them out.
   */
  lemma ShareSpansPartition(total: nat, sizes: seq<int>)
    requires |sizes| > 0
    ensures forall t1, t2 :: 0 <= t1 < |sizes| && 0 <= t2 < |sizes| && t1 != t2 ==>
      Disjoint(ShareSpan(total, sizes, t1), ShareSpan(total, sizes, t2))
    ensures forall t, x :: 0 <= t < |sizes| && ShareSpan(total, sizes, t).Contains(x) ==>
      0 <= x < (total + 59) / 60
    ensures forall x :: 0 <= x < (total + 59) / 60 ==> Allocated(total, sizes, x)
  {
    forall t1, t2 | 0 <= t1 < |sizes| && 0 <= t2 < |sizes| && t1 != t2
      ensures Disjoint(ShareSpan(total, sizes, t1), ShareSpan(total, sizes, t2))
    {
      ShareSpansDisjoint(total, sizes, t1, t2);
    }
    forall t | 0 <= t < |sizes|
      ensures ShareSpan(total, sizes, t).hi <= (total + 59) / 60
    {
      ShareSpanBound(total, sizes, t);
    }
    forall x | 0 <= x < (total + 59) / 60
      ensures Allocated(total, sizes, x)
    {
      var t := ShareSpansCover(total, sizes, x);
    }
  }

  /**
    A squad that is smaller, or of equal size and earlier in the platoon,
    gets its range wholly before the other's and never a larger share; so a
    larger squad never gets a smaller share.
   */
  lemma ShareSpansFollowSize(total: nat, sizes: seq<int>, t1: int, t2: int)
    requires 0 <= t1 < |sizes| && 0 <= t2 < |sizes|
    requires Precedes(Entry(t1, sizes[t1]), Entry(t2, sizes[t2]))
    ensures ShareSpan(total, sizes, t1).hi <= ShareSpan(total, sizes, t2).lo
    ensures ShareSpan(total, sizes, t1).Length() <= ShareSpan(total, sizes, t2).Length()
  {
    var asc := SortedShares(total, |sizes|);
    var p1 := Position(sizes, t1);
    var p2 := Position(sizes, t2);
    PositionMonotone(sizes, t1, t2);
    PrefixSumStep(asc, p1);
    PrefixSumMonotone(asc, p1 + 1, p2);
  }

  /**
    With three or more squads, a squad's allocation fails exactly when its
    range is non-empty and reaches past the last slot; when the night's
    hours, rounded up, do not exceed the slot count, every squad gets its range.
   */
  lemma ManySquadsAllocation(n: nat, total: nat, sizes: seq<int>, t: int)
    requires |sizes| >= 3 && 0 <= t < |sizes|
    ensures Allocate(n, total, sizes, t).Ok? ==> Allocate(n, total, sizes, t).value == ShareSpan(total, sizes, t)
    ensures Allocate(n, total, sizes, t).Err? <==>
      ShareSpan(total, sizes, t).Length() > 0 && ShareSpan(total, sizes, t).hi > n
    ensures (total + 59) / 60 <= n ==> Allocate(n, total, sizes, t) == Ok(ShareSpan(total, sizes, t))
  {
    ShareSpanBound(total, sizes, t);
  }
}
