/**
  The patrol timetable of one squad in a platoon of several squads: the hourly
  slots of the night, cut down to the range allocated to that squad.
 */
module Night {
  import opened Clock
  import opened Timetable
  import opened SquadOrder
  import opened Shares
  import opened Allocation

  /**
    The slots of a range, or none when the range is empty: a run of
    consecutive slots, so it keeps whole hours and hourly steps.
   */
  function SlotsIn(slots: seq<ClockTime>, span: Span): (r: seq<ClockTime>)
    requires span.Length() == 0 || (0 <= span.lo && span.hi <= |slots|)
    ensures |r| == span.Length()
    ensures forall i :: 0 <= i < |r| ==> 0 <= span.lo + i < |slots| && r[i] == slots[span.lo + i]
    ensures forall i :: 0 <= i < |r| ==> r[i] in slots
    ensures (forall i :: 0 <= i < |slots| ==> slots[i].minute == 0) ==>
      forall i :: 0 <= i < |r| ==> r[i].minute == 0
    ensures (forall i :: 1 <= i < |slots| ==> slots[i].hour == StepHour(slots[i - 1].hour)) ==>
      forall i :: 1 <= i < |r| ==> r[i].hour == StepHour(r[i - 1].hour)
  {
    if span.lo < span.hi then
      var r := slots[span.lo..span.hi];
      assert forall i :: 0 <= i < |r| ==> r[i] == slots[span.lo + i];
      r
    else
      []
  }

  /** What an allocation hands out: the slots of its range, or its error. */
  function SlotsOf(slots: seq<ClockTime>, a: Result<Span>): (r: Result<seq<ClockTime>>)
    requires a.Ok? ==> a.value.Length() == 0 || (0 <= a.value.lo && a.value.hi <= |slots|)
    ensures r.Err? <==> a.Err?
    ensures r.Err? ==> r.error == a.error
    ensures r.Ok? ==> r.value == SlotsIn(slots, a.value)
  {
    match a
    case Err(e) => Err(e)
    case Ok(span) => Ok(SlotsIn(slots, span))
  }

  /**
    The patrol slots of the squad at position target, for a platoon of two or
    more squads: a run of consecutive whole-hour slots of the night, as many
    as its range holds, or the error of its allocation.
   */
  function PatrolTimetable(start: ClockTime, end: ClockTime, sizes: seq<int>, target: int)
    : (r: Result<seq<ClockTime>>)
    requires start.Valid() && end.Valid() && RoundEnd(end).hour < 24
    requires |sizes| >= 2
    ensures r.Err? <==> Allocate(|HourlyTimetable(start, end)|, PatrolDuration(start, end), sizes, target).Err?
    ensures r.Ok? ==>
      |r.value| == Allocate(|HourlyTimetable(start, end)|, PatrolDuration(start, end), sizes, target).value.Length()
    ensures r.Ok? ==> forall i :: 0 <= i < |r.value| ==>
      var lo := Allocate(|HourlyTimetable(start, end)|, PatrolDuration(start, end), sizes, target).value.lo;
      0 <= lo + i < |HourlyTimetable(start, end)| && r.value[i] == HourlyTimetable(start, end)[lo + i]
    ensures r.Ok? ==> forall i :: 0 <= i < |r.value| ==> r.value[i].minute == 0
    ensures r.Ok? ==> forall i :: 1 <= i < |r.value| ==> r.value[i].hour == StepHour(r.value[i - 1].hour)
  {
    var slots := HourlyTimetable(start, end);
    SlotsOf(slots, Allocate(|slots|, PatrolDuration(start, end), sizes, target))
  }

  /** The night from 22:55 to 06:05 rounds to seven hourly slots but lasts 430 minutes. */
  lemma OverrunNight()
    ensures |HourlyTimetable(ClockTime(22, 55), ClockTime(6, 5))| == 7
    ensures PatrolDuration(ClockTime(22, 55), ClockTime(6, 5)) == 430
  {
  }

  /** Squads of 5, 8 and 12 soldiers are already in size order. */
  lemma AscendingPlatoonOrder()
    ensures Position([5, 8, 12], 0) == 0
    ensures Position([5, 8, 12], 1) == 1
    ensures Position([5, 8, 12], 2) == 2
  {
    var sizes := [5, 8, 12];
    PositionMonotone(sizes, 0, 1);
    PositionMonotone(sizes, 0, 2);
    PositionMonotone(sizes, 1, 2);
  }

  /** 430 minutes over three squads: shares of 3, 3 and 2 hours, sorted to 2, 3, 3. */
  lemma OverrunShares()
    ensures SortedShares(430, 3) == [2, 3, 3]
  {
    assert ComputedShares(430, 3) == [3, 3, 2];
  }

  /** Of squads 5, 8 and 12 over 430 minutes, the largest is handed the range [5, 8). */
  lemma OverrunShare()
    ensures ShareSpan(430, [5, 8, 12], 2) == Span(5, 8)
  {
    AscendingPlatoonOrder();
    OverrunShares();
    var asc := SortedShares(430, 3);
    assert asc[..2] == [2, 3];
    assert Sum([2, 3]) == 5 by {
      assert [2, 3][..1] == [2];
      assert [2][..0] == [];
    }
  }

  /**
    A night from 22:55 to 06:05 with squads of 5, 8 and 12 soldiers: the
    rounded night is 23:00 to 06:00, seven hourly slots, but the night lasts
    7 h 10 min, whose shares 2, 3 and 3 hours add up to eight. The largest
    squad is handed [5, 8), and reading slot 7 of seven fails.
   */
  lemma OverrunExample()
    ensures PatrolTimetable(ClockTime(22, 55), ClockTime(6, 5), [5, 8, 12], 2) == Err(SlotOutOfRange)
  {
    OverrunNight();
    OverrunShare();
  }

  /**
    Rounded hours that coincide give a full day of slots whatever the night's
    length: 22:05 to 22:08 lasts three minutes but has 24 hourly slots, and
    its shares for three squads are 1, 0 and 0 hours.
   */
  lemma ShortNightFullDay()
    ensures |HourlyTimetable(ClockTime(22, 5), ClockTime(22, 8))| == 24
    ensures PatrolDuration(ClockTime(22, 5), ClockTime(22, 8)) == 3
    ensures ComputedShares(3, 3) == [1, 0, 0]
  {
    assert RoundStart(ClockTime(22, 5)).hour == RoundEnd(ClockTime(22, 8)).hour;
    ThreeMinuteShares();
  }

  /** Three minutes over three squads: only the first share gets the extra hour. */
  lemma ThreeMinuteShares()
    ensures ComputedShares(3, 3) == [1, 0, 0]
  {
    var c := ComputedShares(3, 3);
    assert c[0] == 1 && c[1] == 0 && c[2] == 0;
  }

  /**
    The same mismatch in the silent direction: 22:45 to 06:15 rounds to 22:00
    to 07:00, nine hourly slots, but lasts 7 h 30 min, whose shares add up to
    eight. The last slot, 06:00, goes to no squad.
   */
  lemma UnderallocationExample()
    ensures |HourlyTimetable(ClockTime(22, 45), ClockTime(6, 15))| == 9
    ensures HourlyTimetable(ClockTime(22, 45), ClockTime(6, 15))[8] == ClockTime(6, 0)
    ensures PatrolDuration(ClockTime(22, 45), ClockTime(6, 15)) == 450
    ensures forall t :: 0 <= t < 3 ==> !ShareSpan(450, [5, 8, 12], t).Contains(8)
  {
    forall t | 0 <= t < 3 ensures !ShareSpan(450, [5, 8, 12], t).Contains(8) {
      ShareSpanBound(450, [5, 8, 12], t);
    }
  }

  /**
    Three squads of 5, 8 and 12 soldiers over a night of nine whole hours get
    three hours each, in platoon order.
   */
  lemma EqualSharesExample()
    ensures ShareSpan(540, [5, 8, 12], 0) == Span(0, 3)
    ensures ShareSpan(540, [5, 8, 12], 1) == Span(3, 6)
    ensures ShareSpan(540, [5, 8, 12], 2) == Span(6, 9)
  {
    AscendingPlatoonOrder();
    var asc := SortedShares(540, 3);
    assert ComputedShares(540, 3) == [3, 3, 3];
    assert asc == [3, 3, 3];
    assert asc[..0] == [];
    assert asc[..1] == [3];
    assert asc[..2] == [3, 3];
    assert Sum([3]) == 3 by {
      assert [3][..0] == [];
    }
    assert Sum([3, 3]) == 6 by {
      assert [3, 3][..1] == [3];
    }
  }

  /**
    Equal start and end times within the first ten minutes of an hour: the
    slot loop only compares the stepped hours with the end, so the night gets
    a full day of 24 slots, while its length is 0. With three or more squads
    every share is then 0 hours and every squad gets no slot.
   */
  lemma EqualTimesFullDay(t: ClockTime, sizes: seq<int>, target: int)
    requires t.Valid() && t.minute < 10
    requires |sizes| >= 3 && 0 <= target < |sizes|
    ensures |HourlyTimetable(t, t)| == 24
    ensures PatrolDuration(t, t) == 0
    ensures PatrolTimetable(t, t, sizes, target) == Ok([])
  {
    assert RoundStart(t).hour == RoundEnd(t).hour;
    ZeroNightEmptyRanges(24, sizes, target);
  }

  /** A night of length 0 gives every squad of three or more the empty range [0, 0). */
  lemma ZeroNightEmptyRanges(n: nat, sizes: seq<int>, target: int)
    requires |sizes| >= 3 && 0 <= target < |sizes|
    ensures Allocate(n, 0, sizes, target) == Ok(Span(0, 0))
  {
    ManySquadsAllocation(n, 0, sizes, target);
    ShareSpanBound(0, sizes, target);
  }

  /**
    Splitting the slot count instead of the night's length: with n slots, the
    shares of n whole hours add up to exactly n.
   */
  function AllocateSlots(n: nat, sizes: seq<int>, target: int): (r: Result<Span>)
    ensures r == Err(NotInPlatoon) <==> !(0 <= target < |sizes|)
    ensures |sizes| >= 3 ==> (r.Err? <==> !(0 <= target < |sizes|))
    ensures r.Ok? ==> forall x :: r.value.Contains(x) ==> 0 <= x < n
  {
    SlotCountSplitFits(n, sizes, target);
    Allocate(n, 60 * n, sizes, target)
  }

  /**
    With three or more squads, the shares of n whole hours fit in n slots, so
    the allocation of a squad of the platoon never reads past the last slot.
   */
  lemma SlotCountSplitFits(n: nat, sizes: seq<int>, target: int)
    ensures |sizes| >= 3 && 0 <= target < |sizes| ==> Allocate(n, 60 * n, sizes, target).Ok?
  {
    if |sizes| >= 3 && 0 <= target < |sizes| {
      assert (60 * n + 59) / 60 == n;
      ManySquadsAllocation(n, 60 * n, sizes, target);
    }
  }

  /**
    With three or more squads, splitting the slot count gives every squad
    its range, and the ranges partition the n slots: no overlap, no slot left
    out.
   */
  lemma AllocateSlotsPartitions(n: nat, sizes: seq<int>)
    requires |sizes| >= 3
    ensures forall t :: 0 <= t < |sizes| ==> AllocateSlots(n, sizes, t) == Ok(ShareSpan(60 * n, sizes, t))
    ensures forall t1, t2 :: 0 <= t1 < |sizes| && 0 <= t2 < |sizes| && t1 != t2 ==>
      Disjoint(AllocateSlots(n, sizes, t1).value, AllocateSlots(n, sizes, t2).value)
    ensures forall x :: 0 <= x < n ==> Allocated(60 * n, sizes, x)
  {
    assert (60 * n + 59) / 60 == n;
    forall t | 0 <= t < |sizes|
      ensures AllocateSlots(n, sizes, t) == Ok(ShareSpan(60 * n, sizes, t))
    {
      ManySquadsAllocation(n, 60 * n, sizes, t);
    }
    ShareSpansPartition(60 * n, sizes);
  }

  /**
    The corrected split leaves the two-squad branches as they are: the larger
    of two skewed squads in second position still reads past five slots.
   */
  lemma AllocateSlotsTwoSquads()
    ensures AllocateSlots(5, [5, 10], 1) == Err(SlotOutOfRange)
  {
    SkewedLargerSquad(5, 300, [5, 10], 1);
  }

  /** On the night of the overrun, splitting the slot count keeps the largest squad within the seven slots. */
  lemma OverrunCorrected()
    ensures AllocateSlots(7, [5, 8, 12], 2).Ok?
  {
    ManySquadsAllocation(7, 420, [5, 8, 12], 2);
  }
}
