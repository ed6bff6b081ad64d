/**
  Generation of the hourly watch slots for a platoon of several squads.

  The start and the end of the night are first rounded to whole hours, by two
  different rules: the start moves up to the next hour when it is ten minutes
  or less before it, while the end moves up as soon as it is ten minutes or
  more past the hour. The first slot is the rounded start; every further slot
  is one hour after the previous one, modulo 24, and generation stops, without
  emitting it, at the first stepped slot whose hour equals the rounded end
  hour. The first slot is never compared, so equal rounded hours give a full
  day of slots.
 */
module Timetable {
  import opened Clock

  /** The start of the night rounded to a whole hour (up at minute 50 or later). */
  function RoundStart(t: ClockTime): (r: ClockTime)
    ensures r.minute == 0
    ensures r.hour == t.hour + 1 <==> t.minute >= 50
    ensures r.hour == t.hour <==> t.minute < 50
    ensures t.Valid() ==> t.Minutes() - 50 < r.Minutes() <= t.Minutes() + 10
  {
    ClockTime(if t.minute >= 50 then t.hour + 1 else t.hour, 0)
  }

  /** The end of the night rounded to a whole hour (up at minute 10 or later). */
  function RoundEnd(t: ClockTime): (r: ClockTime)
    ensures r.minute == 0
    ensures r.hour == t.hour + 1 <==> t.minute >= 10
    ensures r.hour == t.hour <==> t.minute < 10
    ensures t.Valid() ==> t.Minutes() - 10 < r.Minutes() <= t.Minutes() + 50
  {
    ClockTime(if t.minute >= 10 then t.hour + 1 else t.hour, 0)
  }

  /** The rounded start is the only whole hour in the window (t - 50 min, t + 10 min]. */
  lemma RoundStartUnique(t: ClockTime, h: int)
    requires t.Valid()
    requires t.Minutes() - 50 < h * 60 <= t.Minutes() + 10
    ensures h == RoundStart(t).hour
  {
  }

  /** The rounded end is the only whole hour in the window (t - 10 min, t + 50 min]. */
  lemma RoundEndUnique(t: ClockTime, h: int)
    requires t.Valid()
    requires t.Minutes() - 10 < h * 60 <= t.Minutes() + 50
    ensures h == RoundEnd(t).hour
  {
  }

  /** One step of the slot loop: add an hour, and subtract a day once it reaches 24. */
  function StepHour(h: int): (r: int)
    ensures 0 <= h <= 24 ==> 0 <= r < 24 && r == (h + 1) % 24
  {
    if h + 1 >= 24 then h + 1 - 24 else h + 1
  }

  /**
    How many slots the loop emits from a slot at hour h before the step lands
    on endH: the hours from h forward to endH, a full day when they coincide.
   */
  function SlotCount(h: int, endH: int): (c: int)
    ensures 1 <= c <= 24
    ensures (h + c - endH) % 24 == 0
  {
    var d := (endH - h) % 24;
    if d == 0 then 24 else d
  }

  /**
    The slots the loop appends after a slot at hour h, up to (and without)
    the first step that lands on endH. Every slot is on the hour.
   */
  function SlotsAfter(h: int, endH: int): (slots: seq<ClockTime>)
    requires 0 <= h <= 24 && 0 <= endH < 24
    ensures |slots| == SlotCount(h, endH) - 1
    ensures forall i :: 0 <= i < |slots| ==> slots[i].minute == 0
    ensures |slots| > 0 ==> slots[0].hour == StepHour(h)
    ensures forall i :: 1 <= i < |slots| ==> slots[i].hour == StepHour(slots[i - 1].hour)
    ensures forall i :: 0 <= i < |slots| ==> slots[i].hour != endH
    ensures StepHour(if |slots| == 0 then h else slots[|slots| - 1].hour) == endH
    decreases SlotCount(h, endH)
  {
    var next := StepHour(h);
    SlotCountStep(h, endH);
    if next == endH then []
    else
      var rest := SlotsAfter(next, endH);
      var slots := [ClockTime(next, 0)] + rest;
      assert forall i :: 1 <= i < |slots| ==> slots[i] == rest[i - 1];
      assert forall i :: 1 <= i < |slots| ==> slots[i].hour == StepHour(slots[i - 1].hour);
      assert slots[|slots| - 1] == (if |rest| == 0 then ClockTime(next, 0) else rest[|rest| - 1]);
      slots
  }

  /** Each step brings the slot one hour closer to the end. */
  lemma SlotCountStep(h: int, endH: int)
    requires 0 <= h <= 24 && 0 <= endH < 24
    ensures StepHour(h) == endH ==> SlotCount(h, endH) == 1
    ensures StepHour(h) != endH ==> SlotCount(StepHour(h), endH) == SlotCount(h, endH) - 1
  {
  }

  /**
    In a run of slots where each is one step after the previous, slot i is at
    the first slot's hour plus i, modulo 24.
   */
  lemma {:induction false} StepsClosedForm(slots: seq<ClockTime>, i: int)
    requires |slots| > 0 && 0 <= slots[0].hour <= 24
    requires forall k :: 1 <= k < |slots| ==> slots[k].hour == StepHour(slots[k - 1].hour)
    requires 1 <= i < |slots|
    ensures slots[i].hour == (slots[0].hour + i) % 24
    decreases i
  {
    if i > 1 {
      StepsClosedForm(slots, i - 1);
      StepWrapped(slots[0].hour + (i - 1));
    }
  }

  /** StepsClosedForm for every slot of the run at once. */
  lemma StepsClosedFormAll(slots: seq<ClockTime>)
    requires |slots| > 0 && 0 <= slots[0].hour <= 24
    requires forall k :: 1 <= k < |slots| ==> slots[k].hour == StepHour(slots[k - 1].hour)
    ensures forall i :: 1 <= i < |slots| ==> slots[i].hour == (slots[0].hour + i) % 24
  {
    forall i | 1 <= i < |slots| ensures slots[i].hour == (slots[0].hour + i) % 24 {
      StepsClosedForm(slots, i);
    }
  }

  /** Stepping an hour that is already wrapped into the day is adding one, modulo 24. */
  lemma StepWrapped(x: int)
    ensures StepHour(x % 24) == (x + 1) % 24
  {
    if x % 24 == 23 {
      assert (x + 1) % 24 == 0;
    }
  }

  /**
    The slots of the night when the platoon has several squads. The loop only
    ends when the rounded end hour is below 24 (see LateEndNeverReached).
   */
  function HourlyTimetable(start: ClockTime, end: ClockTime): (slots: seq<ClockTime>)
    requires start.Valid() && end.Valid()
    requires RoundEnd(end).hour < 24
    ensures |slots| == SlotCount(RoundStart(start).hour, RoundEnd(end).hour)
    ensures slots[0] == RoundStart(start)
    ensures forall i :: 0 <= i < |slots| ==> slots[i].minute == 0
    ensures forall i :: 1 <= i < |slots| ==> slots[i].hour == StepHour(slots[i - 1].hour)
    ensures forall i :: 1 <= i < |slots| ==> slots[i].hour == (slots[0].hour + i) % 24
    ensures forall i :: 1 <= i < |slots| ==> slots[i].hour != RoundEnd(end).hour
    ensures StepHour(slots[|slots| - 1].hour) == RoundEnd(end).hour
  {
    var first := RoundStart(start);
    var rest := SlotsAfter(first.hour, RoundEnd(end).hour);
    var slots := [first] + rest;
    assert forall i :: 1 <= i < |slots| ==> slots[i] == rest[i - 1];
    StepsClosedFormAll(slots);
    slots
  }

  /**
    An end at 23:10 or later rounds to hour 24, which no step of the loop can
    reach: the stepped hour is always below 24, so the loop would never stop.
   */
  lemma LateEndNeverReached(end: ClockTime, h: int)
    requires end.Valid() && 0 <= h <= 24
    ensures RoundEnd(end).hour >= 24 <==> end.hour == 23 && end.minute >= 10
    ensures RoundEnd(end).hour >= 24 ==> StepHour(h) != RoundEnd(end).hour
  {
  }

  /** A start at 23:50 or later gives a first slot at hour 24, which is not wrapped. */
  lemma LateStartNotWrapped(start: ClockTime, end: ClockTime)
    requires start.Valid() && end.Valid() && RoundEnd(end).hour < 24
    requires start.hour == 23 && start.minute >= 50
    ensures HourlyTimetable(start, end)[0] == ClockTime(24, 0)
  {
  }
}
