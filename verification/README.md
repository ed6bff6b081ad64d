# Night-watch timetable arithmetic

A Dafny model of the timetable arithmetic of a small tool that hands out
night-watch (patrol) slots to the squads of a platoon. Three pieces are modelled:

- **Length of the night** (`getTotalPatrolTime`). Start and end are clock times.
  When the start is later in the day than the end, the night crosses midnight
  and 24 hours are added to the end. Durations are whole minutes, not
  fractional hours.
- **Hourly slot generation** (`makeTimetable`, several-squad branch). The start
  is rounded to a whole hour, upwards at minute 50 or later. The end is rounded
  upwards at minute 10 or later. The first slot is the rounded start. Each
  further slot is one hour later, modulo 24. Generation stops, without emitting
  it, at the first stepped slot that equals the rounded end; the first slot is
  never compared.
- **Allocation of slot ranges to squads** (`makePatrolTimeTable`). The result is
  a half-open range `[lo, hi)` of slot indices for one squad:
  - one squad takes everything;
  - two balanced squads take a half each;
  - of two skewed squads, the smaller takes a third, by the program's own index formulas;
  - three or more squads share the night's hours near-equally, handed out in
    the order of a stable sort by squad size.

Modules, one per file:

| file | module | contents |
|---|---|---|
| clock.dfy | `Clock` | clock times, adding minutes, the length of the night |
| timetable.dfy | `Timetable` | rounding, the hour step, the hourly slot sequence |
| squad_order.dfy | `SquadOrder` | squads paired with their positions, stable sort by size |
| shares.dfy | `Shares` | near-equal hour shares, their sorting, sums and prefix sums |
| allocation.dfy | `Allocation` | the per-squad range for one, two, and three or more squads |
| night.dfy | `Night` | one squad's patrol slots end to end, worked examples, the corrected split |

Points where the code's behaviour is easy to misread, and which the model
keeps as they are:

- The slot loop compares only the stepped hours with the rounded end, never
  the first slot. When the rounded start and end hours coincide the night gets
  a full day of 24 slots, whatever its length: 22:05 to 22:08 lasts three
  minutes but has 24 slots, with shares of 1, 0 and 0 hours for three squads
  (`Night.ShortNightFullDay`). When the start and end times are equal, the
  length is also 0, since a day is added only when start > end; with three or
  more squads every share is then 0 hours and no squad gets a slot
  (`Night.EqualTimesFullDay`).
- Three or more squads: the code decides who gets the extra hour by comparing
  the share's position with the fractional remainder of hours mod the squad
  count. For a night of whole hours h this hands one extra hour to each of the
  first h mod k shares, and the shares add up to h. For other nights they add
  up to the length rounded up to whole hours (`Shares.SharesSum`).
- Nothing checks that the ranges fit in the slots. A range that reaches past
  the last slot makes the code raise an index error; the model returns
  `Err(SlotOutOfRange)`.

## Model

| member | source | states |
|---|---|---|
| Clock.PatrolDuration | main.py:78-95 | for valid times the length lies in [0, 24 h); with no midnight crossing it is end minus start |
| Clock.DurationZero | main.py:92-95 | for valid times the length is 0 exactly when start equals end, so equal times give an empty night rather than a full day |
| Clock.DurationRoundTrip | main.py:92-95 | adding the night's length to its start gives back the end time |
| Clock.DurationOfAdd | main.py:92-95 | the length from a start to start plus d minutes is d, for every d below a day |
| Clock.DurationUnique | main.py:92-95 | the length is the only amount in [0, 24 h) that carries the start onto the end modulo a day |
| Timetable.RoundStart | main.py:275-281 | the start hour goes up by one exactly when the minute is at least 50, and the minute becomes 0; the result is the whole hour in (t - 50 min, t + 10 min] |
| Timetable.RoundEnd | main.py:285-291 | the end hour goes up by one exactly when the minute is at least 10, and the minute becomes 0; the result is the whole hour in (t - 10 min, t + 50 min] |
| Timetable.RoundStartUnique | main.py:278-281 | no other whole hour lies in the start's rounding window |
| Timetable.RoundEndUnique | main.py:288-291 | no other whole hour lies in the end's rounding window |
| Timetable.StepHour | main.py:326-329 | for hours 0..24 one step gives (h + 1) mod 24, always below 24 |
| Timetable.SlotCount | main.py:325-331 | the number of slots is between 1 and 24, and start plus count is the end modulo 24 |
| Timetable.SlotsAfter | main.py:325-333 | the appended slots are on the hour, each one step after the previous, none equals the end hour, and the step after the last lands on the end hour |
| Timetable.SlotCountStep | main.py:325-331 | each step of the loop brings it one slot closer to the end |
| Timetable.StepsClosedFormAll | main.py:325-333 | in a run of slots each one loop step after the previous, slot i is at the first slot's hour plus i, modulo 24 |
| Timetable.HourlyTimetable | main.py:293-335 | the first slot is the rounded start; every slot has minute 0; each further slot is the previous plus one hour mod 24 and is never the rounded end; the count is (endH - startH) mod 24, or 24 when that is 0 |
| Timetable.LateEndNeverReached | main.py:288-331 | an end at 23:10 or later rounds to hour 24, and no step of the loop reaches it, so the loop would not stop |
| Timetable.LateStartNotWrapped | main.py:278-293 | a start at 23:50 or later gives a first slot at 24:00, unwrapped |
| SquadOrder.Indexed | main.py:414-419 | each squad is paired with its platoon position and its size |
| SquadOrder.Insert | main.py:423 | one stable insertion step keeps the entries, adds x, and keeps the (size, position) order |
| SquadOrder.SortBySize | main.py:423 | the sort keeps the same entries and count; for entries listed in platoon order it is strictly ordered by (size, position) |
| SquadOrder.Order | main.py:414-423 | the sorted platoon has as many entries as squads, exactly the squads paired with their positions, strictly ordered by (size, position); strict order rules out repeats, so it is a permutation |
| SquadOrder.OrderIsStableSort | main.py:414-423 | the sorted platoon holds every squad once with its own size; it is ascending in size, and equal sizes keep platoon order |
| SquadOrder.PositionOf | main.py:425-427 | the position found holds the squad, and no earlier position does |
| SquadOrder.Position | main.py:425-427 | each squad of the platoon has a position in the sorted order |
| SquadOrder.PositionUnique | main.py:425-427 | a squad has only one sorted position |
| SquadOrder.PositionInjective | main.py:425-427 | two different squads, even of equal size, never share a sorted position |
| SquadOrder.PositionMonotone | main.py:423-427 | a squad sorts before another exactly when it is smaller, or the same size and earlier in the platoon |
| Shares.ComputedShares | main.py:411-412 | there are k shares, each the whole part of hours/k or one more, in non-increasing order |
| Shares.SplitSum | main.py:411-412 | the first m shares add up to m whole parts plus one hour per position below ceil(r / 60) |
| Shares.SharesSum | main.py:411-412 | the shares add up to the night's hours rounded up; for a night of whole hours, exactly the hours |
| Shares.SortedShares | main.py:422 | the sorted shares are the computed shares reversed, ascending and non-negative |
| Shares.SortedSharesSum | main.py:422 | sorting keeps the total of the shares |
| Shares.PrefixSumLocate | main.py:429-435 | every slot below the total falls between the prefix sums around one share |
| Allocation.ShareSpan | main.py:429-435 | a squad's range starts at the sum of the shares sorted before it; it is as long as the share at its sorted position, which is the whole part or one more |
| Allocation.ReadSlots | main.py:434-435 | reading a range succeeds exactly when every index it holds is below the slot count, and then yields the range itself; otherwise it fails with an out-of-range read |
| Allocation.Balanced | main.py:370-371 | two squads are balanced when neither is at least twice the other; only squads that both have soldiers can be |
| Allocation.TwoSquadSpan | main.py:363-404 | the program's index formulas give balanced squads the halves [t(n/2), (t+1)(n/2)); the smaller skewed squad [0, n/3) first or [n - n/3, n) second; the larger [0, n - n/3) first or [n/3, n - n/3 + 2) second |
| Allocation.Allocate | main.py:356-437 | NotInPlatoon is returned exactly when the squad is not in the platoon; one squad gets [0, n); every range returned lies within the n slots (two skewed squads and three or more squads can still fail with an out-of-range read) |
| Allocation.BalancedSymmetric | main.py:370-371 | the balance test gives the same answer whichever of the two squads asks |
| Allocation.BalancedHalves | main.py:370-378 | balanced squads get [0, n/2) and [n/2, 2(n/2)); the halves are disjoint and equal in length, and only the last slot of an odd count is left out |
| Allocation.SkewedExactlyOne | main.py:384-395 | for positive sizes that are not balanced, exactly one of the two skewed branches applies |
| Allocation.SkewedSmallerSquad | main.py:384-393 | the smaller squad gets exactly floor(n/3) slots: [0, L) in first position, [n - L, n) in second |
| Allocation.SkewedLargerSquad | main.py:395-402 | the larger squad gets [0, n - L) in first position and [L, n - L + 2) in second; the second fails exactly when n < 6 |
| Allocation.SkewedFirstLargerPartitions | main.py:384-402 | larger squad first and smaller second: the two ranges partition [0, n) |
| Allocation.SkewedSecondLargerAdjacent | main.py:384-402 | smaller squad first and larger second: the ranges meet without overlap and cover [0, n - L + 2) |
| Allocation.ShareSpansDisjoint | main.py:411-435 | two different squads get non-overlapping ranges |
| Allocation.ShareSpanBound | main.py:411-435 | every range ends within the night's hours rounded up |
| Allocation.ShareSpansCover | main.py:411-435 | every slot below the night's hours rounded up lies in some squad's range |
| Allocation.ShareSpansPartition | main.py:411-437 | the ranges of all squads partition [0, ceil(T/60)): disjoint, within it, nothing left out |
| Allocation.ShareSpansFollowSize | main.py:421-435 | a smaller squad, or an equal one earlier in the platoon, gets its range wholly before the other's and never a larger share |
| Allocation.ManySquadsAllocation | main.py:406-437 | with three or more squads the allocation fails exactly when the range is non-empty and ends past the slots; when the rounded-up hours fit in the slots every squad gets its range |
| Night.SlotsIn | main.py:434-435 | slot i of a range is the night's slot lo + i, for as many slots as the range is long, so whole hours and hourly steps carry over |
| Night.PatrolTimetable | main.py:341-437 | a squad's patrol slots are the night's slots at the indices of its allocated range, in order, consecutive whole hours; it fails exactly when the allocation fails |
| Night.OverrunNight | main.py:68-335 | 22:55 to 06:05 gives 7 hourly slots from 23:00 but a night of 430 minutes |
| Night.OverrunShare | main.py:411-435 | over 430 minutes, squads 5, 8, 12 give the largest squad the range [5, 8) |
| Night.OverrunExample | main.py:411-435 | 22:55 to 06:05 with squads 5, 8, 12: asking for the largest squad fails with an out-of-range read |
| Night.EqualSharesExample | main.py:411-435 | squads 5, 8, 12 over nine whole hours get [0, 3), [3, 6), [6, 9) |
| Night.AllocateSlots | main.py:406-435 | splitting the slot count: NotInPlatoon exactly for a squad outside the platoon; with three or more squads that is the only failure; every range lies within the slots |
| Night.AllocateSlotsPartitions | main.py:406-435 | splitting the slot count, every squad of three or more gets its range, and the ranges partition all n slots |
| Night.AllocateSlotsTwoSquads | main.py:395-402 | the corrected split keeps the two-squad formulas: the larger of squads 5 and 10, second in the platoon, still fails over five slots |
| Night.OverrunCorrected | main.py:406-435 | on the overrun night, splitting the slot count keeps the largest squad within the seven slots |
| Night.EqualTimesFullDay | main.py:92-331 | equal start and end in the first ten minutes of an hour give 24 slots but a length of 0, so with three or more squads every squad gets no slot |
| Night.ZeroNightEmptyRanges | main.py:406-435 | a night of length 0 gives every squad of three or more the empty range [0, 0) |
| Night.ShortNightFullDay | main.py:68-335 | 22:05 to 22:08 gives 24 hourly slots but a length of 3 minutes, and shares of 1, 0, 0 hours for three squads |
| Night.SlotCountSplitFits | main.py:406-435 | splitting the slot count, a squad of a platoon of three or more always gets a range within the n slots |
| Night.UnderallocationExample | main.py:411-435 | 22:45 to 06:15 gives 9 slots but 450 minutes; no squad of 5, 8, 12 gets slot 8 (06:00) |

## Findings

| source | as written | input that shows it | evidently intended | confidence | as-written member | corrected member |
|---|---|---|---|---|---|---|
| main.py:411-435 | with three or more squads, the shares split the night's measured length. The slots come from the rounded hours, so the shares can add up to more than the slot count, and reading the last range raises an index error | night 22:55 to 06:05, squads of 5, 8 and 12 soldiers, asking for the third squad: 7 slots, shares 2, 3, 3, range [5, 8) | the comment says it "divides timeslots", so the shares should split the slot count | medium, not executed | Night.OverrunExample | Night.AllocateSlots |

`Night.AllocateSlotsPartitions` proves that the corrected split partitions all
n slots. `Night.OverrunCorrected` shows the failing night allocated within
bounds. The mismatch also has a silent direction: when the rounding adds slots
instead of taking them away, the shares add up to fewer hours than there are
slots and the last slots go to nobody. From 22:45 to 06:15 there are 9 slots
but shares of 3, 3 and 2 hours, so 06:00 is never handed out
(`Night.UnderallocationExample`); the corrected split covers all 9. The rest of the model keeps the code's behaviour (`Allocation.Allocate`).

## Left out

- Reading the configuration is not modelled: `getPatrolStartTime`, `getPatrolEndTime`,
  the `input()`/`open()` branches of `getTotalPatrolTime`, and `getPlatoonInfo`
  with its driver checks are file and console I/O. Clock times are taken as parsed
  integers. The "HH:MM" slicing is not modelled. Its `== 0` checks compare a
  string with an integer and never fire.
- The top-level script (console printing and the JSON dump) is not modelled: it is output only.
- The one-squad slot stepping of `makeTimetable` and `getTimePerSolder` is not
  modelled. It steps in float hours and stops on float equality, which may never hold.
- `organizeTable` is not modelled. It is unfinished and assigns soldiers with
  `random.choice`.
- Floating point is not modelled. The night's length is exact integer minutes,
  not float hours. Float `//` and `%` are treated as exact on T/60 hours, so
  rounding noise near whole hours (7.999… against 8) is ignored.
  `math.floor(n * (1/3))` is taken as n div 3.
  The harmful direction is also ignored: a length that evaluates just above a
  whole hour. From 01:01 to 08:01 the float length is 7.000000000000001 hours,
  so for three squads `//` and `%` give shares 3, 3, 2 over 7 slots and the
  last range is read past the end, although `Shares.SharesSum` and
  `Allocation.ManySquadsAllocation` show that the exact 420 minutes fit.
- Slot labels (`"%d:%02d"`) and the empty name field of each timetable entry are
  not modelled. A slot is its clock time.
- Finding "this squad" with `platoon.index` and dictionary inequality is replaced
  by an explicit target position. In the source, two equal squads get the same
  position, and in a two-squad platoon the other squad is never bound. Neither
  effect is modelled.
- Timetable.HourlyTimetable: requires a rounded end hour below 24. For an end at
  23:10 or later the source loops forever. `Timetable.LateEndNeverReached`
  states why.
- Night.PatrolTimetable: requires at least two squads. A one-squad platoon uses
  the one-squad timetable, which is not modelled. `Allocation.Allocate` still
  gives the one-squad range [0, n).
- Determinism has no separate lemma. Every member is a function of its inputs,
  so identical inputs give identical ranges.
