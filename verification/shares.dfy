/**
  Splitting the night's total hours into near-equal shares, one per squad.

  The night lasts T minutes, that is T / 60 hours, and the platoon has k
  squads. Every share gets the whole part of (T / 60) / k hours, and one
  extra hour goes to each of the first shares whose position is below the
  fractional remainder (T / 60) mod k. Measured in minutes these are integer
  operations: the whole part is T div 60k and share i gets the extra hour
  exactly when 60 * i < T mod 60k. The shares are then sorted ascending.
 */
module Shares {

  /** The sum of a sequence of integers. */
  function Sum(s: seq<int>): int {
    if |s| == 0 then 0 else Sum(s[..|s| - 1]) + s[|s| - 1]
  }

  /** Sum read from the front instead of the back. */
  lemma {:induction false} SumFront(s: seq<int>)
    requires |s| > 0
    ensures Sum(s) == s[0] + Sum(s[1..])
    decreases |s|
  {
    if |s| > 1 {
      var init := s[..|s| - 1];
      SumFront(init);
      assert init[1..] == s[1..][..|s[1..]| - 1];
      assert init[0] == s[0];
    } else {
      assert s[1..] == [];
      assert s[..0] == [];
    }
  }

  /** Extending a prefix by one element adds that element to its sum. */
  lemma PrefixSumStep(s: seq<int>, p: int)
    requires 0 <= p < |s|
    ensures Sum(s[..p + 1]) == Sum(s[..p]) + s[p]
  {
    assert s[..p + 1][..p] == s[..p];
  }

  /** Over non-negative elements, a longer prefix never has a smaller sum. */
  lemma {:induction false} PrefixSumMonotone(s: seq<int>, p: int, p': int)
    requires forall i :: 0 <= i < |s| ==> s[i] >= 0
    requires 0 <= p <= p' <= |s|
    ensures Sum(s[..p]) <= Sum(s[..p'])
    decreases p' - p
  {
    if p < p' {
      PrefixSumStep(s, p' - 1);
      PrefixSumMonotone(s, p, p' - 1);
    }
  }

  /**
    Over non-negative elements, every value below the total sum falls in the
    block of exactly one element: the one whose prefix sums enclose it.
   */
  lemma {:induction false} PrefixSumLocate(s: seq<int>, x: int) returns (p: int)
    requires forall i :: 0 <= i < |s| ==> s[i] >= 0
    requires 0 <= x < Sum(s)
    ensures 0 <= p < |s|
    ensures Sum(s[..p]) <= x < Sum(s[..p + 1])
    decreases |s|
  {
    var last := |s| - 1;
    var init := s[..last];
    assert s[..|s|] == s;
    assert s[..last + 1] == s;
    if x >= Sum(init) {
      p := last;
    } else {
      p := PrefixSumLocate(init, x);
      assert init[..p] == s[..p];
      assert init[..p + 1] == s[..p + 1];
    }
  }

  /** The sequence read backwards. */
  function Reverse(s: seq<int>): (r: seq<int>)
    ensures |r| == |s|
    ensures forall i :: 0 <= i < |s| ==> r[i] == s[|s| - 1 - i]
  {
    seq(|s|, i requires 0 <= i < |s| => s[|s| - 1 - i])
  }

  /** Reversing keeps the sum. */
  lemma {:induction false} SumReverse(s: seq<int>)
    ensures Sum(Reverse(s)) == Sum(s)
    decreases |s|
  {
    if |s| > 0 {
      var r := Reverse(s);
      SumReverse(s[1..]);
      assert r[..|r| - 1] == Reverse(s[1..]);
      SumFront(s);
    }
  }

  /** Whether share i of a split with remainder r gets the extra hour. */
  function ExtraHour(i: int, r: int): int {
    if 60 * i < r then 1 else 0
  }

  /** The first m shares of a split with whole part q and remainder r. */
  function Split(q: int, r: int, m: nat): seq<int> {
    seq(m, i requires 0 <= i < m => q + ExtraHour(i, r))
  }

  /**
    The first m shares add up to m whole parts plus one hour for every
    position below ceil(r / 60).
   */
  lemma {:induction false} SplitSum(q: int, r: int, m: nat)
    requires r >= 0
    ensures Sum(Split(q, r, m)) == m * q + if m < (r + 59) / 60 then m else (r + 59) / 60
  {
    if m > 0 {
      var s := Split(q, r, m);
      assert s[..m - 1] == Split(q, r, m - 1);
      SplitSum(q, r, m - 1);
      assert (m - 1) * q + q == m * q;
    }
  }

  /** Adding whole hours of minutes adds the same number of hours. */
  lemma DivShift(a: int, b: int)
    requires b >= 0
    ensures (60 * a + b) / 60 == a + b / 60
  {
  }

  /** Dividing a non-negative amount by a positive divisor gives a non-negative quotient. */
  lemma DivNonneg(a: nat, d: int)
    requires d > 0
    ensures a / d >= 0
  {
    var q := a / d;
    assert a == d * q + a % d && a % d < d;
    assert 0 < d * (q + 1);
  }

  /** The hour shares of a night of total minutes for k squads, in computed order. */
  function ComputedShares(total: nat, k: int): (s: seq<int>)
    requires k > 0
    ensures |s| == k
    ensures forall i :: 0 <= i < k ==>
      s[i] == total / (60 * k) || s[i] == total / (60 * k) + 1
    ensures forall i, j :: 0 <= i < j < k ==> s[i] >= s[j]
    ensures forall i :: 0 <= i < k ==> s[i] >= 0
  {
    var q := total / (60 * k);
    DivNonneg(total, 60 * k);
    Split(q, total % (60 * k), k)
  }

  /**
    The shares add up to the night's length in hours, rounded up; for a night
    of whole hours that is exactly the number of hours.
   */
  lemma SharesSum(total: nat, k: int)
    requires k > 0
    ensures Sum(ComputedShares(total, k)) == (total + 59) / 60
    ensures total % 60 == 0 ==> Sum(ComputedShares(total, k)) == total / 60
  {
    var q := total / (60 * k);
    var r := total % (60 * k);
    SplitSum(q, r, k);
    assert total == (60 * k) * q + r;
    assert (60 * k) * q == 60 * (k * q);
    assert (r + 59) / 60 <= k;
    DivShift(k * q, r + 59);
  }

  /** The shares sorted ascending: the computed shares never increase, so this is their reverse. */
  function SortedShares(total: nat, k: int): (s: seq<int>)
    requires k > 0
    ensures |s| == k
    ensures forall i :: 0 <= i < k ==> s[i] == ComputedShares(total, k)[k - 1 - i]
    ensures forall i, j :: 0 <= i < j < k ==> s[i] <= s[j]
    ensures forall i :: 0 <= i < k ==> s[i] >= 0
  {
    var c := ComputedShares(total, k);
    ReverseAscending(c);
    Reverse(c)
  }

  /** Reading a non-increasing sequence backwards gives a non-decreasing one. */
  lemma ReverseAscending(c: seq<int>)
    requires forall i, j :: 0 <= i < j < |c| ==> c[i] >= c[j]
    ensures forall i, j :: 0 <= i < j < |c| ==> Reverse(c)[i] <= Reverse(c)[j]
  {
    var s := Reverse(c);
    forall i, j | 0 <= i < j < |c| ensures s[i] <= s[j] {
      assert s[i] == c[|c| - 1 - i] && s[j] == c[|c| - 1 - j];
    }
  }

  /** Sorting keeps the total. */
  lemma SortedSharesSum(total: nat, k: int)
    requires k > 0
    ensures Sum(SortedShares(total, k)) == (total + 59) / 60
  {
    SumReverse(ComputedShares(total, k));
    SharesSum(total, k);
  }
}
