/**
  Ordering the squads of a platoon by size.

  Each squad is paired with its position in the platoon, and the pairs are
  sorted by size with a stable sort, so squads of equal size keep their
  platoon order. Because the positions are distinct and listed in increasing
  order, the stable result is strictly ordered by (size, position).
 */
module SquadOrder {

  /** A squad's position in the platoon and its number of soldiers. */
  datatype Entry = Entry(index: int, size: int)

  /** The platoon's squad sizes paired with their positions. */
  function Indexed(sizes: seq<int>): (es: seq<Entry>)
    ensures |es| == |sizes|
    ensures forall i :: 0 <= i < |es| ==> es[i].index == i && es[i].size == sizes[i]
  {
    seq(|sizes|, i requires 0 <= i < |sizes| => Entry(i, sizes[i]))
  }

  /** a comes before b: smaller, or the same size and earlier in the platoon. */
  predicate Precedes(a: Entry, b: Entry) {
    a.size < b.size || (a.size == b.size && a.index < b.index)
  }

  predicate StrictlyOrdered(s: seq<Entry>) {
    forall i, j :: 0 <= i < j < |s| ==> Precedes(s[i], s[j])
  }

  predicate IndexAscending(s: seq<Entry>) {
    forall i, j :: 0 <= i < j < |s| ==> s[i].index < s[j].index
  }

  /**
    Inserts x, which comes later in the platoon than every entry of s, after
    all entries no larger than it: one step of a stable insertion sort.
   */
  function Insert(x: Entry, s: seq<Entry>): (r: seq<Entry>)
    ensures |r| == |s| + 1
    ensures forall e :: e in r <==> e == x || e in s
    ensures StrictlyOrdered(s) && (forall e :: e in s ==> e.index < x.index) ==> StrictlyOrdered(r)
  {
    if |s| == 0 then [x]
    else if x.size < s[0].size then [x] + s
    else
      var rest := Insert(x, s[1..]);
      assert StrictlyOrdered(s) && (forall e :: e in s ==> e.index < x.index) ==>
        StrictlyOrdered([s[0]] + rest) by {
        if StrictlyOrdered(s) && (forall e :: e in s ==> e.index < x.index) {
          InsertedAfterHead(x, s, rest);
        }
      }
      [s[0]] + rest
  }

  /**
    When x is no smaller than the head of an ordered s and comes later in the
    platoon, the head still comes first once x is inserted into the tail.
   */
  lemma InsertedAfterHead(x: Entry, s: seq<Entry>, rest: seq<Entry>)
    requires |s| > 0 && s[0].size <= x.size
    requires StrictlyOrdered(s) && (forall e :: e in s ==> e.index < x.index)
    requires StrictlyOrdered(rest)
    requires forall e :: e in rest ==> e == x || e in s[1..]
    ensures StrictlyOrdered([s[0]] + rest)
  {
    forall e | e in rest ensures Precedes(s[0], e) {
      if e != x {
        var k :| 0 <= k < |s[1..]| && s[1..][k] == e;
        assert s[k + 1] == e;
      }
    }
    ConsOrdered(s[0], rest);
  }

  /** Putting a least entry in front of an ordered sequence keeps it ordered. */
  lemma ConsOrdered(a: Entry, s: seq<Entry>)
    requires StrictlyOrdered(s)
    requires forall e :: e in s ==> Precedes(a, e)
    ensures StrictlyOrdered([a] + s)
  {
    var r := [a] + s;
    forall i, j | 0 <= i < j < |r| ensures Precedes(r[i], r[j]) {
      assert r[j] == s[j - 1];
      if i > 0 {
        assert r[i] == s[i - 1];
      }
    }
  }

  /** Stable sort by size. */
  function SortBySize(s: seq<Entry>): (r: seq<Entry>)
    ensures |r| == |s|
    ensures forall e :: e in r <==> e in s
    ensures IndexAscending(s) ==> StrictlyOrdered(r)
  {
    if |s| == 0 then []
    else
      var init := s[..|s| - 1];
      assert forall e :: e in init ==> e in s;
      Insert(s[|s| - 1], SortBySize(init))
  }

  /** Where squad t ended up in the sorted order. */
  function PositionOf(order: seq<Entry>, t: int): (p: int)
    requires exists i :: 0 <= i < |order| && order[i].index == t
    ensures 0 <= p < |order| && order[p].index == t
    ensures forall q :: 0 <= q < p ==> order[q].index != t
  {
    if order[0].index == t then 0
    else
      assert exists i :: 0 <= i < |order[1..]| && order[1..][i].index == t by {
        var i :| 0 <= i < |order| && order[i].index == t;
        assert order[1..][i - 1] == order[i];
      }
      1 + PositionOf(order[1..], t)
  }

  /**
    The platoon sorted by size: the squads paired with their positions,
    rearranged into (size, position) order.
   */
  function Order(sizes: seq<int>): (r: seq<Entry>)
    ensures |r| == |sizes|
    ensures forall e :: e in r <==> e in Indexed(sizes)
    ensures StrictlyOrdered(r)
  {
    SortBySize(Indexed(sizes))
  }

  /**
    The sorted platoon holds every squad exactly once, ordered by size, and
    squads of equal size stay in platoon order.
   */
  lemma OrderIsStableSort(sizes: seq<int>)
    ensures |Order(sizes)| == |sizes|
    ensures forall t :: 0 <= t < |sizes| ==> Entry(t, sizes[t]) in Order(sizes)
    ensures forall e :: e in Order(sizes) ==> 0 <= e.index < |sizes| && e.size == sizes[e.index]
    ensures forall i, j :: 0 <= i < j < |sizes| ==> Order(sizes)[i].size <= Order(sizes)[j].size
    ensures forall i, j :: 0 <= i < j < |sizes| && Order(sizes)[i].size == Order(sizes)[j].size ==>
      Order(sizes)[i].index < Order(sizes)[j].index
    ensures StrictlyOrdered(Order(sizes))
  {
    var es := Indexed(sizes);
    forall t | 0 <= t < |sizes| ensures Entry(t, sizes[t]) in es {
      assert es[t] == Entry(t, sizes[t]);
    }
  }

  /** The squad at position t of the platoon; defined for every position. */
  function Position(sizes: seq<int>, t: int): (p: int)
    requires 0 <= t < |sizes|
    ensures 0 <= p < |sizes| && Order(sizes)[p] == Entry(t, sizes[t])
  {
    OrderIsStableSort(sizes);
    var order := Order(sizes);
    var e := Entry(t, sizes[t]);
    assert exists i :: 0 <= i < |order| && order[i].index == t by {
      var i :| 0 <= i < |order| && order[i] == e;
    }
    PositionOf(order, t)
  }

  /** Each slot of the sorted order belongs to exactly one squad. */
  lemma PositionUnique(sizes: seq<int>, t: int, p: int)
    requires 0 <= t < |sizes| && 0 <= p < |sizes|
    requires Order(sizes)[p].index == t
    ensures Position(sizes, t) == p
  {
    OrderIsStableSort(sizes);
    var order := Order(sizes);
    var q := Position(sizes, t);
    assert order[p] in order;
    assert order[p] == Entry(t, sizes[t]);
  }

  /** Two different squads never share a sorted position. */
  lemma PositionInjective(sizes: seq<int>, t1: int, t2: int)
    requires 0 <= t1 < |sizes| && 0 <= t2 < |sizes| && t1 != t2
    ensures Position(sizes, t1) != Position(sizes, t2)
  {
  }

  /**
    A squad that precedes another by (size, platoon position) is placed
    earlier in the sorted order, and conversely.
   */
  lemma PositionMonotone(sizes: seq<int>, t1: int, t2: int)
    requires 0 <= t1 < |sizes| && 0 <= t2 < |sizes|
    ensures Precedes(Entry(t1, sizes[t1]), Entry(t2, sizes[t2])) <==> Position(sizes, t1) < Position(sizes, t2)
  {
    OrderIsStableSort(sizes);
    var p1 := Position(sizes, t1);
    var p2 := Position(sizes, t2);
    if p2 < p1 {
      assert Precedes(Order(sizes)[p2], Order(sizes)[p1]);
    }
  }
}
