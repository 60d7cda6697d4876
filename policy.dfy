/**
 * Definitions shared by the two TLB simulators, 2021MT10230tlb.cpp (over the hand-written
 * HashMap) and 2021MT10230.cpp (over unordered_map): the limits of `int`, the FIFO ring
 * buffer's queue order and the next-use position the Optimal policy stores.
 */
module Policy {

  const INT_MAX: int := 0x7FFF_FFFF
  const INT_MIN: int := -0x8000_0000

  ghost predicate Distinct<T>(s: seq<T>) {
    forall i, j :: 0 <= i < j < |s| ==> s[i] != s[j]
  }

  ghost function Elems<T>(s: seq<T>): set<T> {
    set x | x in s
  }

  /** Bookkeeping of a FIFO ring buffer of capacity `cap` between calls: while it fills,
      `rear` is the slot of the newest item (cap - 1 while empty). */
  ghost predicate RingShape(cap: nat, rear: nat, size: nat) {
    && cap > 0 && rear < cap && size <= cap
    && (size < cap ==> rear == if size == 0 then cap - 1 else size - 1)
  }

  /** Advancing a slot index by one, modulo the capacity. */
  function Next(rear: nat, cap: nat): (r: nat)
    requires rear < cap
    ensures r < cap && r == (rear + 1) % cap
  {
    if rear + 1 < cap then rear + 1 else 0
  }

  /** The items of a ring buffer, oldest first: slots 0..size-1 while it fills; once full,
      the slot after `rear` holds the oldest item. */
  function RingOrder<T>(a: seq<T>, rear: nat, size: nat): seq<T>
    requires rear < |a| && size <= |a|
  {
    if size < |a| then a[..size] else a[rear + 1..] + a[..rear + 1]
  }

  /** One `add` on the ring buffer: `rear` advances modulo the capacity; when the buffer is
      full the slot it lands on holds the oldest item, and the queue drops its head; in
      both cases the new item joins the queue at the back. */
  lemma RingPush<T>(a: seq<T>, rear: nat, size: nat, item: T)
    requires |a| > 0 && RingShape(|a|, rear, size)
    ensures var r := Next(rear, |a|);
      var n := if size < |a| then size + 1 else size;
      && RingShape(|a|, r, n)
      && (size == |a| ==> a[r] == RingOrder(a, rear, size)[0])
      && RingOrder(a[r := item], r, n)
         == (if size < |a| then RingOrder(a, rear, size) else RingOrder(a, rear, size)[1..]) + [item]
  {
    if size < |a| {
      RingPushFilling(a, rear, size, item);
    } else if rear + 1 < |a| {
      RingPushFullInside(a, rear, item);
    } else {
      RingPushFullWrap(a, item);
    }
  }

  lemma RingPushFilling<T>(a: seq<T>, rear: nat, size: nat, item: T)
    requires |a| > 0 && RingShape(|a|, rear, size) && size < |a|
    ensures Next(rear, |a|) == size
    ensures RingOrder(a[size := item], size, size + 1) == a[..size] + [item]
  {
    var b := a[size := item];
    if size + 1 < |a| {
      assert b[..size + 1] == a[..size] + [item];
    } else {
      assert b[size + 1..] == [];
      assert b[..size + 1] == a[..size] + [item];
    }
  }

  lemma RingPushFullInside<T>(a: seq<T>, rear: nat, item: T)
    requires rear + 1 < |a|
    ensures RingOrder(a[rear + 1 := item], rear + 1, |a|)
         == RingOrder(a, rear, |a|)[1..] + [item]
    ensures a[rear + 1] == RingOrder(a, rear, |a|)[0]
  {
    var b := a[rear + 1 := item];
    assert b[rear + 2..] == a[rear + 2..];
    assert b[..rear + 2] == a[..rear + 1] + [item];
    assert (a[rear + 1..] + a[..rear + 1])[1..] == a[rear + 2..] + a[..rear + 1];
  }

  lemma RingPushFullWrap<T>(a: seq<T>, item: T)
    requires |a| > 0
    ensures RingOrder(a[0 := item], 0, |a|) == RingOrder(a, |a| - 1, |a|)[1..] + [item]
    ensures a[0] == RingOrder(a, |a| - 1, |a|)[0]
  {
    var b := a[0 := item];
    assert b[1..] == a[1..];
    assert b[..1] == [item];
    assert a[|a|..] + a[..|a|] == a;
  }

  /** The first position at or after `from` where `page` is accessed, or INT_MAX if there
      is none. */
  function NextUse<T(==)>(accesses: seq<T>, from: nat, page: T): (i: int)
    requires |accesses| <= INT_MAX
    ensures i == INT_MAX || (from <= i < |accesses| && accesses[i] == page)
    ensures forall j :: from <= j < |accesses| && (i == INT_MAX || j < i) ==> accesses[j] != page
    decreases |accesses| - from
  {
    if from >= |accesses| then INT_MAX
    else if accesses[from] == page then from
    else NextUse(accesses, from + 1, page)
  }

  /** Moving past a position that accesses another page does not change a page's next use. */
  lemma NextUseSkip<T>(accesses: seq<T>, c: nat, page: T)
    requires |accesses| <= INT_MAX && c < |accesses| && accesses[c] != page
    ensures NextUse(accesses, c, page) == NextUse(accesses, c + 1, page)
  {
  }

  /** One `add` on a ring buffer whose items are distinct and do not include `item`: the
      queue stays duplicate-free, and its items lose the oldest one (when full) and gain
      `item`. */
  lemma RingPushDistinct<T>(a: seq<T>, rear: nat, size: nat, item: T)
    requires |a| > 0 && RingShape(|a|, rear, size)
    requires Distinct(RingOrder(a, rear, size)) && item !in RingOrder(a, rear, size)
    ensures var r := Next(rear, |a|);
      var n := if size < |a| then size + 1 else size;
      var q := RingOrder(a[r := item], r, n);
      && RingShape(|a|, r, n) && Distinct(q)
      && (size == |a| ==> a[r] == RingOrder(a, rear, size)[0])
      && Elems(q) == (if size < |a| then Elems(RingOrder(a, rear, size))
                      else Elems(RingOrder(a, rear, size)) - {a[r]}) + {item}
  {
    RingPush(a, rear, size, item);
    var q := RingOrder(a, rear, size);
    if size < |a| {
      assert Elems(q + [item]) == Elems(q) + {item};
    } else {
      assert q == [q[0]] + q[1..];
      assert Elems(q[1..] + [item]) == Elems(q) - {q[0]} + {item};
    }
  }

  /** In a sequence without repetitions every item occurs once. */
  lemma {:induction false} DistinctCount<T>(q: seq<T>, x: T)
    requires Distinct(q)
    ensures multiset(q)[x] == if x in q then 1 else 0
  {
    if q != [] {
      var p := q[..|q| - 1];
      assert q == p + [q[|q| - 1]];
      assert Distinct(p);
      DistinctCount(p, x);
    }
  }

  /** An item at two positions occurs at least twice. */
  lemma PairCount<T>(q: seq<T>, i: nat, j: nat)
    requires i < j < |q|
    ensures q[i] == q[j] ==> multiset(q)[q[i]] >= 2
  {
    assert q == q[..i] + [q[i]] + q[i + 1..j] + [q[j]] + q[j + 1..];
  }

  /** A sequence has the multiset of a set exactly when it lists that set's elements, each
      once. */
  lemma ListsSet<T>(q: seq<T>, s: set<T>)
    ensures multiset(q) == multiset(s) <==> Distinct(q) && Elems(q) == s
  {
    if multiset(q) == multiset(s) {
      forall i, j | 0 <= i < j < |q|
        ensures q[i] != q[j]
      {
        PairCount(q, i, j);
      }
      forall x
        ensures x in Elems(q) <==> x in s
      {
        assert x in q <==> x in multiset(q);
      }
    }
    if Distinct(q) && Elems(q) == s {
      forall x
        ensures multiset(q)[x] == multiset(s)[x]
      {
        DistinctCount(q, x);
      }
    }
  }
}
