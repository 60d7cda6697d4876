/**
 * The four TLB replacement policies of 2021MT10230tlb.cpp, built over the hand-written
 * HashMap. The table's dictionary view (`Stored`) is the set of resident pages; `search`
 * returning 0 stands for "absent", so every policy stores non-zero values: 1 for FIFO and
 * LIFO, a positive stamp for LRU and the negated next-use position for Optimal.
 *
 * LRU and Optimal erase a page on a hit without decrementing `size`, and then call `add`,
 * which, when `size == capacity`, evicts the key `least` reports. Once the table has
 * drifted empty, `least` returns a variable it never assigned. The members below require
 * (or, for `simulate`, stop at) the state where that read would happen; see `Evictable`.
 */
module HashedTlb {

  import opened Policy
  import opened Wrappers
  import opened HashTable

  /** A well-formed table whose pairs, in bucket order, spell out the dictionary `d`,
      each key once. */
  ghost predicate Keyed(t: HashMap, d: map<int, int>)
    reads t
  {
    t.Valid() && Dictionary(t.Pairs()) == Some(d)
  }

  /** The table every TLB starts with: `new HashMap()`, 100 empty buckets. */
  method NewTable() returns (t: HashMap)
    ensures fresh(t) && Keyed(t, map[]) && t.totalElements == 0 && t.bucketSize == 100
  {
    t := new HashMap(100);
  }

  /** `search` on a table without repeated keys: the stored value, or 0 for an absent key. */
  method SearchKey(t: HashMap, ghost d: map<int, int>, key: int) returns (value: int)
    requires Keyed(t, d) && key >= 0
    ensures value == if key in d then d[key] else 0
  {
    DictionaryBag(t.Pairs());
    value := t.Search(key);
  }

  /** `insert` of a key the table does not hold adds exactly that entry. */
  method InsertNew(t: HashMap, ghost d: map<int, int>, key: int, value: int)
    requires Keyed(t, d) && key >= 0 && key !in d
    modifies t
    ensures Keyed(t, d[key := value]) && t.totalElements == old(t.totalElements) + 1
  {
    DictionaryBag(t.Pairs());
    AddFresh(t.Bag(), key, value);
    t.Insert(key, value);
    DictionaryBag(t.Pairs());
  }

  /** `remove` drops the key's entry, if any, and counts it. */
  method RemoveKey(t: HashMap, ghost d: map<int, int>, key: int)
    requires Keyed(t, d) && key >= 0
    modifies t
    ensures Keyed(t, d - {key})
    ensures t.totalElements == if key in d then old(t.totalElements) - 1 else old(t.totalElements)
  {
    DictionaryBag(t.Pairs());
    t.Remove(key);
    DictionaryBag(t.Pairs());
  }

  /** The table side of a FIFO `add`: when `evict` holds, `remove(victim)` first; then
      `insert(key, value)` of a key the table does not hold afterwards. */
  method Replace(t: HashMap, ghost d: map<int, int>, evict: bool, victim: int, key: int, value: int)
    requires Keyed(t, d) && (evict ==> victim >= 0) && key >= 0
    requires key !in (if evict then d - {victim} else d)
    modifies t
    ensures Keyed(t, (if evict then d - {victim} else d)[key := value])
  {
    ghost var e := d;
    if evict {
      RemoveKey(t, d, victim);
      e := d - {victim};
    }
    InsertNew(t, e, key, value);
  }

  /** `least` on a non-empty table whose values are all below INT_MAX: a stored key with
      the smallest value. */
  method LeastKey(t: HashMap, ghost d: map<int, int>) returns (key: int)
    requires Keyed(t, d) && t.totalElements > 0
    requires forall k :: k in d ==> d[k] < INT_MAX
    ensures key in d && forall k :: k in d ==> d[key] <= d[k]
  {
    ghost var ps := t.Pairs();
    DictionaryBag(ps);
    assert ps[0] in multiset(ps);
    AsMapLookup(multiset(ps), ps[0]);
    assert ps[0].1 < INT_MAX;
    key := t.Least();
  }

  /** The FIFO bookkeeping on values: `m` holds exactly the pages of the ring buffer `a`
      (oldest first from `rear` and `size`), each once, under a non-negative key and with a
      non-zero value. */
  ghost predicate FifoInv(m: map<int, int>, a: seq<int>, rear: nat, size: nat) {
    && |a| > 0 && RingShape(|a|, rear, size)
    && multiset(RingOrder(a, rear, size)) == multiset(m.Keys)
    && forall k :: k in m ==> k >= 0 && m[k] != 0
  }

  /** When the buffer is full, the slot after `rear` holds the oldest page, a resident one. */
  lemma FifoOldest(m: map<int, int>, a: seq<int>, rear: nat, size: nat)
    requires FifoInv(m, a, rear, size) && size == |a|
    ensures var q := RingOrder(a, rear, size);
      |q| > 0 && a[Next(rear, |a|)] == q[0] && q[0] in m && q[0] >= 0
  {
    var q := RingOrder(a, rear, size);
    RingPush(a, rear, size, a[0]);
    assert q[0] in multiset(q);
  }

  /** One FIFO `add` of a page that is not resident keeps the bookkeeping, with the table
      `m2`, the buffer `a2`, `rear2` and `size2` it leaves: the queue loses its oldest page
      when full and gains the new one at the back. */
  lemma FifoPush(m: map<int, int>, a: seq<int>, rear: nat, size: nat, item: int, value: int,
                 m2: map<int, int>, a2: seq<int>, rear2: nat, size2: nat)
    requires FifoInv(m, a, rear, size) && item >= 0 && item !in m && value != 0
    requires rear2 == Next(rear, |a|) && a2 == a[rear2 := item]
    requires size2 == if size < |a| then size + 1 else size
    requires size == |a| ==> |RingOrder(a, rear, size)| > 0
    requires m2 == (if size < |a| then m else m - {RingOrder(a, rear, size)[0]})[item := value]
    ensures FifoInv(m2, a2, rear2, size2)
    ensures RingOrder(a2, rear2, size2)
         == (if size < |a| then RingOrder(a, rear, size) else RingOrder(a, rear, size)[1..]) + [item]
  {
    var q := RingOrder(a, rear, size);
    assert item !in multiset(m.Keys);
    FifoStepMultiset(m.Keys, a, rear, size, item);
    assert m2.Keys == (if size < |a| then m.Keys else m.Keys - {q[0]}) + {item};
  }

  /** The same step on the queue alone, where it lists the set `keys` each once. */
  lemma FifoStepMultiset(keys: set<int>, a: seq<int>, rear: nat, size: nat, item: int)
    requires |a| > 0 && RingShape(|a|, rear, size) && item !in keys
    requires multiset(RingOrder(a, rear, size)) == multiset(keys)
    ensures var r, q := Next(rear, |a|), RingOrder(a, rear, size);
      var n := if size < |a| then size + 1 else size;
      var q2 := RingOrder(a[r := item], r, n);
      && RingShape(|a|, r, n)
      && q2 == (if size < |a| then q else q[1..]) + [item]
      && multiset(q2) == multiset((if size < |a| then keys else keys - {q[0]}) + {item})
  {
    var r, q := Next(rear, |a|), RingOrder(a, rear, size);
    var n := if size < |a| then size + 1 else size;
    ListsSet(q, keys);
    FifoStep(keys, a, rear, size, item);
    ListsSet(RingOrder(a[r := item], r, n), (if size < |a| then keys else keys - {q[0]}) + {item});
  }

  /** The same step in terms of distinct items. */
  lemma FifoStep(keys: set<int>, a: seq<int>, rear: nat, size: nat, item: int)
    requires |a| > 0 && RingShape(|a|, rear, size) && item !in keys
    requires Distinct(RingOrder(a, rear, size)) && Elems(RingOrder(a, rear, size)) == keys
    ensures var r, q := Next(rear, |a|), RingOrder(a, rear, size);
      var n := if size < |a| then size + 1 else size;
      var q2 := RingOrder(a[r := item], r, n);
      && RingShape(|a|, r, n) && Distinct(q2)
      && q2 == (if size < |a| then q else q[1..]) + [item]
      && Elems(q2) == (if size < |a| then keys else keys - {q[0]}) + {item}
  {
    RingPush(a, rear, size, item);
    RingPushDistinct(a, rear, size, item);
  }

  /** TLB_FIFO: a ring buffer of the resident pages in arrival order beside the table. */
  class Fifo {
    const capacity: nat
    const hashMap: HashMap
    /** The pages the table holds, each with its value. */
    ghost var resident: map<int, int>
    const slots: array<int>
    var front: int
    var rear: nat
    var size: nat
    var hits: nat

    /** The resident pages, oldest first. */
    ghost function Queue(): seq<int>
      reads this, slots
      requires rear < slots.Length && size <= slots.Length
    {
      RingOrder(slots[..], rear, size)
    }

    /** The table holds exactly the pages of the queue, each once and with a non-zero
        value, and size <= capacity. */
    ghost predicate Valid()
      reads this, hashMap, slots
    {
      && Keyed(hashMap, resident)
      && capacity == slots.Length
      && FifoInv(resident, slots[..], rear, size)
    }

    /** `isFull`: `size` has reached `capacity`. */
    predicate IsFull()
      reads this
    {
      size == capacity
    }

    constructor (capacity: nat)
      requires capacity > 0
      ensures Valid() && this.capacity == capacity && fresh(hashMap)
      ensures Queue() == [] && resident == map[] && hits == 0
    {
      this.capacity := capacity;
      front, size := 0, 0;
      hits := 0;
      rear := capacity - 1;
      slots := new int[capacity](_ => 0);
      var table := NewTable();
      hashMap := table;
      resident := map[];
    }

    /** Advances `rear` modulo the capacity; when the buffer is full the page stored there
        is the oldest one and is removed from the table first. */
    method Add(item: int, value: int)
      requires Valid() && item >= 0 && item !in resident && value != 0
      modifies this, slots, hashMap
      ensures Valid() && hits == old(hits)
      ensures rear == Next(old(rear), capacity) && slots[..] == old(slots[..])[rear := item]
      ensures size == if old(size) == capacity then old(size) else old(size) + 1
      ensures old(size) == capacity ==>
        && Queue() == old(Queue())[1..] + [item]
        && resident == (old(resident) - {old(Queue())[0]})[item := value]
      ensures old(size) < capacity ==>
        && Queue() == old(Queue()) + [item]
        && resident == old(resident)[item := value]
    {
      ghost var a := slots[..];
      var full := IsFull();
      rear := Next(rear, capacity);
      if full {
        FifoOldest(resident, a, old(rear), size);
      }
      Replace(hashMap, resident, full, slots[rear], item, value);
      slots[rear] := item;
      ghost var m := resident;
      resident := (if full then m - {a[rear]} else m)[item := value];
      size := if full then size else size + 1;
      FifoPush(m, a, old(rear), old(size), item, value, resident, slots[..], rear, size);
    }

    /** `search` finds a resident page (its value is never 0): a hit, nothing else changes;
        any other page is added with value 1. */
    method Access(key: int)
      requires Valid() && key >= 0
      modifies this, slots, hashMap
      ensures Valid()
      ensures key in old(resident) ==>
        && hits == old(hits) + 1 && size == old(size)
        && resident == old(resident) && Queue() == old(Queue())
        && rear == old(rear) && slots[..] == old(slots[..])
      ensures key !in old(resident) ==>
        && hits == old(hits)
        && rear == Next(old(rear), capacity) && slots[..] == old(slots[..])[rear := key]
        && Queue() == (if old(size) == capacity then old(Queue())[1..] else old(Queue())) + [key]
        && resident == (if old(size) == capacity then old(resident) - {old(Queue())[0]} else old(resident))[key := 1]
    {
      var found := SearchKey(hashMap, resident, key);
      if found != 0 {
        hits := hits + 1;
      } else {
        Add(key, 1);
      }
    }
  }

  /** TLB_LIFO: when full, the page added last is the one removed. */
  class Lifo {
    const capacity: nat
    const hashMap: HashMap
    /** The pages the table holds, each with its value. */
    ghost var resident: map<int, int>
    var size: nat
    var last: int
    var hits: nat

    /** `size` counts the stored pairs, never more than `capacity`, and every stored value
        is non-zero. */
    ghost predicate Counted()
      reads this, hashMap
    {
      && Keyed(hashMap, resident)
      && capacity > 0
      && size == hashMap.totalElements <= capacity
      && forall k :: k in resident ==> k >= 0 && resident[k] != 0
    }

    /** Besides, the page added last is resident whenever any is. */
    ghost predicate Valid()
      reads this, hashMap
    {
      Counted() && (size > 0 ==> last in resident)
    }

    /** `isFull`: `size` has reached `capacity`. */
    predicate IsFull()
      reads this
    {
      size == capacity
    }

    constructor (capacity: nat)
      requires capacity > 0
      ensures Valid() && this.capacity == capacity && fresh(hashMap)
      ensures resident == map[] && hits == 0 && last == -1
    {
      this.capacity := capacity;
      size := 0;
      hits := 0;
      last := -1;
      var table := NewTable();
      hashMap := table;
      resident := map[];
    }

    method Add(item: int, value: int)
      requires Valid() && item >= 0 && item !in resident && value != 0
      modifies this, hashMap
      ensures Valid() && hits == old(hits) && last == item
      ensures size == if old(size) == capacity then old(size) else old(size) + 1
      ensures resident == (if old(size) == capacity then old(resident) - {old(last)} else old(resident))[item := value]
    {
      if IsFull() {
        EvictLast();
      }
      last := item;
      Store(item, value);
    }

    /** The `isFull` branch of `add`. */
    method EvictLast()
      requires Valid() && size == capacity
      modifies this, hashMap
      ensures Counted() && size == old(size) - 1 && last == old(last) && hits == old(hits)
      ensures resident == old(resident) - {last}
    {
      RemoveKey(hashMap, resident, last);
      resident := resident - {last};
      size := size - 1;
    }

    /** The end of `add`: inserts the page and counts it. */
    method Store(item: int, value: int)
      requires Counted() && size < capacity && item >= 0 && item !in resident && value != 0
      modifies this, hashMap
      ensures Counted() && size == old(size) + 1 && last == old(last) && hits == old(hits)
      ensures resident == old(resident)[item := value]
    {
      InsertNew(hashMap, resident, item, value);
      resident := resident[item := value];
      size := size + 1;
    }

    method Access(key: int)
      requires Valid() && key >= 0
      modifies this, hashMap
      ensures Valid()
      ensures key in old(resident) ==>
        hits == old(hits) + 1 && resident == old(resident) && last == old(last) && size == old(size)
      ensures key !in old(resident) ==>
        && hits == old(hits) && last == key
        && resident == (if old(size) == capacity then old(resident) - {old(last)} else old(resident))[key := 1]
    {
      var found := SearchKey(hashMap, resident, key);
      if found != 0 {
        hits := hits + 1;
      } else {
        Add(key, 1);
      }
    }
  }

  /** TLB_LRU: every access stores its page with the next value of `counter`, and eviction
      removes the key `least` reports, one with the smallest stamp. A hit erases the page
      without decrementing `size`, so `size` may exceed the number of stored pairs. */
  class Lru {
    const capacity: nat
    const hashMap: HashMap
    /** The pages the table holds, each with its value. */
    ghost var resident: map<int, int>
    var size: nat
    var hits: nat
    var counter: nat

    /** Whether the eviction `access(key)` may trigger finds a pair to remove: when the
        table is full by `size`, something other than `key` must be stored. */
    ghost predicate Evictable(key: int)
      reads this, hashMap
    {
      size == capacity ==> hashMap.totalElements > (if key in resident then 1 else 0)
    }

    ghost predicate Valid()
      reads this, hashMap
    {
      && Keyed(hashMap, resident)
      && capacity > 0
      && hashMap.totalElements <= size <= capacity
      && 1 <= counter <= INT_MAX
      && forall k :: k in resident ==> k >= 0 && 1 <= resident[k] < counter
    }

    /** `isFull`: `size` has reached `capacity`. */
    predicate IsFull()
      reads this
    {
      size == capacity
    }

    constructor (capacity: nat)
      requires capacity > 0
      ensures Valid() && this.capacity == capacity && fresh(hashMap)
      ensures resident == map[] && hits == 0 && counter == 1
    {
      this.capacity := capacity;
      size := 0;
      hits := 0;
      counter := 1;
      var table := NewTable();
      hashMap := table;
      resident := map[];
    }

    /** The `isFull` branch of `add`: removes the key `least` finds, one with the smallest
        stamp. */
    method Evict() returns (victim: int)
      requires Valid() && size == capacity && hashMap.totalElements > 0
      modifies this, hashMap
      ensures Valid() && hits == old(hits) && counter == old(counter) && size == old(size) - 1
      ensures victim in old(resident)
      ensures forall p :: p in old(resident) ==> old(resident)[victim] <= old(resident)[p]
      ensures resident == old(resident) - {victim}
    {
      victim := LeastKey(hashMap, resident);
      RemoveKey(hashMap, resident, victim);
      resident := resident - {victim};
      size := size - 1;
    }

    /** The end of `add`: inserts the page and counts it. */
    method Store(item: int, value: int)
      requires Valid() && size < capacity && item >= 0 && item !in resident && 1 <= value < counter
      modifies this, hashMap
      ensures Valid() && hits == old(hits) && counter == old(counter) && size == old(size) + 1
      ensures resident == old(resident)[item := value]
    {
      InsertNew(hashMap, resident, item, value);
      resident := resident[item := value];
      size := size + 1;
    }

    method Add(item: int, value: int) returns (ghost victim: int)
      requires Valid() && item >= 0 && item !in resident && 1 <= value < counter
      requires size == capacity ==> hashMap.totalElements > 0
      modifies this, hashMap
      ensures Valid() && hits == old(hits) && counter == old(counter)
      ensures size == if old(size) == capacity then old(size) else old(size) + 1
      ensures old(size) == capacity ==>
        && victim in old(resident)
        && forall p :: p in old(resident) ==> old(resident)[victim] <= old(resident)[p]
      ensures resident == (if old(size) == capacity then old(resident) - {victim} else old(resident))[item := value]
    {
      victim := 0;
      if IsFull() {
        victim := Evict();
      }
      Store(item, value);
    }

    /** The hit test of `access`: a resident page (its stamp is never 0) is counted and
        erased, and `size` is left alone. */
    method Hit(key: int)
      requires Valid() && key >= 0
      modifies this, hashMap
      ensures Valid()
      ensures size == old(size) && counter == old(counter)
      ensures hits == old(hits) + (if key in old(resident) then 1 else 0)
      ensures hashMap.totalElements == old(hashMap.totalElements) - (if key in old(resident) then 1 else 0)
      ensures resident == old(resident) - {key}
    {
      var found := SearchKey(hashMap, resident, key);
      if found != 0 {
        hits := hits + 1;
        RemoveKey(hashMap, resident, key);
        resident := resident - {key};
      } else {
        assert resident == resident - {key};
      }
    }

    /** Counts a hit and erases a resident page, then adds the page stamped with `counter`,
        which then is the largest stamp stored. */
    method Access(key: int) returns (ghost victim: int)
      requires Valid() && key >= 0 && counter < INT_MAX && Evictable(key)
      modifies this, hashMap
      ensures Valid() && counter == old(counter) + 1
      ensures hits == old(hits) + (if key in old(resident) then 1 else 0)
      ensures size == if old(size) == capacity then old(size) else old(size) + 1
      ensures key in resident && resident[key] == old(counter)
      ensures forall p :: p in resident && p != key ==> resident[p] < resident[key]
      ensures var others := old(resident) - {key};
        && (old(size) == capacity ==>
              && victim in others
              && forall p :: p in others ==> others[victim] <= others[p])
        && resident == (if old(size) == capacity then others - {victim} else others)[key := old(counter)]
    {
      ghost var others := resident - {key};
      Hit(key);
      var stamp := counter;
      counter := counter + 1;
      victim := Add(key, stamp);
      assert resident == (if old(size) == capacity then others - {victim} else others)[key := stamp];
    }
  }

  /** Every page of `m` is stored with its negated next access at or after `c`. */
  ghost predicate Foresees(accesses: seq<int>, c: nat, m: map<int, int>)
    requires |accesses| <= INT_MAX
  {
    forall p :: p in m ==> m[p] == -NextUse(accesses, c, p)
  }

  /** One `access` of the page due at position `c`, when every stored value is the negated
      next access from `c`: afterwards every stored value is the negated next access from
      `c + 1`, and the page removed for it (the least stored value) is one whose next
      access is farthest away. */
  lemma FarthestStep(accesses: seq<int>, c: nat, m: map<int, int>, key: int, victim: int, full: bool, m': map<int, int>)
    requires |accesses| <= INT_MAX && c < |accesses| && accesses[c] == key
    requires Foresees(accesses, c, m)
    requires full ==> victim in m - {key} && forall p :: p in m - {key} ==> (m - {key})[victim] <= (m - {key})[p]
    requires m' == (if full then m - {key} - {victim} else m - {key})[key := -NextUse(accesses, c + 1, key)]
    ensures Foresees(accesses, c + 1, m')
    ensures full ==>
      forall p :: p in m && p != key ==> NextUse(accesses, c + 1, p) <= NextUse(accesses, c + 1, victim)
  {
    forall p | p in m && p != key
      ensures m[p] == -NextUse(accesses, c + 1, p)
    {
      NextUseSkip(accesses, c, p);
    }
    forall p | p in m' && p != key
      ensures p in m && m'[p] == m[p]
    {
    }
    if full {
      forall p | p in m && p != key
        ensures NextUse(accesses, c + 1, p) <= NextUse(accesses, c + 1, victim)
      {
        assert (m - {key})[victim] <= (m - {key})[p];
      }
    }
  }

  /** TLB_Optimal: every resident page is stored with minus the position of its next
      access, always negative, so `search(key) < 0` exactly for resident pages, and the
      least stored value belongs to the page whose next access is farthest away. As in LRU,
      a hit erases the page without decrementing `size`. */
  class Optimal {
    const capacity: nat
    const hashMap: HashMap
    /** The pages the table holds, each with its value. */
    ghost var resident: map<int, int>
    const accesses: seq<int>
    var size: nat
    var hits: nat
    var counter: nat
    /** The pages passed to `access` so far, in order. */
    ghost var trace: seq<int>

    /** As for TLB_LRU: the eviction `access(key)` may trigger finds a pair to remove. */
    ghost predicate Evictable(key: int)
      reads this, hashMap
    {
      size == capacity ==> hashMap.totalElements > (if key in resident then 1 else 0)
    }

    ghost predicate Valid()
      reads this, hashMap
    {
      && Keyed(hashMap, resident)
      && capacity > 0
      && hashMap.totalElements <= size <= capacity
      && |accesses| <= INT_MAX
      && (forall i :: 0 <= i < |accesses| ==> accesses[i] >= 0)
      && forall k :: k in resident ==> k >= 0 && -INT_MAX <= resident[k] < 0
    }

    /** Every resident page is stored with its negated next access at or after `counter`. */
    ghost predicate Farsighted()
      reads this
      requires |accesses| <= INT_MAX
    {
      Foresees(accesses, counter, resident)
    }

    /** `isFull`: `size` has reached `capacity`. */
    predicate IsFull()
      reads this
    {
      size == capacity
    }

    constructor (capacity: nat, accesses: seq<int>)
      requires capacity > 0 && |accesses| <= INT_MAX
      requires forall i :: 0 <= i < |accesses| ==> accesses[i] >= 0
      ensures Valid() && Farsighted() && this.capacity == capacity && this.accesses == accesses
      ensures fresh(hashMap)
      ensures resident == map[] && hits == 0 && counter == 0 && trace == []
    {
      this.capacity := capacity;
      size := 0;
      hits := 0;
      counter := 0;
      var table := NewTable();
      hashMap := table;
      resident := map[];
      this.accesses := accesses;
      trace := [];
    }

    /** The first position after `counter` that accesses `key`, or INT_MAX. */
    method NextAccess(key: int) returns (next: int)
      requires |accesses| <= INT_MAX
      ensures next == NextUse(accesses, counter + 1, key)
    {
      var i := counter + 1;
      while i < |accesses|
        invariant counter + 1 <= i
        invariant NextUse(accesses, counter + 1, key) == NextUse(accesses, i, key)
      {
        if accesses[i] == key {
          return i;
        }
        i := i + 1;
      }
      return INT_MAX;
    }

    /** The `isFull` branch of `add`: removes the key `least` finds, one with the smallest
        stored value, that is, the farthest next access. */
    method Evict() returns (victim: int)
      requires Valid() && size == capacity && hashMap.totalElements > 0
      modifies this, hashMap
      ensures Valid() && hits == old(hits) && counter == old(counter) && trace == old(trace)
      ensures size == old(size) - 1
      ensures victim in old(resident)
      ensures forall p :: p in old(resident) ==> old(resident)[victim] <= old(resident)[p]
      ensures resident == old(resident) - {victim}
    {
      victim := LeastKey(hashMap, resident);
      RemoveKey(hashMap, resident, victim);
      resident := resident - {victim};
      size := size - 1;
    }

    /** The end of `add`: inserts the page and counts it. */
    method Store(item: int, value: int)
      requires Valid() && size < capacity && item >= 0 && item !in resident && -INT_MAX <= value < 0
      modifies this, hashMap
      ensures Valid() && hits == old(hits) && counter == old(counter) && trace == old(trace)
      ensures size == old(size) + 1
      ensures resident == old(resident)[item := value]
    {
      InsertNew(hashMap, resident, item, value);
      resident := resident[item := value];
      size := size + 1;
    }

    method Add(item: int, value: int) returns (ghost victim: int)
      requires Valid() && item >= 0 && item !in resident && -INT_MAX <= value < 0
      requires size == capacity ==> hashMap.totalElements > 0
      modifies this, hashMap
      ensures Valid() && hits == old(hits) && counter == old(counter) && trace == old(trace)
      ensures size == if old(size) == capacity then old(size) else old(size) + 1
      ensures old(size) == capacity ==>
        && victim in old(resident)
        && forall p :: p in old(resident) ==> old(resident)[victim] <= old(resident)[p]
      ensures resident == (if old(size) == capacity then old(resident) - {victim} else old(resident))[item := value]
    {
      victim := 0;
      if IsFull() {
        victim := Evict();
      }
      Store(item, value);
    }

    /** The hit test of `access`: a resident page (stored with a negative value) is counted and
        erased, and `size` is left alone. */
    method Hit(key: int)
      requires Valid() && key >= 0
      modifies this, hashMap
      ensures Valid()
      ensures size == old(size) && counter == old(counter) && trace == old(trace)
      ensures hits == old(hits) + (if key in old(resident) then 1 else 0)
      ensures hashMap.totalElements == old(hashMap.totalElements) - (if key in old(resident) then 1 else 0)
      ensures resident == old(resident) - {key}
    {
      var found := SearchKey(hashMap, resident, key);
      if found < 0 {
        hits := hits + 1;
        RemoveKey(hashMap, resident, key);
        resident := resident - {key};
      } else {
        assert resident == resident - {key};
      }
    }

    /** Counts a hit for a resident page and erases it, then stores the page with its
        negated next access, evicting first if full (see FarthestStep for what this means
        during `simulate`). */
    method Access(key: int) returns (ghost victim: int)
      requires Valid() && key >= 0 && Evictable(key)
      modifies this, hashMap
      ensures Valid() && counter == old(counter) && trace == old(trace) + [key]
      ensures hits == old(hits) + (if key in old(resident) then 1 else 0)
      ensures size == if old(size) == capacity then old(size) else old(size) + 1
      ensures key in resident && resident[key] == -NextUse(accesses, counter + 1, key)
      ensures var others := old(resident) - {key};
        && (old(size) == capacity ==>
              && victim in others
              && forall p :: p in others ==> others[victim] <= others[p])
        && resident == (if old(size) == capacity then others - {victim} else others)[key := -NextUse(accesses, counter + 1, key)]
    {
      ghost var others := resident - {key};
      Hit(key);
      var next := NextAccess(key);
      victim := Add(key, -next);
      trace := trace + [key];
      assert resident == (if old(size) == capacity then others - {victim} else others)[key := -next];
    }

    /** One round of `simulate` whose eviction finds a pair to remove:
        `access(accesses[counter])`, then `counter` advances. */
    method Advance()
      requires Valid() && counter < |accesses| && Evictable(accesses[counter])
      modifies this, hashMap
      ensures Valid() && counter == old(counter) + 1
      ensures trace == old(trace) + [accesses[old(counter)]] && hits <= old(hits) + 1
      ensures old(Farsighted()) ==> Farsighted()
    {
      var key := accesses[counter];
      ghost var before, full, sighted := resident, size == capacity, Foresees(accesses, counter, resident);
      ghost var victim := Access(key);
      if sighted {
        FarthestStep(accesses, counter, before, key, victim, full, resident);
      }
      counter := counter + 1;
    }

    /** Runs `access` on the entries of `accesses` in order. The run stops early, reporting
        false, at the first access whose eviction would find the table empty, where the
        source's `least` would return an unassigned variable. */
    method Simulate() returns (completed: bool)
      requires Valid()
      modifies this, hashMap
      ensures Valid() && counter <= |accesses| && trace == old(trace) + accesses[..counter]
      ensures completed <==> counter == |accesses|
      ensures !completed ==> !Evictable(accesses[counter])
      ensures hits <= old(hits) + counter
      ensures old(resident) == map[] ==> Farsighted()
    {
      ghost var startEmpty := resident == map[];
      counter := 0;
      while counter < |accesses|
        invariant Valid() && counter <= |accesses|
        invariant trace == old(trace) + accesses[..counter]
        invariant hits <= old(hits) + counter
        invariant startEmpty ==> Farsighted()
      {
        var key := accesses[counter];
        var found := SearchKey(hashMap, resident, key);
        if IsFull() && hashMap.totalElements == (if found < 0 then 1 else 0) {
          return false;
        }
        Advance();
        assert accesses[..counter] == accesses[..counter - 1] + [key];
      }
      return true;
    }
  }
}
