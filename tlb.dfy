/**
 * The four TLB replacement policies of 2021MT10230.cpp. Each keeps the resident pages in an
 * unordered_map from page number to an int (a Dafny map here), a `size` counter bounded by
 * `capacity`, and a `hits` counter; `access` either counts a hit or makes room and adds the
 * page. The iteration order of unordered_map is unspecified, so the eviction scans pick
 * their next key with `:|`.
 */
module Tlb {

  import opened Policy

  /** An unsigned page number. */
  type Page = nat

  /** The value of `(unsigned int) -1`, which TLB_LIFO starts `last` with. */
  const UINT_MAX: nat := 0xFFFF_FFFF

  /** unordered_map::insert: adds the pair unless the key is already present. */
  function MapInsert(m: map<Page, int>, k: Page, v: int): (r: map<Page, int>)
    ensures r.Keys == m.Keys + {k}
    ensures r[k] == if k in m then m[k] else v
    ensures forall j :: j in m && j != k ==> r[j] == m[j]
  {
    if k in m then m else m[k := v]
  }

  lemma EraseKeys(m: map<Page, int>, k: Page)
    ensures (m - {k}).Keys == m.Keys - {k}
    ensures |(m - {k}).Keys| == if k in m then |m.Keys| - 1 else |m.Keys|
  {
  }

  lemma InsertKeys(m: map<Page, int>, k: Page, v: int)
    requires k !in m
    ensures |m[k := v].Keys| == |m.Keys| + 1
  {
    assert m[k := v].Keys == m.Keys + {k};
  }

  /** The eviction scan of TLB_LRU::add: a running minimum that starts at INT_MAX and is
      replaced only by a strictly smaller value; key 0 if no value is below INT_MAX. */
  method LeastValue(m: map<Page, int>) returns (key: Page)
    ensures (exists k :: k in m && m[k] < INT_MAX) ==> key in m && forall k :: k in m ==> m[key] <= m[k]
    ensures (forall k :: k in m ==> m[k] >= INT_MAX) ==> key == 0
  {
    key := 0;
    var minn := INT_MAX;
    var rest := m.Keys;
    while rest != {}
      invariant rest <= m.Keys && minn <= INT_MAX
      invariant forall k :: k in m && k !in rest ==> minn <= m[k]
      invariant minn < INT_MAX ==> key in m && m[key] == minn
      invariant minn == INT_MAX ==> key == 0
      decreases |rest|
    {
      var k :| k in rest;
      if m[k] < minn {
        minn := m[k];
        key := k;
      }
      rest := rest - {k};
    }
  }

  /** The eviction scan of TLB_Optimal::add: a running maximum that starts at INT_MIN and is
      replaced only by a strictly greater value; key 0 if no value is above INT_MIN. */
  method GreatestValue(m: map<Page, int>) returns (key: Page)
    ensures (exists k :: k in m && m[k] > INT_MIN) ==> key in m && forall k :: k in m ==> m[k] <= m[key]
    ensures (forall k :: k in m ==> m[k] <= INT_MIN) ==> key == 0
  {
    key := 0;
    var maxx := INT_MIN;
    var rest := m.Keys;
    while rest != {}
      invariant rest <= m.Keys && maxx >= INT_MIN
      invariant forall k :: k in m && k !in rest ==> m[k] <= maxx
      invariant maxx > INT_MIN ==> key in m && m[key] == maxx
      invariant maxx == INT_MIN ==> key == 0
      decreases |rest|
    {
      var k :| k in rest;
      if m[k] > maxx {
        maxx := m[k];
        key := k;
      }
      rest := rest - {k};
    }
  }

  /** TLB_FIFO: a ring buffer of the resident pages in arrival order beside the map. */
  class Fifo {
    const capacity: nat
    const slots: array<Page>
    var resident: map<Page, int>
    var front: nat
    var rear: nat
    var size: nat
    var hits: nat

    /** The resident pages, oldest first. */
    ghost function Queue(): seq<Page>
      reads this, slots
      requires rear < slots.Length && size <= slots.Length
    {
      RingOrder(slots[..], rear, size)
    }

    /** The map holds exactly the pages of the queue, each once, and size <= capacity. */
    ghost predicate Valid()
      reads this, slots
    {
      && capacity == slots.Length > 0
      && RingShape(capacity, rear, size)
      && Distinct(Queue())
      && resident.Keys == Elems(Queue())
    }

    /** `isFull`: `size` has reached `capacity`. */
    predicate IsFull()
      reads this
    {
      size == capacity
    }

    constructor (capacity: nat)
      requires capacity > 0
      ensures Valid() && this.capacity == capacity
      ensures Queue() == [] && resident == map[] && hits == 0
    {
      this.capacity := capacity;
      front, size := 0, 0;
      hits := 0;
      rear := capacity - 1;
      slots := new Page[capacity](_ => 0);
      resident := map[];
    }

    /** Advances `rear`; when the buffer is full the page stored there is the oldest one and
        is evicted first. */
    method Add(item: Page, value: int)
      requires Valid() && item !in resident
      modifies this, slots
      ensures Valid() && hits == old(hits)
      ensures rear == Next(old(rear), capacity) && slots[..] == old(slots[..])[rear := item]
      ensures size == if old(size) == capacity then old(size) else old(size) + 1
      ensures old(size) == capacity ==>
        && Queue() == old(Queue())[1..] + [item]
        && resident == (old(resident) - {old(Queue())[0]})[item := value]
      ensures old(size) < capacity ==>
        && Queue() == old(Queue()) + [item]
        && resident == old(resident)[item := value]
    {
      ghost var a := slots[..];
      RingPush(a, rear, size, item);
      RingPushDistinct(a, rear, size, item);
      rear := Next(rear, capacity);
      if IsFull() {
        resident := resident - {slots[rear]};
        size := size - 1;
      }
      slots[rear] := item;
      assert slots[..] == a[rear := item];
      resident := MapInsert(resident, item, value);
      size := size + 1;
    }

    /** A resident page is a hit and changes nothing else; any other page is added with
        value 1. */
    method Access(key: Page)
      requires Valid()
      modifies this, slots
      ensures Valid()
      ensures key in old(resident) ==>
        && hits == old(hits) + 1 && size == old(size)
        && resident == old(resident) && Queue() == old(Queue())
        && rear == old(rear) && slots[..] == old(slots[..])
      ensures key !in old(resident) ==>
        && hits == old(hits)
        && rear == Next(old(rear), capacity) && slots[..] == old(slots[..])[rear := key]
        && Queue() == (if old(size) == capacity then old(Queue())[1..] else old(Queue())) + [key]
        && resident == (if old(size) == capacity then old(resident) - {old(Queue())[0]} else old(resident))[key := 1]
    {
      if key in resident {
        hits := hits + 1;
      } else {
        Add(key, 1);
      }
    }
  }

  /** TLB_LIFO: when full, the page added last is the one evicted. */
  class Lifo {
    const capacity: nat
    var resident: map<Page, int>
    var size: nat
    var last: Page
    var hits: nat

    /** `size` counts the resident pages, never more than `capacity`, and the page added
        last is resident whenever any is. */
    ghost predicate Valid()
      reads this
    {
      && capacity > 0
      && size == |resident.Keys| <= capacity
      && (size > 0 ==> last in resident)
    }

    /** `isFull`: `size` has reached `capacity`. */
    predicate IsFull()
      reads this
    {
      size == capacity
    }

    constructor (capacity: nat)
      requires capacity > 0
      ensures Valid() && this.capacity == capacity
      ensures resident == map[] && hits == 0 && last == UINT_MAX
    {
      this.capacity := capacity;
      size := 0;
      hits := 0;
      last := UINT_MAX;
      resident := map[];
    }

    method Add(item: Page, value: int)
      requires Valid() && item !in resident
      modifies this
      ensures Valid() && hits == old(hits) && last == item
      ensures size == if old(size) == capacity then old(size) else old(size) + 1
      ensures resident == (if old(size) == capacity then old(resident) - {old(last)} else old(resident))[item := value]
    {
      if IsFull() {
        resident := resident - {last};
        size := size - 1;
      }
      last := item;
      resident := MapInsert(resident, item, value);
      size := size + 1;
    }

    method Access(key: Page)
      requires Valid()
      modifies this
      ensures Valid()
      ensures key in old(resident) ==>
        hits == old(hits) + 1 && resident == old(resident) && last == old(last) && size == old(size)
      ensures key !in old(resident) ==>
        && hits == old(hits) && last == key
        && resident == (if old(size) == capacity then old(resident) - {old(last)} else old(resident))[key := 1]
    {
      if key in resident {
        hits := hits + 1;
      } else {
        Add(key, 1);
      }
    }
  }

  /** Every stamp in `m` was handed out before `counter`. */
  ghost predicate StampedBefore(m: map<Page, int>, counter: int) {
    forall p :: p in m ==> 1 <= m[p] < counter
  }

  /** TLB_LRU: every access stamps its page with the next value of `counter`, so a page's
      stamp orders it by the recency of its last access, and eviction removes the page with
      the smallest stamp. A hit erases the page without decrementing `size`, so `size` may
      exceed the number of resident pages. */
  class Lru {
    const capacity: nat
    var resident: map<Page, int>
    var size: nat
    var hits: nat
    var counter: nat

    ghost predicate Valid()
      reads this
    {
      && capacity > 0
      && |resident.Keys| <= size <= capacity
      && 1 <= counter <= INT_MAX
      && StampedBefore(resident, counter)
    }

    /** `isFull`: `size` has reached `capacity`. */
    predicate IsFull()
      reads this
    {
      size == capacity
    }

    constructor (capacity: nat)
      requires capacity > 0
      ensures Valid() && this.capacity == capacity
      ensures resident == map[] && hits == 0 && counter == 1
    {
      this.capacity := capacity;
      size := 0;
      hits := 0;
      counter := 1;
      resident := map[];
    }

    /** When full, evicts a page whose stamp is the least. */
    method Add(item: Page, value: int) returns (ghost victim: Page)
      requires Valid() && item !in resident && 1 <= value < counter
      modifies this
      ensures Valid() && hits == old(hits) && counter == old(counter)
      ensures size == if old(size) == capacity then old(size) else old(size) + 1
      ensures old(size) == capacity && old(resident) != map[] ==>
        && victim in old(resident)
        && forall p :: p in old(resident) ==> old(resident)[victim] <= old(resident)[p]
      ensures resident == (if old(size) == capacity then old(resident) - {victim} else old(resident))[item := value]
    {
      victim := 0;
      if IsFull() {
        victim := Evict();
      }
      InsertKeys(resident, item, value);
      resident := MapInsert(resident, item, value);
      size := size + 1;
    }

    /** The `isFull` branch of `add`: erases the least-stamped page found by the scan. */
    method Evict() returns (ghost victim: Page)
      requires Valid() && size == capacity
      modifies this
      ensures Valid() && hits == old(hits) && counter == old(counter)
      ensures size == old(size) - 1 && resident == old(resident) - {victim}
      ensures old(resident) != map[] ==>
        && victim in old(resident)
        && forall p :: p in old(resident) ==> old(resident)[victim] <= old(resident)[p]
    {
      if resident != map[] {
        ghost var p :| p in resident;
        assert resident[p] < INT_MAX;
      }
      var key := LeastValue(resident);
      victim := key;
      EraseKeys(resident, key);
      resident := resident - {key};
      size := size - 1;
    }

    /** Counts a hit and erases a resident page, then adds the page stamped with `counter`,
        which then is the largest stamp in the map. */
    method Access(key: Page) returns (ghost victim: Page)
      requires Valid() && counter < INT_MAX
      modifies this
      ensures Valid() && counter == old(counter) + 1
      ensures hits == old(hits) + (if key in old(resident) then 1 else 0)
      ensures size == if old(size) == capacity then old(size) else old(size) + 1
      ensures key in resident && resident[key] == old(counter)
      ensures forall p :: p in resident && p != key ==> resident[p] < resident[key]
      ensures var others := old(resident) - {key};
        && (old(size) == capacity && others != map[] ==>
              && victim in others
              && forall p :: p in others ==> others[victim] <= others[p])
        && resident == (if old(size) == capacity then others - {victim} else others)[key := old(counter)]
    {
      if key in resident {
        hits := hits + 1;
        EraseKeys(resident, key);
        resident := resident - {key};
      }
      assert resident == old(resident) - {key};
      var stamp := counter;
      counter := counter + 1;
      victim := Add(key, stamp);
    }
  }

  /** One `access` of the page due at position `c`, when every stored value is the page's
      next access from `c`: afterwards every stored value is the next access from `c + 1`,
      and the page evicted for it is one whose next access is farthest away. */
  lemma BeladyStep(accesses: seq<Page>, c: nat, m: map<Page, int>, key: Page, victim: Page, full: bool, m': map<Page, int>)
    requires |accesses| <= INT_MAX && c < |accesses| && accesses[c] == key
    requires forall p :: p in m ==> m[p] == NextUse(accesses, c, p)
    requires full && m - {key} != map[] ==>
      victim in m - {key} && forall p :: p in m - {key} ==> (m - {key})[p] <= (m - {key})[victim]
    requires m' == (if full then m - {key} - {victim} else m - {key})[key := NextUse(accesses, c + 1, key)]
    ensures forall p :: p in m' ==> m'[p] == NextUse(accesses, c + 1, p)
    ensures full && m - {key} != map[] ==>
      forall p :: p in m && p != key ==> NextUse(accesses, c + 1, p) <= NextUse(accesses, c + 1, victim)
  {
    forall p | p in m && p != key
      ensures m[p] == NextUse(accesses, c + 1, p)
    {
      NextUseSkip(accesses, c, p);
    }
    forall p | p in m' && p != key
      ensures p in m && m'[p] == m[p]
    {
    }
    if full && m - {key} != map[] {
      forall p | p in m && p != key
        ensures NextUse(accesses, c + 1, p) <= NextUse(accesses, c + 1, victim)
      {
        assert (m - {key})[p] <= (m - {key})[victim];
      }
    }
  }

  /** TLB_Optimal: every resident page is stored with the position of its next access, and
      eviction removes the page whose next access is farthest away (Belady's rule). As in
      LRU, a hit erases the page without decrementing `size`. */
  class Optimal {
    const capacity: nat
    const accesses: seq<Page>
    var resident: map<Page, int>
    var size: nat
    var hits: nat
    var counter: nat
    /** The pages passed to `access` so far, in order. */
    ghost var trace: seq<Page>

    ghost predicate Valid()
      reads this
    {
      && capacity > 0
      && |resident.Keys| <= size <= capacity
      && |accesses| <= INT_MAX
      && forall p :: p in resident ==> resident[p] > INT_MIN
    }

    /** Every resident page is stored with its next access at or after `counter`. */
    ghost predicate Farsighted()
      reads this
      requires |accesses| <= INT_MAX
    {
      forall p :: p in resident ==> resident[p] == NextUse(accesses, counter, p)
    }

    /** `isFull`: `size` has reached `capacity`. */
    predicate IsFull()
      reads this
    {
      size == capacity
    }

    constructor (capacity: nat, accesses: seq<Page>)
      requires capacity > 0 && |accesses| <= INT_MAX
      ensures Valid() && Farsighted() && this.capacity == capacity && this.accesses == accesses
      ensures resident == map[] && hits == 0 && counter == 0 && trace == []
    {
      this.capacity := capacity;
      size := 0;
      hits := 0;
      counter := 0;
      resident := map[];
      this.accesses := accesses;
      trace := [];
    }

    /** The first position after `counter` that accesses `key`, or INT_MAX. */
    method NextAccess(key: Page) returns (next: int)
      requires |accesses| <= INT_MAX
      ensures next == NextUse(accesses, counter + 1, key)
    {
      var i := counter + 1;
      while i < |accesses|
        invariant counter + 1 <= i
        invariant NextUse(accesses, counter + 1, key) == NextUse(accesses, i, key)
      {
        if accesses[i] == key {
          return i;
        }
        i := i + 1;
      }
      return INT_MAX;
    }

    /** When full, evicts a page stored with the greatest next access. */
    method Add(item: Page, value: int) returns (ghost victim: Page)
      requires Valid() && item !in resident && value > INT_MIN
      modifies this
      ensures Valid() && hits == old(hits) && counter == old(counter) && trace == old(trace)
      ensures size == if old(size) == capacity then old(size) else old(size) + 1
      ensures old(size) == capacity && old(resident) != map[] ==>
        && victim in old(resident)
        && forall p :: p in old(resident) ==> old(resident)[p] <= old(resident)[victim]
      ensures resident == (if old(size) == capacity then old(resident) - {victim} else old(resident))[item := value]
    {
      victim := 0;
      if IsFull() {
        victim := Evict();
      }
      InsertKeys(resident, item, value);
      resident := MapInsert(resident, item, value);
      size := size + 1;
    }

    /** The `isFull` branch of `add`: erases the page the scan finds with the greatest
        stored value. */
    method Evict() returns (ghost victim: Page)
      requires Valid() && size == capacity
      modifies this
      ensures Valid() && hits == old(hits) && counter == old(counter) && trace == old(trace)
      ensures size == old(size) - 1 && resident == old(resident) - {victim}
      ensures old(resident) != map[] ==>
        && victim in old(resident)
        && forall p :: p in old(resident) ==> old(resident)[p] <= old(resident)[victim]
    {
      if resident != map[] {
        ghost var p :| p in resident;
        assert resident[p] > INT_MIN;
      }
      var key := GreatestValue(resident);
      victim := key;
      EraseKeys(resident, key);
      resident := resident - {key};
      size := size - 1;
    }

    /** Counts a hit for a resident page and erases it, then stores the page with its next
        access, evicting first if full (see BeladyStep for what this means during `simulate`). */
    method Access(key: Page) returns (ghost victim: Page)
      requires Valid()
      modifies this
      ensures Valid() && counter == old(counter) && trace == old(trace) + [key]
      ensures hits == old(hits) + (if key in old(resident) then 1 else 0)
      ensures size == if old(size) == capacity then old(size) else old(size) + 1
      ensures key in resident && resident[key] == NextUse(accesses, counter + 1, key)
      ensures var others := old(resident) - {key};
        && (old(size) == capacity && others != map[] ==>
              && victim in others
              && forall p :: p in others ==> others[p] <= others[victim])
        && resident == (if old(size) == capacity then others - {victim} else others)[key := NextUse(accesses, counter + 1, key)]
    {
      ghost var before := resident;
      if key in resident {
        hits := hits + 1;
        EraseKeys(resident, key);
        resident := resident - {key};
      }
      assert resident == before - {key};
      var next := NextAccess(key);
      victim := Add(key, next);
      trace := trace + [key];
    }

    /** Runs `access` on every entry of `accesses`, in order. */
    method Simulate()
      requires Valid()
      modifies this
      ensures Valid() && counter == |accesses| && trace == old(trace) + accesses
      ensures hits <= old(hits) + |accesses|
      ensures old(resident) == map[] ==> Farsighted()
    {
      ghost var startEmpty := resident == map[];
      counter := 0;
      while counter < |accesses|
        invariant Valid() && counter <= |accesses|
        invariant trace == old(trace) + accesses[..counter]
        invariant hits <= old(hits) + counter
        invariant startEmpty ==> Farsighted()
      {
        ghost var before, full := resident, size == capacity;
        ghost var victim := Access(accesses[counter]);
        if startEmpty {
          BeladyStep(accesses, counter, before, accesses[counter], victim, full, resident);
        }
        assert accesses[..counter + 1] == accesses[..counter] + [accesses[counter]];
        counter := counter + 1;
      }
      assert accesses[..counter] == accesses;
    }
  }
}
