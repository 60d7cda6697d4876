/**
 * The separately chained hash table of 2021MT10230tlb.cpp: an array of buckets, each a
 * vector of (key, value) pairs, the number of stored pairs, and a load bound of 3/4 that
 * doubles the table when it is exceeded.
 */
module HashTable {

  import opened Wrappers
  import opened Policy

  type Pair = (int, int)

  /** The pairs of all buckets, bucket by bucket: the order in which `least` visits them. */
  function Flatten(bs: seq<seq<Pair>>): seq<Pair>
  {
    if bs == [] then [] else Flatten(bs[..|bs| - 1]) + bs[|bs| - 1]
  }

  /** Every pair of bucket `h` of `n` has a non-negative key that hashes to `h`. */
  ghost predicate HashesTo(b: seq<Pair>, h: nat, n: nat) {
    n > 0 && forall p :: p in b ==> p.0 >= 0 && p.0 % n == h
  }

  /** Every pair sits in the bucket its key hashes to. */
  ghost predicate Placed(bs: seq<seq<Pair>>) {
    forall h :: 0 <= h < |bs| ==> HashesTo(bs[h], h, |bs|)
  }

  ghost function KeysOf(m: multiset<Pair>): set<int> {
    set p | p in m :: p.0
  }

  /** No key is stored twice: there are as many keys as pairs. */
  ghost predicate Unique(m: multiset<Pair>) {
    |KeysOf(m)| == |m|
  }

  /** Every pair contributes at most one key. */
  lemma {:induction false} KeysBound(m: multiset<Pair>)
    ensures |KeysOf(m)| <= |m|
    decreases |m|
  {
    if m != multiset{} {
      var x :| x in m;
      var m' := m - multiset{x};
      KeysBound(m');
      assert KeysOf(m) == KeysOf(m') + {x.0};
    }
  }

  /** Two pairs with the same key, or a pair stored twice, leave fewer keys than pairs. */
  lemma Repeat(m: multiset<Pair>, p: Pair, q: Pair)
    requires p in m && q in m && p.0 == q.0
    ensures (p == q && m[p] == 1) || |KeysOf(m)| < |m|
  {
    if p != q || m[p] > 1 {
      var m' := m - multiset{p};
      assert q in m';
      forall x | x in KeysOf(m)
        ensures x in KeysOf(m')
      {
        var r :| r in m && r.0 == x;
        if r != p {
          assert r in m';
        }
      }
      assert KeysOf(m') == KeysOf(m);
      KeysBound(m');
    }
  }

  /** What `Unique` means pair by pair. */
  lemma UniqueDistinct(m: multiset<Pair>)
    requires Unique(m)
    ensures forall p :: p in m ==> m[p] == 1
    ensures forall p, q :: p in m && q in m && p.0 == q.0 ==> p == q
  {
    forall p, q | p in m && q in m && p.0 == q.0
      ensures p == q && m[p] == 1
    {
      Repeat(m, p, q);
    }
  }

  ghost function ValueOf(m: multiset<Pair>, k: int): int
    requires k in KeysOf(m)
  {
    var p :| p in m && p.0 == k; p.1
  }

  /** The dictionary a table of pairs stands for. */
  ghost function AsMap(m: multiset<Pair>): map<int, int> {
    map k | k in KeysOf(m) :: ValueOf(m, k)
  }

  /** The dictionary the pairs `ps` spell out, read in order, when no key occurs twice;
      None when one does. */
  function Dictionary(ps: seq<Pair>): Option<map<int, int>>
  {
    if ps == [] then Some(map[])
    else match Dictionary(ps[..|ps| - 1])
      case None => None
      case Some(d) =>
        var p := ps[|ps| - 1];
        if p.0 in d then None else Some(d[p.0 := p.1])
  }

  /** Reading the pairs in order finds no repeated key exactly when the table is `Unique`,
      and then spells out the table's dictionary. */
  lemma {:induction false} DictionaryBag(ps: seq<Pair>)
    ensures Dictionary(ps).Some? <==> Unique(multiset(ps))
    ensures Dictionary(ps).Some? ==> Dictionary(ps).value == AsMap(multiset(ps))
  {
    if ps == [] {
      assert KeysOf(multiset(ps)) == {};
    } else {
      var q, x := ps[..|ps| - 1], ps[|ps| - 1];
      assert ps == q + [x];
      var m := multiset(q);
      assert multiset(ps) == m + multiset{x};
      DictionaryBag(q);
      if Dictionary(q).Some? && x.0 !in Dictionary(q).value {
        AddFresh(m, x.0, x.1);
      } else {
        AddRepeat(m, x);
      }
    }
  }

  /** Adding a pair to a table that already repeats a key, or holds the pair's key, leaves
      a table that repeats a key. */
  lemma AddRepeat(m: multiset<Pair>, x: Pair)
    requires !Unique(m) || x.0 in KeysOf(m)
    ensures !Unique(m + multiset{x})
  {
    assert KeysOf(m + multiset{x}) == KeysOf(m) + {x.0};
    KeysBound(m);
  }

  /** The first position in a bucket holding `key`, the one `search` and `remove` stop at. */
  function FirstMatch(b: seq<Pair>, key: int): (r: Option<nat>)
    ensures r.Some? ==> r.value < |b| && b[r.value].0 == key
    ensures r.Some? ==> forall j :: 0 <= j < r.value ==> b[j].0 != key
    ensures r.None? ==> forall j :: 0 <= j < |b| ==> b[j].0 != key
  {
    if b == [] then None
    else if b[0].0 == key then Some(0)
    else match FirstMatch(b[1..], key)
      case None => None
      case Some(i) => Some(i + 1)
  }

  lemma FirstMatchAt(b: seq<Pair>, key: int, j: nat)
    requires j < |b| && b[j].0 == key
    requires forall i :: 0 <= i < j ==> b[i].0 != key
    ensures FirstMatch(b, key) == Some(j)
  {
  }

  /** Appending a pair to the bucket its key hashes to keeps every pair in its place. */
  lemma PlacedPush(bs: seq<seq<Pair>>, h: nat, p: Pair)
    requires Placed(bs) && h < |bs| && p.0 >= 0 && p.0 % |bs| == h
    ensures Placed(bs[h := bs[h] + [p]])
  {
    var cs: seq<seq<Pair>> := bs[h := bs[h] + [p]];
    forall g | 0 <= g < |cs|
      ensures HashesTo(cs[g], g, |cs|)
    {
      if g == h {
        assert HashesTo(bs[h], h, |bs|);
      }
    }
  }

  /** The position of the first pair with the smallest value: the pair `least` reports. */
  ghost predicate FirstLeast(ps: seq<Pair>, k: int) {
    && 0 <= k < |ps|
    && (forall j :: 0 <= j < |ps| ==> ps[k].1 <= ps[j].1)
    && (forall j :: 0 <= j < k ==> ps[k].1 < ps[j].1)
  }

  lemma {:induction false} FlattenAppend(a: seq<seq<Pair>>, b: seq<seq<Pair>>)
    ensures Flatten(a + b) == Flatten(a) + Flatten(b)
    decreases |b|
  {
    if b == [] {
      assert a + b == a;
    } else {
      var b' := b[..|b| - 1];
      assert (a + b)[..|a + b| - 1] == a + b';
      FlattenAppend(a, b');
    }
  }

  /** The buckets before `i`, followed by bucket `i`, are a prefix of the table. */
  lemma FlattenPrefix(bs: seq<seq<Pair>>, i: nat)
    requires i < |bs|
    ensures Flatten(bs[..i + 1]) == Flatten(bs[..i]) + bs[i]
    ensures |Flatten(bs[..i])| + |bs[i]| <= |Flatten(bs)|
  {
    assert bs[..i + 1][..i] == bs[..i];
    FlattenAppend(bs[..i + 1], bs[i + 1..]);
    assert bs[..i + 1] + bs[i + 1..] == bs;
  }

  /** Flattening around one bucket. */
  lemma FlattenSplit(bs: seq<seq<Pair>>, h: nat)
    requires h < |bs|
    ensures Flatten(bs) == Flatten(bs[..h]) + bs[h] + Flatten(bs[h + 1..])
  {
    var upTo, post := bs[..h + 1], bs[h + 1..];
    assert bs == upTo + post;
    FlattenAppend(upTo, post);
    assert upTo[..h] == bs[..h] && upTo[h] == bs[h];
    assert Flatten(upTo) == Flatten(bs[..h]) + bs[h];
  }

  /** Erasing the pair at position `j` of bucket `h` removes exactly that pair from the
      table and keeps every other pair in its place. */
  lemma BucketErase(bs: seq<seq<Pair>>, h: nat, j: nat)
    requires h < |bs| && j < |bs[h]| && Placed(bs)
    ensures var cs := bs[h := bs[h][..j] + bs[h][j + 1..]];
      && Placed(cs)
      && bs[h][j] in multiset(Flatten(bs))
      && multiset(Flatten(cs)) == multiset(Flatten(bs)) - multiset{bs[h][j]}
      && |Flatten(cs)| == |Flatten(bs)| - 1
  {
    PlacedErase(bs, h, j);
    FlattenErase(bs, h, j);
    FlattenHas(bs, h, j);
  }

  lemma FlattenErase(bs: seq<seq<Pair>>, h: nat, j: nat)
    requires h < |bs| && j < |bs[h]|
    ensures multiset(Flatten(bs[h := bs[h][..j] + bs[h][j + 1..]])) + multiset{bs[h][j]} == multiset(Flatten(bs))
    ensures |Flatten(bs[h := bs[h][..j] + bs[h][j + 1..]])| + 1 == |Flatten(bs)|
  {
    var b := bs[h];
    var cs := bs[h := b[..j] + b[j + 1..]];
    FlattenSplit(bs, h);
    FlattenSplit(cs, h);
    assert cs[..h] == bs[..h] && cs[h + 1..] == bs[h + 1..];
    EraseMiddle(Flatten(bs[..h]), b, Flatten(bs[h + 1..]), j);
  }

  /** Erasing position `j` of the middle part of `x + b + y`. */
  lemma EraseMiddle(x: seq<Pair>, b: seq<Pair>, y: seq<Pair>, j: nat)
    requires j < |b|
    ensures multiset(x + (b[..j] + b[j + 1..]) + y) + multiset{b[j]} == multiset(x + b + y)
    ensures |x + (b[..j] + b[j + 1..]) + y| + 1 == |x + b + y|
  {
    assert b == b[..j] + [b[j]] + b[j + 1..];
  }

  lemma PlacedErase(bs: seq<seq<Pair>>, h: nat, j: nat)
    requires h < |bs| && j < |bs[h]| && Placed(bs)
    ensures Placed(bs[h := bs[h][..j] + bs[h][j + 1..]])
  {
    var b := bs[h];
    var b' := b[..j] + b[j + 1..];
    var cs: seq<seq<Pair>> := bs[h := b'];
    assert HashesTo(b', h, |bs|) by {
      assert HashesTo(b, h, |bs|);
      forall i | 0 <= i < |b'|
        ensures b'[i] in b
      {
        if i < j { assert b'[i] == b[i]; } else { assert b'[i] == b[i + 1]; }
      }
    }
    forall g | 0 <= g < |cs|
      ensures HashesTo(cs[g], g, |cs|)
    {
      if g != h {
        assert cs[g] == bs[g];
      }
    }
  }

  /** Appending a pair to one bucket adds exactly that pair to the table. */
  lemma FlattenPush(bs: seq<seq<Pair>>, h: nat, p: Pair)
    requires h < |bs|
    ensures multiset(Flatten(bs[h := bs[h] + [p]])) == multiset(Flatten(bs)) + multiset{p}
    ensures |Flatten(bs[h := bs[h] + [p]])| == |Flatten(bs)| + 1
  {
    var cs := bs[h := bs[h] + [p]];
    FlattenSplit(bs, h);
    FlattenSplit(cs, h);
    assert cs[..h] == bs[..h] && cs[h + 1..] == bs[h + 1..];
    var pre, post := Flatten(bs[..h]), Flatten(bs[h + 1..]);
    assert Flatten(cs) == pre + bs[h] + [p] + post;
    assert multiset(Flatten(cs)) == multiset(pre) + multiset(bs[h]) + multiset{p} + multiset(post);
  }

  lemma FlattenHas(bs: seq<seq<Pair>>, h: nat, j: nat)
    requires h < |bs| && j < |bs[h]|
    ensures bs[h][j] in Flatten(bs)
  {
    FlattenSplit(bs, h);
  }

  lemma {:induction false} FlattenMember(bs: seq<seq<Pair>>, p: Pair)
    requires p in Flatten(bs)
    ensures exists h, j :: 0 <= h < |bs| && 0 <= j < |bs[h]| && bs[h][j] == p
    decreases |bs|
  {
    var last := |bs| - 1;
    if p in bs[last] {
      var j :| 0 <= j < |bs[last]| && bs[last][j] == p;
      assert bs[last][j] == p;
    } else {
      var pre := bs[..last];
      FlattenMember(pre, p);
      var h, j :| 0 <= h < |pre| && 0 <= j < |pre[h]| && pre[h][j] == p;
      assert bs[h][j] == p;
    }
  }

  /** A key is stored exactly when the bucket it hashes to holds it. */
  lemma KeyInItsBucket(bs: seq<seq<Pair>>, key: int)
    requires |bs| > 0 && Placed(bs) && key >= 0
    ensures key in KeysOf(multiset(Flatten(bs))) <==> FirstMatch(bs[key % |bs|], key).Some?
  {
    var h := key % |bs|;
    var m := FirstMatch(bs[h], key);
    if m.Some? {
      FlattenHas(bs, h, m.value);
      assert bs[h][m.value] in multiset(Flatten(bs));
    }
    if key in KeysOf(multiset(Flatten(bs))) {
      var p :| p in multiset(Flatten(bs)) && p.0 == key;
      FlattenMember(bs, p);
      var h', j :| 0 <= h' < |bs| && 0 <= j < |bs[h']| && bs[h'][j] == p;
      assert HashesTo(bs[h'], h', |bs|);
      assert p in bs[h'];
    }
  }

  /** What `search` finds in a key's bucket is what the table maps the key to. */
  lemma BucketLookup(bs: seq<seq<Pair>>, key: int)
    requires |bs| > 0 && Placed(bs) && key >= 0
    ensures var m := FirstMatch(bs[key % |bs|], key);
      && (m.None? <==> key !in KeysOf(multiset(Flatten(bs))))
      && (m.Some? && Unique(multiset(Flatten(bs))) ==>
            key in AsMap(multiset(Flatten(bs))) && AsMap(multiset(Flatten(bs)))[key] == bs[key % |bs|][m.value].1)
  {
    KeyInItsBucket(bs, key);
    var m := FirstMatch(bs[key % |bs|], key);
    if m.Some? {
      FlattenHas(bs, key % |bs|, m.value);
      if Unique(multiset(Flatten(bs))) {
        AsMapLookup(multiset(Flatten(bs)), bs[key % |bs|][m.value]);
      }
    }
  }

  lemma AsMapWitness(m: multiset<Pair>, k: int)
    requires k in AsMap(m)
    ensures (k, AsMap(m)[k]) in m
  {
  }

  /** In a table without repeated keys, every stored pair is what the dictionary maps its key to. */
  lemma AsMapLookup(m: multiset<Pair>, p: Pair)
    requires Unique(m) && p in m
    ensures p.0 in AsMap(m) && AsMap(m)[p.0] == p.1
  {
    UniqueDistinct(m);
    AsMapWitness(m, p.0);
  }

  /** Adding a pair whose key is not stored adds one entry to the dictionary. */
  lemma AddFresh(m: multiset<Pair>, k: int, v: int)
    requires Unique(m) && k !in KeysOf(m)
    ensures Unique(m + multiset{(k, v)})
    ensures AsMap(m + multiset{(k, v)}) == AsMap(m)[k := v]
  {
    var m' := m + multiset{(k, v)};
    assert KeysOf(m') == KeysOf(m) + {k};
    var a, b := AsMap(m'), AsMap(m)[k := v];
    assert a.Keys == b.Keys;
    forall x | x in a
      ensures a[x] == b[x]
    {
      AsMapWitness(m', x);
      if x != k {
        AsMapLookup(m, (x, a[x]));
      }
    }
  }

  lemma AbsentKey(m: multiset<Pair>, key: int)
    requires key !in KeysOf(m)
    ensures AsMap(m) - {key} == AsMap(m)
  {
  }

  /** Removing a stored pair from a table without repeated keys removes exactly its key. */
  lemma RemoveKeys(m: multiset<Pair>, p: Pair)
    requires Unique(m) && p in m
    ensures KeysOf(m - multiset{p}) == KeysOf(m) - {p.0}
    ensures Unique(m - multiset{p})
  {
    UniqueDistinct(m);
    var m' := m - multiset{p};
    forall q | q in m'
      ensures q.0 != p.0
    {
      assert q in m && q != p;
    }
    forall x | x in KeysOf(m) - {p.0}
      ensures x in KeysOf(m')
    {
      var q :| q in m && q.0 == x;
      assert q in m';
    }
  }

  /** Removing a stored pair removes its key from the dictionary. */
  lemma RemovePair(m: multiset<Pair>, p: Pair)
    requires Unique(m) && p in m
    ensures Unique(m - multiset{p})
    ensures AsMap(m - multiset{p}) == AsMap(m) - {p.0}
  {
    RemoveKeys(m, p);
    var m' := m - multiset{p};
    var a, b := AsMap(m'), AsMap(m) - {p.0};
    assert a.Keys == b.Keys;
    forall x | x in a
      ensures a[x] == b[x]
    {
      AsMapWitness(m', x);
      AsMapLookup(m, (x, a[x]));
    }
  }

  /** The first least pair of a table without repeated keys holds the key the dictionary
      maps to its smallest value. */
  lemma LeastInMap(ps: seq<Pair>, at: int)
    requires FirstLeast(ps, at) && Unique(multiset(ps))
    ensures var d := AsMap(multiset(ps));
      && ps[at].0 in d
      && forall k :: k in d ==> d[ps[at].0] <= d[k]
  {
    var d := AsMap(multiset(ps));
    AsMapLookup(multiset(ps), ps[at]);
    forall k | k in d
      ensures d[ps[at].0] <= d[k]
    {
      AsMapWitness(multiset(ps), k);
      var i :| 0 <= i < |ps| && ps[i] == (k, d[k]);
    }
  }

  class HashMap {
    /** The array of `bucket_size` vectors; `rehash` replaces it with a larger one. */
    var buckets: seq<seq<Pair>>
    var bucketSize: nat
    var totalElements: nat

    /** The pairs of the table in bucket order. */
    ghost function Pairs(): seq<Pair>
      reads this`buckets
    {
      Flatten(buckets)
    }

    ghost function Bag(): multiset<Pair>
      reads this`buckets
    {
      multiset(Flatten(buckets))
    }

    /** Everything but the load bound: the state `rehash` starts from. */
    ghost predicate Sound()
      reads this`buckets, this`bucketSize, this`totalElements
    {
      && bucketSize == |buckets| && bucketSize > 0
      && Placed(buckets)
      && totalElements == |Flatten(buckets)|
    }

    /** The load factor total_elements / bucket_size is at most 0.75. */
    ghost predicate Valid()
      reads this`buckets, this`bucketSize, this`totalElements
    {
      Sound() && 4 * totalElements <= 3 * bucketSize
    }

    constructor (size: nat)
      requires size > 0
      ensures Valid() && bucketSize == size && Pairs() == []
    {
      bucketSize := size;
      buckets := seq(size, _ => []);
      totalElements := 0;
      new;
      EmptyFlatten(buckets);
    }

    static lemma {:induction false} EmptyFlatten(bs: seq<seq<Pair>>)
      requires forall h :: 0 <= h < |bs| ==> bs[h] == []
      ensures Flatten(bs) == []
      decreases |bs|
    {
      if bs != [] {
        EmptyFlatten(bs[..|bs| - 1]);
      }
    }

    function Hash(key: int): (index: nat)
      reads this
      requires key >= 0 && bucketSize > 0
      ensures index < bucketSize
    {
      key % bucketSize
    }

    /** Appends a pair to the bucket its key hashes to. */
    method Place(key: int, value: int)
      requires Sound() && key >= 0
      modifies this
      ensures Sound() && bucketSize == old(bucketSize)
      ensures buckets == old(buckets)[old(Hash(key)) := old(buckets[Hash(key)]) + [(key, value)]]
      ensures totalElements == old(totalElements) + 1
      ensures Bag() == old(Bag()) + multiset{(key, value)}
    {
      var index := Hash(key);
      PlacedPush(buckets, index, (key, value));
      FlattenPush(buckets, index, (key, value));
      buckets := buckets[index := buckets[index] + [(key, value)]];
      totalElements := totalElements + 1;
    }

    method Insert(key: int, value: int)
      requires Valid() && key >= 0
      modifies this
      ensures Valid()
      ensures Bag() == old(Bag()) + multiset{(key, value)}
      ensures totalElements == old(totalElements) + 1
      ensures 4 * totalElements > 3 * old(bucketSize) ==> bucketSize == 2 * old(bucketSize)
      ensures 4 * totalElements <= 3 * old(bucketSize) ==>
        && bucketSize == old(bucketSize)
        && buckets == old(buckets)[old(Hash(key)) := old(buckets[Hash(key)]) + [(key, value)]]
    {
      Place(key, value);
      if 4 * totalElements > 3 * bucketSize {
        Rehash();
      }
    }

    /** Doubles the number of buckets and re-inserts every pair, bucket by bucket. */
    method Rehash()
      requires Sound() && 4 * totalElements <= 3 * bucketSize + 4
      modifies this
      ensures Valid()
      ensures bucketSize == 2 * old(bucketSize)
      ensures Bag() == old(Bag()) && totalElements == old(totalElements)
    {
      var oldBuckets := buckets;
      var oldSize := bucketSize;
      assert Placed(oldBuckets) && oldSize == |oldBuckets|;
      assert multiset(Flatten(oldBuckets)) == old(Bag()) && 4 * |Flatten(oldBuckets)| <= 3 * oldSize + 4;
      Reset(2 * oldSize);
      assert oldBuckets[..0] == [];
      var i := 0;
      while i < oldSize
        invariant 0 <= i <= oldSize && bucketSize == 2 * oldSize && Sound()
        invariant Bag() == multiset(Flatten(oldBuckets[..i]))
      {
        FlattenPrefix(oldBuckets, i);
        assert HashesTo(oldBuckets[i], i, oldSize);
        Reinsert(oldBuckets[i]);
        i := i + 1;
      }
      assert oldBuckets[..i] == oldBuckets;
    }

    /** The start of `rehash`: a new, empty array of `size` buckets. */
    method Reset(size: nat)
      requires size > 0
      modifies this
      ensures Sound() && bucketSize == size && Pairs() == []
    {
      bucketSize := size;
      buckets := seq(size, _ => []);
      totalElements := 0;
      EmptyFlatten(buckets);
    }

    /** The inner loop of `rehash`: inserts the pairs of one old bucket in order. The load
        never exceeds the bound on the way, so none of these inserts rehashes again. */
    method Reinsert(b: seq<Pair>)
      requires Sound() && 4 * (totalElements + |b|) <= 3 * bucketSize
      requires forall p :: p in b ==> p.0 >= 0
      modifies this
      ensures Sound() && bucketSize == old(bucketSize)
      ensures totalElements == old(totalElements) + |b|
      ensures Bag() == old(Bag()) + multiset(b)
    {
      var j := 0;
      while j < |b|
        invariant 0 <= j <= |b|
        invariant Sound() && bucketSize == old(bucketSize)
        invariant totalElements == old(totalElements) + j
        invariant Bag() == old(Bag()) + multiset(b[..j])
      {
        var (k, v) := b[j];
        Place(k, v);
        assert 4 * totalElements <= 3 * bucketSize;
        assert b[..j + 1] == b[..j] + [(k, v)];
        j := j + 1;
      }
      assert b[..j] == b;
    }

    /** The value stored with `key`, or 0 when its bucket holds no such pair. */
    method Search(key: int) returns (value: int)
      requires Valid() && key >= 0
      ensures value == match FirstMatch(buckets[Hash(key)], key)
        case None => 0
        case Some(j) => buckets[Hash(key)][j].1
      ensures key !in KeysOf(Bag()) ==> value == 0
      ensures Unique(Bag()) && key in KeysOf(Bag()) ==> value == AsMap(Bag())[key]
    {
      var index := Hash(key);
      var b := buckets[index];
      var j := 0;
      BucketLookup(buckets, key);
      while j < |b|
        invariant 0 <= j <= |b|
        invariant forall i :: 0 <= i < j ==> b[i].0 != key
      {
        if b[j].0 == key {
          value := b[j].1;
          FirstMatchAt(b, key, j);
          return;
        }
        j := j + 1;
      }
      value := 0;
    }

    /** Erases the first pair with `key` from its bucket, if there is one. */
    method Remove(key: int)
      requires Valid() && key >= 0
      modifies this
      ensures Valid() && bucketSize == old(bucketSize)
      ensures var h := old(Hash(key)); var b := old(buckets[Hash(key)]);
        match FirstMatch(b, key)
        case None => buckets == old(buckets) && totalElements == old(totalElements)
        case Some(j) =>
          && buckets == old(buckets)[h := b[..j] + b[j + 1..]]
          && totalElements == old(totalElements) - 1
          && Bag() == old(Bag()) - multiset{b[j]}
      ensures key !in KeysOf(old(Bag())) ==> Bag() == old(Bag()) && totalElements == old(totalElements)
      ensures key in KeysOf(old(Bag())) ==> totalElements == old(totalElements) - 1
      ensures Unique(old(Bag())) ==> Unique(Bag()) && AsMap(Bag()) == AsMap(old(Bag())) - {key}
    {
      var index := Hash(key);
      var b := buckets[index];
      ghost var bag := Bag();
      BucketLookup(buckets, key);
      var j := Locate(b, key);
      if j < |b| {
        BucketErase(buckets, index, j);
        if Unique(bag) {
          RemovePair(bag, b[j]);
        }
        EraseAt(index, j);
      } else {
        AbsentKey(bag, key);
      }
    }

    /** The scan of `remove`: the position of the first pair with `key` in `b`, or |b|
        when there is none. */
    static method Locate(b: seq<Pair>, key: int) returns (j: nat)
      ensures j <= |b|
      ensures FirstMatch(b, key) == if j < |b| then Some(j) else None
    {
      j := 0;
      while j < |b| && b[j].0 != key
        invariant 0 <= j <= |b|
        invariant forall i :: 0 <= i < j ==> b[i].0 != key
      {
        j := j + 1;
      }
      if j < |b| {
        FirstMatchAt(b, key, j);
      }
    }

    /** The `erase` of `remove`: drops position `j` of bucket `index`. */
    method EraseAt(index: nat, j: nat)
      requires Valid() && index < bucketSize && j < |buckets[index]|
      modifies this
      ensures Valid() && bucketSize == old(bucketSize)
      ensures var b := old(buckets[index]);
        && buckets == old(buckets)[index := b[..j] + b[j + 1..]]
        && Bag() == old(Bag()) - multiset{b[j]}
      ensures totalElements == old(totalElements) - 1
    {
      var b := buckets[index];
      BucketErase(buckets, index, j);
      buckets, totalElements := buckets[index := b[..j] + b[j + 1..]], totalElements - 1;
    }

    /** The key of the first pair, in bucket order, whose value is the smallest one stored. */
    method Least() returns (key: int)
      requires Valid()
      requires exists k :: 0 <= k < |Pairs()| && Pairs()[k].1 < INT_MAX
      ensures exists k :: FirstLeast(Pairs(), k) && Pairs()[k].0 == key
      ensures Unique(Bag()) ==>
        && key in AsMap(Bag())
        && forall k :: k in AsMap(Bag()) ==> AsMap(Bag())[key] <= AsMap(Bag())[k]
    {
      var ans := INT_MAX;
      key := 0;
      ghost var at := -1;
      var index := 0;
      assert buckets[..0] == [];
      while index < bucketSize
        invariant 0 <= index <= bucketSize
        invariant at == -1 ==> ans == INT_MAX && forall i :: 0 <= i < |Flatten(buckets[..index])| ==> Flatten(buckets[..index])[i].1 >= INT_MAX
        invariant at != -1 ==> FirstLeast(Flatten(buckets[..index]), at) && Flatten(buckets[..index])[at] == (key, ans) && ans < INT_MAX
      {
        ghost var seen := Flatten(buckets[..index]);
        var b := buckets[index];
        var j := 0;
        while j < |b|
          invariant 0 <= j <= |b|
          invariant at == -1 ==> ans == INT_MAX && forall i :: 0 <= i < |seen + b[..j]| ==> (seen + b[..j])[i].1 >= INT_MAX
          invariant at != -1 ==> FirstLeast(seen + b[..j], at) && (seen + b[..j])[at] == (key, ans) && ans < INT_MAX
        {
          assert seen + b[..j + 1] == seen + b[..j] + [b[j]];
          if b[j].1 < ans {
            ans := b[j].1;
            key := b[j].0;
            at := |seen| + j;
          }
          j := j + 1;
        }
        assert b[..j] == b;
        assert buckets[..index + 1][..index] == buckets[..index];
        index := index + 1;
      }
      assert buckets[..index] == buckets;
      if Unique(Bag()) {
        LeastInMap(Pairs(), at);
      }
    }
  }
}
