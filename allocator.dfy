/**
 * The explicit-list memory allocator of 2021MT10230mmu.h.
 *
 * The block directory is the singly linked chain of MemBlock headers that starts at
 * the global `head`; here it is the sequence `Heap.blocks`, in directory order, so
 * that `next` of blocks[i] is blocks[i + 1], the last block's `next` is NULL and
 * `head` is NULL exactly when the sequence is empty. A header is identified by its
 * address `addr`; the payload pointer handed to callers (header + 1) is represented
 * by that address. The OS is an oracle: `grant` says what mmap returns, `unmapOk`
 * whether munmap succeeds, and the lengths passed to the OS are logged.
 */
module Allocator {

  import opened Wrappers

  /** sizeof(MemBlock) on an LP64 target: size_t (8) + pointer (8) + int (4) + padding (4). */
  const HEADER: nat := 24
  /** The largest value of size_t on a 64-bit target. */
  const SIZE_MAX: nat := 0xFFFF_FFFF_FFFF_FFFF
  /** errno values (Linux). */
  const EINVAL: nat := 22
  const ENOMEM: nat := 12

  /** A MemBlock header: its address, the payload capacity `size` (header excluded) and `is_free`. */
  datatype Block = Block(addr: nat, size: nat, isFree: bool)

  /** A pointer returned by my_malloc/my_calloc: NULL, or the payload of the block at `addr`. */
  datatype Ptr = Null | Payload(addr: nat)

  /** The header addresses of a directory, in order. */
  function Addrs(s: seq<Block>): (r: seq<nat>)
    ensures |r| == |s|
    ensures forall i :: 0 <= i < |s| ==> r[i] == s[i].addr
  {
    if s == [] then [] else [s[0].addr] + Addrs(s[1..])
  }

  /** Directory shape: every header address occurs once and no block has a zero payload. */
  ghost predicate WellFormed(s: seq<Block>) {
    && (forall i, j :: 0 <= i < j < |s| ==> s[i].addr != s[j].addr)
    && (forall i :: 0 <= i < |s| ==> s[i].size > 0)
  }

  /** Bytes of mapped memory the directory accounts for: a header plus a payload per block. */
  function Footprint(s: seq<Block>): nat {
    if s == [] then 0 else HEADER + s[0].size + Footprint(s[1..])
  }

  /** The blocks whose payload is outstanding to a caller, in directory order. */
  function Used(s: seq<Block>): seq<Block> {
    if s == [] then [] else (if s[0].isFree then [] else [s[0]]) + Used(s[1..])
  }

  /** `a` keeps the elements it takes from `b` in `b`'s order. */
  ghost predicate IsSubseq<T>(a: seq<T>, b: seq<T>)
    decreases |b|
  {
    a == [] || (b != [] && ((a[0] == b[0] && IsSubseq(a[1..], b[1..])) || IsSubseq(a, b[1..])))
  }

  predicate Fits(b: Block, size: nat) {
    b.isFree && b.size >= size
  }

  // ---------------------------------------------------------------------------
  // my_malloc

  /** First-fit selection: the position of the first free block large enough for `size`. */
  function FirstFit(s: seq<Block>, size: nat): (r: Option<nat>)
    ensures r.Some? ==> r.value < |s| && Fits(s[r.value], size)
    ensures r.Some? ==> forall j :: 0 <= j < r.value ==> !Fits(s[j], size)
    ensures r.None? ==> forall j :: 0 <= j < |s| ==> !Fits(s[j], size)
  {
    if s == [] then None
    else if Fits(s[0], size) then Some(0)
    else match FirstFit(s[1..], size)
      case None => None
      case Some(k) => Some(k + 1)
  }

  /** The region length my_malloc computes on a miss, `sizeof(MemBlock) + size`, as written:
      size_t arithmetic wraps modulo 2^64. */
  function RegionRequestAsWritten(size: nat): (r: nat)
    requires size <= SIZE_MAX
    ensures r <= SIZE_MAX
    ensures r == HEADER + size <==> HEADER + size <= SIZE_MAX
  {
    (HEADER + size) % (SIZE_MAX + 1)
  }

  /** As written, a request for SIZE_MAX bytes maps a region too small even for the header,
      while the block is recorded with payload SIZE_MAX. */
  lemma RequestWrapsAsWritten()
    ensures RegionRequestAsWritten(SIZE_MAX) == HEADER - 1
    ensures RegionRequestAsWritten(SIZE_MAX) < HEADER + SIZE_MAX
  {
  }

  /** The region length requested on a miss, with the overflow the source misses turned into
      a failure: None exactly when the header plus payload is not representable. */
  function RegionRequest(size: nat): (r: Option<nat>)
    requires size <= SIZE_MAX
    ensures r.Some? ==> HEADER + size <= r.value <= SIZE_MAX
    ensures r.None? ==> HEADER + size > SIZE_MAX
  {
    if size <= SIZE_MAX - HEADER then Some(HEADER + size) else None
  }

  /** Whenever the sum does not wrap, the corrected request is the one the source makes. */
  lemma RequestAgreesWhenRepresentable(size: nat)
    requires size <= SIZE_MAX - HEADER
    ensures RegionRequest(size) == Some(RegionRequestAsWritten(size))
  {
  }

  /** What one my_malloc call does: the pointer returned, the new directory, the length
      passed to the OS (if it was asked) and the errno it sets (if any). */
  datatype Outcome = Outcome(ptr: Ptr, dir: seq<Block>, request: Option<nat>, err: Option<nat>)

  /** my_malloc on directory `s`; `grant` is what mmap returns if it is called. */
  function Allocate(s: seq<Block>, size: nat, grant: Option<nat>): (o: Outcome)
    requires WellFormed(s) && size <= SIZE_MAX
    requires grant.Some? ==> grant.value !in Addrs(s)
    ensures WellFormed(o.dir)
    ensures o.ptr.Null? <==> o.err.Some?
    ensures o.ptr.Null? ==> o.dir == s
    ensures o.ptr.Payload? ==>
      exists i :: 0 <= i < |o.dir| && o.dir[i].addr == o.ptr.addr && !o.dir[i].isFree && o.dir[i].size >= size
    ensures forall b :: b in s && !b.isFree ==> b in o.dir
    ensures o.request.Some? ==> FirstFit(s, size).None? && o.request.value == HEADER + size
    ensures Footprint(o.dir) == Footprint(s) + (if o.ptr.Payload? && o.request.Some? then o.request.value else 0)
  {
    if size == 0 then Outcome(Null, s, None, Some(EINVAL))
    else match FirstFit(s, size)
      case Some(i) =>
        FootprintSameSizes(s, s[i := s[i].(isFree := false)]);
        Outcome(Payload(s[i].addr), s[i := s[i].(isFree := false)], None, None)
      case None =>
        match RegionRequest(size)
        case None => Outcome(Null, s, None, Some(ENOMEM))
        case Some(total) =>
          if grant.None? then Outcome(Null, s, Some(total), Some(ENOMEM))
          else
            var b := Block(grant.value, size, false);
            FootprintAppend(s, [b]);
            assert forall i :: 0 <= i < |s| ==> s[i].addr != b.addr by {
              forall i | 0 <= i < |s| ensures s[i].addr != b.addr {
                assert Addrs(s)[i] == s[i].addr;
              }
            }
            var d := s + [b];
            assert d[|s|] == b;
            assert forall x :: x in s ==> x in d;
            Outcome(Payload(b.addr), d, Some(total), None)
  }

  /** A first-fit hit flips only the chosen block to used and asks the OS for nothing. */
  lemma AllocateHit(s: seq<Block>, size: nat, grant: Option<nat>)
    requires WellFormed(s) && 0 < size <= SIZE_MAX
    requires grant.Some? ==> grant.value !in Addrs(s)
    requires FirstFit(s, size).Some?
    ensures var i := FirstFit(s, size).value;
      var o := Allocate(s, size, grant);
      && o.ptr == Payload(s[i].addr)
      && o.dir == s[i := s[i].(isFree := false)]
      && o.request.None? && o.err.None?
  {
  }

  /** On a first-fit miss the OS is asked for exactly header + size bytes; a refusal leaves the
      directory alone with ENOMEM, a grant appends one used block at the tail. */
  lemma AllocateMiss(s: seq<Block>, size: nat, grant: Option<nat>)
    requires WellFormed(s) && 0 < size <= SIZE_MAX - HEADER
    requires grant.Some? ==> grant.value !in Addrs(s)
    requires FirstFit(s, size).None?
    ensures var o := Allocate(s, size, grant);
      && o.request == Some(HEADER + size)
      && (grant.None? ==> o.ptr == Null && o.err == Some(ENOMEM) && o.dir == s)
      && (grant.Some? ==> o.ptr == Payload(grant.value) && o.err.None?
                          && o.dir == s + [Block(grant.value, size, false)])
  {
  }

  /** my_malloc(0) fails with EINVAL and touches nothing. */
  lemma AllocateZero(s: seq<Block>, grant: Option<nat>)
    requires WellFormed(s)
    requires grant.Some? ==> grant.value !in Addrs(s)
    ensures Allocate(s, 0, grant) == Outcome(Null, s, None, Some(EINVAL))
  {
  }

  lemma {:induction false} FootprintAppend(s: seq<Block>, t: seq<Block>)
    ensures Footprint(s + t) == Footprint(s) + Footprint(t)
    decreases |s|
  {
    if s == [] {
      assert s + t == t;
    } else {
      assert (s + t)[1..] == s[1..] + t;
      FootprintAppend(s[1..], t);
    }
  }

  /** Changing free flags only does not change the footprint. */
  lemma {:induction false} FootprintSameSizes(s: seq<Block>, t: seq<Block>)
    requires |s| == |t| && forall i :: 0 <= i < |s| ==> s[i].size == t[i].size
    ensures Footprint(s) == Footprint(t)
    decreases |s|
  {
    if s != [] {
      FootprintSameSizes(s[1..], t[1..]);
    }
  }

  // ---------------------------------------------------------------------------
  // my_calloc

  /** size_t multiplication as the source computes it. */
  function Wrap(x: nat): (r: nat)
    ensures r <= SIZE_MAX
    ensures x <= SIZE_MAX ==> r == x
  {
    x % (SIZE_MAX + 1)
  }

  /** The overflow test `total / nelem != size` of my_calloc detects exactly the products that
      do not fit in a size_t. */
  lemma CallocOverflowCheckExact(nelem: nat, size: nat)
    requires 0 < nelem <= SIZE_MAX && size <= SIZE_MAX
    ensures Wrap(nelem * size) / nelem != size <==> nelem * size > SIZE_MAX
  {
    var product := nelem * size;
    var total := Wrap(product);
    if product <= SIZE_MAX {
      assert total == product;
      DivOfMultiple(nelem, size, product);
    } else {
      assert total <= SIZE_MAX;
      if total / nelem == size {
        DivLowerBound(total, nelem, size);
        assert false;
      }
    }
  }

  lemma DivOfMultiple(n: nat, q: nat, x: nat)
    requires n > 0 && x == n * q
    ensures x / n == q
  {
    var d, r := x / n, x % n;
    assert x == n * d + r && 0 <= r < n;
    var k: int := q - d;
    assert n * k == r by {
      assert n * q - n * d == n * (q - d);
    }
    if k >= 1 {
      MulAtLeast(n, k);
    } else if k <= -1 {
      MulAtLeast(n, -k);
    }
  }

  lemma MulAtLeast(n: nat, k: int)
    requires k >= 1
    ensures n * k >= n
  {
    assert n * k == n + n * (k - 1);
  }

  lemma DivLowerBound(x: nat, n: nat, q: nat)
    requires n > 0 && x / n == q
    ensures x >= n * q
  {
    assert x == n * (x / n) + x % n;
  }

  /** The bytes memset writes. */
  function Zeros(n: nat): (z: seq<bv8>)
    ensures |z| == n && forall k :: 0 <= k < n ==> z[k] == 0
  {
    seq(n, _ => 0)
  }

  // ---------------------------------------------------------------------------
  // my_free

  /** `block->is_free = 1`: only the released block changes, and only its flag. */
  function MarkFree(s: seq<Block>, i: nat): (r: seq<Block>)
    requires i < |s|
    ensures |r| == |s| && r[i].isFree
    ensures r[i].addr == s[i].addr && r[i].size == s[i].size
    ensures forall j :: 0 <= j < |s| && j != i ==> r[j] == s[j]
  {
    s[i := s[i].(isFree := true)]
  }

  /** A merge: the predecessor absorbs the successor's header and payload. */
  function Merge(a: Block, b: Block): (m: Block)
    ensures m.addr == a.addr && m.isFree == a.isFree
    ensures HEADER + m.size == (HEADER + a.size) + (HEADER + b.size)
  {
    a.(size := a.size + HEADER + b.size)
  }

  /** The coalescing pass of my_free as written: after a merge the scan moves on to the block
      after the absorbed one, so the merged block is not compared again. */
  function Coalesce(s: seq<Block>): (r: seq<Block>)
    ensures |r| <= |s|
    ensures r == [] <==> s == []
    decreases |s|
  {
    if |s| < 2 then s
    else if s[0].isFree && s[1].isFree then [Merge(s[0], s[1])] + Coalesce(s[2..])
    else [s[0]] + Coalesce(s[1..])
  }

  predicate TailFree(s: seq<Block>) {
    s != [] && s[|s| - 1].isFree
  }

  /** Tail reclamation: a free last block is unlinked. */
  function ReclaimTail(s: seq<Block>): (r: seq<Block>)
    ensures !TailFree(s) ==> r == s
    ensures TailFree(s) ==> r + [s[|s| - 1]] == s
  {
    if TailFree(s) then s[..|s| - 1] else s
  }

  /** Bytes handed back to the OS by tail reclamation. */
  function Reclaimed(s: seq<Block>): (n: nat)
    ensures n > 0 <==> TailFree(s)
    ensures TailFree(s) ==> n == HEADER + s[|s| - 1].size
  {
    if TailFree(s) then HEADER + s[|s| - 1].size else 0
  }

  /** The directory after my_free of the block at position i. */
  function AfterFree(s: seq<Block>, i: nat): (r: seq<Block>)
    requires i < |s|
    ensures |r| <= |s|
    ensures Used(r) == Used(MarkFree(s, i))
  {
    var c := Coalesce(MarkFree(s, i));
    CoalesceKeepsUsed(MarkFree(s, i));
    ReclaimTailKeepsUsed(c);
    ReclaimTail(c)
  }

  /** The position of the header at `addr` ((MemBlock *)ptr - 1). */
  function IndexOf(s: seq<Block>, addr: nat): (i: nat)
    requires addr in Addrs(s)
    ensures i < |s| && s[i].addr == addr
  {
    if s[0].addr == addr then 0 else IndexOf(s[1..], addr) + 1
  }

  /** Each merge moves a header and a payload into the predecessor: the pass keeps the
      footprint. */
  lemma {:induction false} CoalesceFootprint(s: seq<Block>)
    ensures Footprint(Coalesce(s)) == Footprint(s)
    decreases |s|
  {
    if |s| >= 2 {
      if s[0].isFree && s[1].isFree {
        CoalesceFootprint(s[2..]);
        assert s[1..][1..] == s[2..];
      } else {
        CoalesceFootprint(s[1..]);
      }
    }
  }

  /** The pass keeps the head block, removes blocks but adds none, and keeps the surviving
      headers in directory order. */
  lemma {:induction false} CoalesceKeepsOrder(s: seq<Block>)
    ensures |Coalesce(s)| <= |s|
    ensures s != [] ==> Coalesce(s) != [] && Coalesce(s)[0].addr == s[0].addr
    ensures IsSubseq(Addrs(Coalesce(s)), Addrs(s))
    decreases |s|
  {
    if |s| < 2 {
      SubseqRefl(Addrs(s));
    } else if s[0].isFree && s[1].isFree {
      CoalesceKeepsOrder(s[2..]);
      assert Addrs(s)[1..] == Addrs(s[1..]);
      assert Addrs(s[1..])[1..] == Addrs(s[2..]);
      var rest := Addrs(Coalesce(s[2..]));
      assert Addrs(Coalesce(s)) == [s[0].addr] + rest;
      assert IsSubseq(rest, Addrs(s[1..]));
    } else {
      CoalesceKeepsOrder(s[1..]);
      assert Addrs(s)[1..] == Addrs(s[1..]);
    }
  }

  lemma {:induction false} SubseqRefl<T>(a: seq<T>)
    ensures IsSubseq(a, a)
    decreases |a|
  {
    if a != [] {
      SubseqRefl(a[1..]);
    }
  }

  /** Every header left after the pass was in the directory before it. */
  lemma {:induction false} CoalesceAddrs(s: seq<Block>)
    ensures forall a :: a in Addrs(Coalesce(s)) ==> a in Addrs(s)
    decreases |s|
  {
    if |s| >= 2 {
      if s[0].isFree && s[1].isFree {
        CoalesceAddrs(s[2..]);
        assert Addrs(s) == [s[0].addr, s[1].addr] + Addrs(s[2..]);
      } else {
        CoalesceAddrs(s[1..]);
        assert Addrs(s) == [s[0].addr] + Addrs(s[1..]);
      }
    }
  }

  lemma {:induction false} CoalesceWellFormed(s: seq<Block>)
    requires WellFormed(s)
    ensures WellFormed(Coalesce(s))
    decreases |s|
  {
    if |s| >= 2 {
      var k := if s[0].isFree && s[1].isFree then 2 else 1;
      var head := if k == 2 then Merge(s[0], s[1]) else s[0];
      CoalesceWellFormed(s[k..]);
      CoalesceAddrs(s[k..]);
      var rest := Coalesce(s[k..]);
      assert Coalesce(s) == [head] + rest;
      forall j | 0 <= j < |rest| ensures rest[j].addr != head.addr {
        assert Addrs(rest)[j] == rest[j].addr;
        var m := IndexOf(s[k..], rest[j].addr);
        assert s[k + m].addr == rest[j].addr;
      }
    }
  }

  /** The pass never touches a used block: the used blocks, with their sizes, are the same
      sequence before and after. */
  lemma {:induction false} CoalesceKeepsUsed(s: seq<Block>)
    ensures Used(Coalesce(s)) == Used(s)
    decreases |s|
  {
    if |s| >= 2 {
      if s[0].isFree && s[1].isFree {
        CoalesceKeepsUsed(s[2..]);
        assert ([Merge(s[0], s[1])] + Coalesce(s[2..]))[1..] == Coalesce(s[2..]);
        assert s[1..][1..] == s[2..];
      } else {
        CoalesceKeepsUsed(s[1..]);
        assert ([s[0]] + Coalesce(s[1..]))[1..] == Coalesce(s[1..]);
      }
    }
  }

  /** The pass merges pairwise: a run of three free blocks leaves two adjacent free blocks. */
  lemma CoalesceRunOfThree(a: Block, b: Block, c: Block)
    requires a.isFree && b.isFree && c.isFree
    ensures Coalesce([a, b, c]) == [Merge(a, b), c]
    ensures TailFree(Coalesce([a, b, c])) && Coalesce([a, b, c])[0].isFree
  {
    assert [a, b, c][2..] == [c];
  }

  /** A free block of the directory is still covered after the pass by a free block at least
      as large (itself or the merge that absorbed it). */
  lemma {:induction false} CoalesceCoversFree(s: seq<Block>, k: nat)
    requires k < |s| && s[k].isFree
    ensures exists j :: 0 <= j < |Coalesce(s)| && Fits(Coalesce(s)[j], s[k].size)
    decreases |s|
  {
    if |s| >= 2 {
      if s[0].isFree && s[1].isFree {
        if k < 2 {
          assert Fits(Coalesce(s)[0], s[k].size);
        } else {
          CoalesceCoversFree(s[2..], k - 2);
          var j :| 0 <= j < |Coalesce(s[2..])| && Fits(Coalesce(s[2..])[j], s[k].size);
          assert Coalesce(s)[j + 1] == Coalesce(s[2..])[j];
        }
      } else if k == 0 {
        assert Fits(Coalesce(s)[0], s[k].size);
      } else {
        CoalesceCoversFree(s[1..], k - 1);
        var j :| 0 <= j < |Coalesce(s[1..])| && Fits(Coalesce(s[1..])[j], s[k].size);
        assert Coalesce(s)[j + 1] == Coalesce(s[1..])[j];
      }
    } else {
      assert Fits(Coalesce(s)[k], s[k].size);
    }
  }

  /** A used last block stays last through the pass. */
  lemma {:induction false} CoalesceKeepsUsedTail(s: seq<Block>)
    requires s != [] && !s[|s| - 1].isFree
    ensures Coalesce(s) != [] && Coalesce(s)[|Coalesce(s)| - 1] == s[|s| - 1]
    decreases |s|
  {
    if |s| >= 2 {
      if s[0].isFree && s[1].isFree {
        if |s| == 2 {
          assert false;
        }
        CoalesceKeepsUsedTail(s[2..]);
      } else {
        CoalesceKeepsUsedTail(s[1..]);
      }
    }
  }

  lemma {:induction false} UsedAppend(s: seq<Block>, t: seq<Block>)
    ensures Used(s + t) == Used(s) + Used(t)
    decreases |s|
  {
    if s == [] {
      assert s + t == t;
    } else {
      assert (s + t)[1..] == s[1..] + t;
      UsedAppend(s[1..], t);
    }
  }

  lemma {:induction false} UsedMember(s: seq<Block>, b: Block)
    ensures b in Used(s) <==> b in s && !b.isFree
    decreases |s|
  {
    if s != [] {
      UsedMember(s[1..], b);
      assert s == [s[0]] + s[1..];
    }
  }

  lemma ReclaimTailKeepsUsed(s: seq<Block>)
    ensures Used(ReclaimTail(s)) == Used(s)
  {
    if TailFree(s) {
      assert s == s[..|s| - 1] + [s[|s| - 1]];
      UsedAppend(s[..|s| - 1], [s[|s| - 1]]);
    }
  }

  /** my_free keeps every other live block: the used blocks after the call are those of the
      directory with the released block marked free. */
  lemma FreeKeepsLiveBlocks(s: seq<Block>, i: nat)
    requires i < |s|
    ensures Used(AfterFree(s, i)) == Used(MarkFree(s, i))
    ensures forall j :: 0 <= j < |s| && j != i && !s[j].isFree ==> s[j] in AfterFree(s, i)
  {
    var m := MarkFree(s, i);
    CoalesceKeepsUsed(m);
    ReclaimTailKeepsUsed(Coalesce(m));
    forall j | 0 <= j < |s| && j != i && !s[j].isFree ensures s[j] in AfterFree(s, i) {
      assert m[j] == s[j];
      UsedMember(m, s[j]);
      UsedMember(AfterFree(s, i), s[j]);
    }
  }

  /** Memory accounting of my_free: what leaves the directory is exactly the region handed
      back to the OS. */
  lemma FreeFootprint(s: seq<Block>, i: nat)
    requires i < |s|
    ensures Footprint(AfterFree(s, i)) + Reclaimed(Coalesce(MarkFree(s, i))) == Footprint(s)
  {
    var m := MarkFree(s, i);
    var c := Coalesce(m);
    FootprintSameSizes(s, m);
    CoalesceFootprint(m);
    ReclaimTailFootprint(c);
  }

  lemma ReclaimTailFootprint(c: seq<Block>)
    ensures Footprint(ReclaimTail(c)) + Reclaimed(c) == Footprint(c)
  {
    if TailFree(c) {
      var init, last := c[..|c| - 1], c[|c| - 1];
      assert c == init + [last];
      FootprintAppend(init, [last]);
      assert Footprint([last]) == HEADER + last.size;
    }
  }

  lemma FreeWellFormed(s: seq<Block>, i: nat)
    requires WellFormed(s) && i < |s|
    ensures WellFormed(AfterFree(s, i))
  {
    CoalesceWellFormed(MarkFree(s, i));
  }

  /** Releasing a block that is not last while the last block is in use makes its memory
      available again: a request no larger than it is then served by first fit, without
      asking the OS. */
  lemma FreedBlockIsReused(s: seq<Block>, i: nat, size: nat, grant: Option<nat>)
    requires WellFormed(s) && i < |s| - 1 && !s[|s| - 1].isFree
    requires 0 < size <= s[i].size && size <= SIZE_MAX
    requires grant.Some? ==> grant.value !in Addrs(AfterFree(s, i))
    ensures WellFormed(AfterFree(s, i))
    ensures var o := Allocate(AfterFree(s, i), size, grant);
      o.ptr.Payload? && o.request.None?
  {
    var m := MarkFree(s, i);
    FreeWellFormed(s, i);
    CoalesceKeepsUsedTail(m);
    CoalesceCoversFree(m, i);
    var c := Coalesce(m);
    assert !TailFree(c);
    assert AfterFree(s, i) == c;
    var j :| 0 <= j < |c| && Fits(c[j], s[i].size);
    assert Fits(c[j], size);
  }

  /** Three blocks A, B, C in use; releasing A and B, in either order, leaves one free block
      of A's and B's payload plus a header, which serves a request for their sum. */
  lemma FreedNeighboursServeTheirSum(a: Block, b: Block, c: Block)
    requires !a.isFree && !b.isFree && !c.isFree
    ensures AfterFree([a, b, c], 0) == [a.(isFree := true), b, c]
    ensures AfterFree(AfterFree([a, b, c], 0), 1) == [Merge(a.(isFree := true), b.(isFree := true)), c]
    ensures AfterFree([a, b, c], 1) == [a, b.(isFree := true), c]
    ensures AfterFree(AfterFree([a, b, c], 1), 0) == [Merge(a.(isFree := true), b.(isFree := true)), c]
    ensures FirstFit([Merge(a.(isFree := true), b.(isFree := true)), c], a.size + b.size) == Some(0)
  {
    var fa, fb := a.(isFree := true), b.(isFree := true);
    assert [fa, b, c][1..] == [b, c] && [b, c][1..] == [c];
    assert [a, fb, c][1..] == [fb, c] && [fb, c][1..] == [c];
    assert [fa, fb, c][2..] == [c];
    assert MarkFree([a, b, c], 0) == [fa, b, c] && MarkFree([a, b, c], 1) == [a, fb, c];
    assert MarkFree([fa, b, c], 1) == [fa, fb, c] && MarkFree([a, fb, c], 0) == [fa, fb, c];
    assert Coalesce([b, c]) == [b] + Coalesce([c]) == [b, c];
    assert Coalesce([fa, b, c]) == [fa] + Coalesce([b, c]) == [fa, b, c];
    assert Coalesce([fb, c]) == [fb] + Coalesce([c]) == [fb, c];
    assert Coalesce([a, fb, c]) == [a] + Coalesce([fb, c]) == [a, fb, c];
  }

  /** Releasing the only block empties the directory and maps nothing stale: the next
      allocation goes to the OS again. */
  lemma FreeingSoleBlockEmptiesDirectory(b: Block, size: nat, grant: Option<nat>)
    requires 0 < size <= SIZE_MAX - HEADER
    ensures AfterFree([b], 0) == []
    ensures Allocate([], size, grant).request == Some(HEADER + size)
  {
  }

  // ---------------------------------------------------------------------------
  // The allocator object: the directory and the errno it reports through.

  class Heap {
    /** The block directory, from `head` along `next`. */
    var blocks: seq<Block>
    var errno: nat
    /** Lengths passed to mmap, oldest first. */
    var requests: seq<nat>
    /** (address, length) pairs passed to munmap, oldest first. */
    var releases: seq<(nat, nat)>
    /** Payload bytes the allocator itself wrote (my_calloc's memset), by header address. */
    var payloads: map<nat, seq<bv8>>

    ghost predicate Valid()
      reads this
    {
      WellFormed(blocks)
    }

    constructor ()
      ensures Valid() && blocks == [] && errno == 0
      ensures requests == [] && releases == [] && payloads == map[]
    {
      blocks, errno := [], 0;
      requests, releases, payloads := [], [], map[];
    }

    method Malloc(size: nat, grant: Option<nat>) returns (p: Ptr)
      requires Valid() && size <= SIZE_MAX
      requires grant.Some? ==> grant.value !in Addrs(blocks)
      modifies this
      ensures Valid()
      ensures var o := Allocate(old(blocks), size, grant);
        && p == o.ptr && blocks == o.dir
        && requests == old(requests) + (if o.request.Some? then [o.request.value] else [])
        && errno == (if o.err.Some? then o.err.value else old(errno))
      ensures releases == old(releases) && payloads == old(payloads)
    {
      if size == 0 {
        errno := EINVAL;
        return Null;
      }
      var i := 0;
      while i < |blocks|
        invariant 0 <= i <= |blocks|
        invariant unchanged(this)
        invariant forall j :: 0 <= j < i ==> !Fits(blocks[j], size)
      {
        if blocks[i].isFree && blocks[i].size >= size {
          blocks := blocks[i := blocks[i].(isFree := false)];
          return Payload(blocks[i].addr);
        }
        i := i + 1;
      }
      var total := RegionRequest(size);
      if total.None? {
        errno := ENOMEM;
        return Null;
      }
      requests := requests + [total.value];
      if grant.None? {
        errno := ENOMEM;
        return Null;
      }
      blocks := blocks + [Block(grant.value, size, false)];
      p := Payload(grant.value);
    }

    method Calloc(nelem: nat, size: nat, grant: Option<nat>) returns (p: Ptr)
      requires Valid() && nelem <= SIZE_MAX && size <= SIZE_MAX
      requires grant.Some? ==> grant.value !in Addrs(blocks)
      modifies this
      ensures Valid() && releases == old(releases)
      ensures nelem == 0 || size == 0 ==>
        && p == Null && errno == EINVAL
        && blocks == old(blocks) && requests == old(requests) && payloads == old(payloads)
      ensures nelem > 0 && size > 0 && nelem * size > SIZE_MAX ==>
        && p == Null && errno == ENOMEM
        && blocks == old(blocks) && requests == old(requests) && payloads == old(payloads)
      ensures nelem > 0 && size > 0 && nelem * size <= SIZE_MAX ==>
        var o := Allocate(old(blocks), nelem * size, grant);
        && p == o.ptr && blocks == o.dir
        && requests == old(requests) + (if o.request.Some? then [o.request.value] else [])
        && errno == (if o.err.Some? then o.err.value else old(errno))
        && payloads == (if p.Payload? then old(payloads)[p.addr := Zeros(nelem * size)] else old(payloads))
    {
      if nelem == 0 || size == 0 {
        errno := EINVAL;
        return Null;
      }
      var total := Wrap(nelem * size);
      CallocOverflowCheckExact(nelem, size);
      if total / nelem != size {
        errno := ENOMEM;
        return Null;
      }
      p := Malloc(total, grant);
      if p.Payload? {
        payloads := payloads[p.addr := Zeros(total)];
      }
    }

    method Free(p: Ptr, unmapOk: bool)
      requires Valid()
      requires p.Payload? ==> p.addr in Addrs(blocks)
      modifies this
      ensures Valid() && requests == old(requests) && payloads == old(payloads)
      ensures p.Null? ==> blocks == old(blocks) && releases == old(releases) && errno == EINVAL
      ensures p.Payload? ==>
        var c := Coalesce(MarkFree(old(blocks), IndexOf(old(blocks), p.addr)));
        && blocks == ReclaimTail(c)
        && (TailFree(c) ==>
              && releases == old(releases) + [(c[|c| - 1].addr, HEADER + c[|c| - 1].size)]
              && errno == (if unmapOk then old(errno) else ENOMEM))
        && (!TailFree(c) ==> releases == old(releases) && errno == old(errno))
    {
      if p.Null? {
        errno := EINVAL;
        return;
      }
      var i := IndexOf(blocks, p.addr);
      FreeWellFormed(blocks, i);
      CoalesceWellFormed(MarkFree(blocks, i));
      blocks := blocks[i := blocks[i].(isFree := true)];
      CoalescePass();
      ReleaseTail(unmapOk);
    }

    /** The coalescing loop of my_free: one left-to-right pass over the directory. */
    method CoalescePass()
      modifies this
      ensures blocks == Coalesce(old(blocks))
      ensures errno == old(errno) && releases == old(releases)
      ensures requests == old(requests) && payloads == old(payloads)
    {
      // `cur` is the position of `current`; |blocks| stands for NULL.
      var cur := 0;
      while cur < |blocks|
        invariant cur <= |blocks|
        invariant blocks[..cur] + Coalesce(blocks[cur..]) == Coalesce(old(blocks))
        invariant errno == old(errno) && releases == old(releases)
        invariant requests == old(requests) && payloads == old(payloads)
        decreases |blocks| - cur
      {
        ghost var prefix, rest := blocks[..cur], blocks[cur..];
        if blocks[cur].isFree && cur + 1 < |blocks| && blocks[cur + 1].isFree {
          assert rest[2..] == blocks[cur + 2..];
          blocks := blocks[..cur] + [Merge(blocks[cur], blocks[cur + 1])] + blocks[cur + 2..];
          assert blocks[..cur + 1] == prefix + [Merge(rest[0], rest[1])];
          assert blocks[cur + 1..] == rest[2..];
        } else {
          assert blocks[..cur + 1] == prefix + [rest[0]];
          assert blocks[cur + 1..] == rest[1..];
        }
        cur := cur + 1;
      }
      assert blocks[cur..] == [];
      assert blocks[..cur] == blocks;
    }

    /** The tail-reclamation step of my_free: a free last block is unlinked and unmapped. */
    method ReleaseTail(unmapOk: bool)
      modifies this
      ensures blocks == ReclaimTail(old(blocks))
      ensures TailFree(old(blocks)) ==>
        && releases == old(releases) + [(old(blocks)[|old(blocks)| - 1].addr, Reclaimed(old(blocks)))]
        && errno == (if unmapOk then old(errno) else ENOMEM)
      ensures !TailFree(old(blocks)) ==> releases == old(releases) && errno == old(errno)
      ensures requests == old(requests) && payloads == old(payloads)
    {
      // `last` is the position of `current`; `last - 1` that of `last_block`.
      var last := 0;
      while last + 1 < |blocks|
        invariant |blocks| == 0 ==> last == 0
        invariant |blocks| > 0 ==> last < |blocks|
        decreases |blocks| - last
      {
        last := last + 1;
      }
      if |blocks| > 0 && blocks[last].isFree {
        var tail := blocks[last];
        // head = NULL when last == 0, otherwise last_block->next = NULL
        blocks := blocks[..last];
        releases := releases + [(tail.addr, HEADER + tail.size)];
        if !unmapOk {
          errno := ENOMEM;
        }
      }
    }
  }
}
