// lecture/test2/alloc.c: the unsorted free list, its coalescing, and alloc and dealloc once the
// first dealloc has been made. A header is found by its address; address 0 is NULL.
module Allocator {
  import opened FreeRanges
  import opened Seqs

  const HEADER: nat := 16
  const TWO_TO_THE_64: nat := 0x1_0000_0000_0000_0000

  datatype Algs = FIRST_FIT | BEST_FIT | WORST_FIT

  // 64-bit unsigned addition, as pointer and size arithmetic do it.
  function Add64(x: nat, y: nat): nat {
    (x + y) % TWO_TO_THE_64
  }

  ghost function At(l: seq<nat>, i: int): nat {
    if 0 <= i < |l| then l[i] else 0
  }

  // l is the list that starts at head.
  ghost predicate Linked(next: map<nat, nat>, head: nat, l: seq<nat>) {
    && head == At(l, 0) && Distinct(l)
    && (forall i | 0 <= i < |l| :: l[i] > 0)
    && (forall i {:trigger next[l[i]]} {:trigger l[i] in next} | 0 <= i < |l| ::
          l[i] in next && next[l[i]] == At(l, i + 1))
  }

  // Blocks lie inside the 64-bit address space, so no end address or merged size wraps around.
  ghost predicate InSpace(blocks: set<nat>, size: map<nat, nat>) {
    blocks <= size.Keys && forall a | a in blocks :: 0 < a < TWO_TO_THE_64 && a + size[a] <= TWO_TO_THE_64
  }

  ghost function Total(l: seq<nat>, size: map<nat, nat>): nat
    requires Elems(l) <= size.Keys
  {
    if l == [] then 0 else assert l[0] in Elems(l); assert Elems(l[1..]) <= Elems(l); size[l[0]] + Total(l[1..], size)
  }

  // The test "a ends where b starts" as written in C.
  predicate EndsAt(a: nat, sizeA: nat, b: nat) {
    Add64(Add64(a, HEADER), sizeA) == Add64(b, HEADER)
  }

  lemma EndsAtExact(a: nat, sizeA: nat, b: nat)
    requires a + sizeA <= TWO_TO_THE_64 && 0 < b < TWO_TO_THE_64
    ensures EndsAt(a, sizeA, b) <==> a + sizeA == b
  {
  }

  // What any number of merges keeps.
  ghost predicate Refines(f0: set<nat>, s0: map<nat, nat>, f: set<nat>, s: map<nat, nat>) {
    && f <= f0 <= s0.Keys && s.Keys == s0.Keys
    && Cover(f, s) == Cover(f0, s0)
    && (Disjoint(f0, s0) && Positive(f0, s0) ==> Disjoint(f, s) && Positive(f, s))
    && (forall x | x in s0 && x !in f0 :: s[x] == s0[x])
  }

  lemma RefinesMerge(f0: set<nat>, s0: map<nat, nat>, f: set<nat>, s: map<nat, nat>, a: nat, b: nat,
                     f': set<nat>, s': map<nat, nat>)
    requires Refines(f0, s0, f, s) && Merges(f, s, a, b, f', s')
    ensures Refines(f0, s0, f', s')
  {
    hide Cover, Disjoint, Positive;
    MergeKeepsCover(f, s, a, b, f', s');
    if Disjoint(f, s) && Positive(f, s) {
      MergeKeepsDisjoint(f, s, a, b, f', s');
    }
  }

  lemma {:induction false} TotalWithout(l: seq<nat>, k: nat, size: map<nat, nat>)
    requires Elems(l) <= size.Keys && k < |l|
    ensures Elems(Without(l, k)) <= Elems(l)
    ensures l[k] in size && Total(l, size) == size[l[k]] + Total(Without(l, k), size)
  {
    assert l[0] in Elems(l) && l[k] in Elems(l);
    if k == 0 {
      assert Without(l, 0) == l[1..];
    } else {
      TotalWithout(l[1..], k - 1, size);
      assert Without(l, k) == [l[0]] + Without(l[1..], k - 1);
      assert Without(l, k)[1..] == Without(l[1..], k - 1);
    }
  }

  lemma {:induction false} TotalUnaffected(l: seq<nat>, size: map<nat, nat>, a: nat, n: nat)
    requires Elems(l) <= size.Keys && a !in l
    ensures Elems(l) <= size[a := n].Keys && Total(l, size[a := n]) == Total(l, size)
  {
    if l != [] {
      TotalUnaffected(l[1..], size, a, n);
      assert l[0] in Elems(l);
    }
  }

  // A merge conserves the total of the size fields.
  lemma TotalMerge(l: seq<nat>, size: map<nat, nat>, i: nat, j: nat, n: nat)
    requires Elems(l) <= size.Keys && Distinct(l) && i < |l| && j < |l| && i != j
    requires l[i] in size && l[j] in size && n == size[l[i]] + size[l[j]]
    ensures Elems(Without(l, j)) <= size[l[i] := n].Keys
    ensures Total(Without(l, j), size[l[i] := n]) == Total(l, size)
  {
    var r := Without(l, j);
    var k := if i < j then i else i - 1;
    var s' := size[l[i] := n];
    TotalWithout(l, j, size);
    assert r[k] == l[i];
    TotalWithout(r, k, size);
    TotalWithout(r, k, s');
    TotalUnaffected(Without(r, k), size, l[i], n);
  }

  class Heap {
    var head: nat
    var size: map<nat, nat>
    var next: map<nat, nat>
    const lo: nat
    const hi: nat
    ghost var free: seq<nat>
    ghost var live: set<nat>

    // The state once the first dealloc has been made: [lo, hi) is all there is, and every
    // dealloc has coalesced.
    ghost predicate Valid()
      reads this
    {
      && HEADER <= lo && hi <= TWO_TO_THE_64 && ListOk() && live <= next.Keys
      && Partition(live, Elems(free), size, HEADER, lo, hi)
      && NoneAdjacent(Elems(free), size)
    }

    // A heap whose arena is one free block.
    constructor (lo: nat, hi: nat)
      requires HEADER <= lo && lo + HEADER <= hi <= TWO_TO_THE_64
      ensures Valid() && this.lo == lo && this.hi == hi && live == {} && free == [lo] && size[lo] == hi - lo
    {
      this.lo, this.hi := lo, hi;
      head, size, next := lo, map[lo := hi - lo], map[lo := 0];
      free, live := [lo], {};
      new;
      forall x: int ensures Covers({} + Elems(free), size, x) <==> InArena(lo, hi, x) {
        assert lo in {} + Elems(free);
      }
    }

    ghost predicate ListOk()
      reads this
    {
      Linked(next, head, free) && InSpace(Elems(free), size)
    }

    // Take b, the k-th block of the list, out of it; bPrev is the block before it, or NULL.
    method Unlink(b: nat, bPrev: nat, ghost k: nat)
      requires Linked(next, head, free) && k < |free| && free[k] == b && bPrev == At(free, k - 1)
      modifies `head, `next, `free
      ensures Linked(next, head, free) && free == Without(old(free), k)
      ensures next.Keys == old(next).Keys && forall x | x in next && x !in old(free) :: next[x] == old(next)[x]
    {
      if bPrev != 0 {
        next := next[bPrev := next[b]];
      } else {
        head := next[b];
      }
      free := Without(free, k);
    }

    // a takes over the bytes of b, which leaves the list.
    method Absorb(a: nat, b: nat, bPrev: nat, ghost i: nat, ghost k: nat)
      requires ListOk() && i < |free| && k < |free| && i != k && free[i] == a && free[k] == b
      requires bPrev == At(free, k - 1) && a in size && a + size[a] == b
      modifies `head, `size, `next, `free
      ensures ListOk() && free == Without(old(free), k)
      ensures Merges(Elems(old(free)), old(size), a, b, Elems(free), size)
      ensures Total(free, size) == Total(old(free), old(size))
      ensures next.Keys == old(next).Keys && forall x | x in next && x !in old(free) :: next[x] == old(next)[x]
    {
      hide Total;
      assert a in Elems(free) && b in Elems(free);
      ghost var n := size[a] + size[b];
      TotalMerge(free, size, i, k, n);
      size := size[a := Add64(size[a], size[b])];
      assert size[a] == n;
      ghost var was := free;
      Unlink(b, bPrev, k);
      WithoutElems(was, k);
    }

    lemma WithoutElems(l: seq<nat>, k: nat)
      requires k < |l| && Distinct(l)
      ensures Elems(Without(l, k)) == Elems(l) - {l[k]}
    {
      forall x | x in Elems(l) - {l[k]} ensures x in Without(l, k) {
        var i :| 0 <= i < |l| && l[i] == x;
        assert Without(l, k)[if i < k then i else i - 1] == x;
      }
    }

    // One turn's worth of merging happened.
    ghost predicate MergedOnce(f0: seq<nat>, s0: map<nat, nat>, n0: map<nat, nat>)
      requires Elems(f0) <= s0.Keys
      reads this
    {
      && Elems(free) <= size.Keys && |free| == |f0| - 1
      && (exists a, b :: Merges(Elems(f0), s0, a, b, Elems(free), size))
      && Total(free, size) == Total(f0, s0)
      && next.Keys == n0.Keys && forall x | x in n0 && x !in f0 :: next[x] == n0[x]
    }

    // No block among the first j of the list touches a, in either direction.
    ghost predicate Apart(a: nat, j: nat)
      requires ListOk() && j <= |free| && a in size
      reads this
    {
      forall b | b in free[..j] && b != a :: b in size && a + size[a] != b && b + size[b] != a
    }

    // The body of the inner loop of coalesce_unsorted, but for moving on.
    method TestPair(a: nat, prev: nat, b: nat, bPrev: nat, ghost i: nat, ghost j: nat) returns (merged: bool)
      requires ListOk() && i < |free| && free[i] == a && prev == At(free, i - 1)
      requires j < |free| && free[j] == b && bPrev == At(free, j - 1)
      requires a in size && Apart(a, j)
      modifies `head, `size, `next, `free
      ensures ListOk()
      ensures merged ==> MergedOnce(old(free), old(size), old(next))
      ensures !merged ==> free == old(free) && size == old(size) && next == old(next) && head == old(head)
      ensures !merged ==> a in size && j + 1 <= |free| && Apart(a, j + 1)
    {
      assert a in Elems(free) && b in Elems(free);
      if a != b {
        EndsAtExact(a, size[a], b);
        EndsAtExact(b, size[b], a);
        if EndsAt(a, size[a], b) {
          Absorb(a, b, bPrev, i, j);
          return true;
        }
        if EndsAt(b, size[b], a) {
          Absorb(b, a, prev, j, i);
          return true;
        }
      }
      assert free[..j + 1] == free[..j] + [b];
      return false;
    }

    // The inner loop of coalesce_unsorted for the block a, the i-th of the list.
    method TryMerge(a: nat, prev: nat, ghost i: nat) returns (merged: bool)
      requires ListOk() && i < |free| && free[i] == a && prev == At(free, i - 1)
      modifies `head, `size, `next, `free
      ensures ListOk()
      ensures merged ==> MergedOnce(old(free), old(size), old(next))
      ensures !merged ==> free == old(free) && size == old(size) && next == old(next) && head == old(head)
      ensures !merged ==> a in size && Apart(a, |free|)
    {
      assert a in Elems(free);
      var b, bPrev := head, 0;
      ghost var j := 0;
      merged := false;
      while b != 0
        invariant !merged && j <= |free| && b == At(free, j) && bPrev == At(free, j - 1)
        invariant free == old(free) && size == old(size) && next == old(next) && head == old(head)
        invariant ListOk() && a in size && Apart(a, j)
        decreases |free| - j
      {
        merged := TestPair(a, prev, b, bPrev, i, j);
        if merged {
          return;
        }
        bPrev := b;
        b := next[b];
        j := j + 1;
      }
      assert free[..j] == free;
    }

    // One run of the outer loop of coalesce_unsorted, from the head to the first merge.
    method MergeOnce() returns (merged: bool)
      requires ListOk()
      modifies `head, `size, `next, `free
      ensures ListOk()
      ensures merged ==> MergedOnce(old(free), old(size), old(next))
      ensures !merged ==> free == old(free) && size == old(size) && next == old(next) && head == old(head)
      ensures !merged ==> NoneAdjacent(Elems(free), size)
    {
      var a, prev := head, 0;
      ghost var i := 0;
      merged := false;
      while a != 0
        invariant !merged && i <= |free| && a == At(free, i) && prev == At(free, i - 1) && ListOk()
        invariant free == old(free) && size == old(size) && next == old(next) && head == old(head)
        invariant forall k | 0 <= k < i :: free[k] in size && Apart(free[k], |free|)
        decreases |free| - i
      {
        merged := TryMerge(a, prev, i);
        if merged {
          return;
        }
        prev := a;
        a := next[a];
        i := i + 1;
      }
      AllApart();
    }

    lemma AllApart()
      requires ListOk() && forall k | 0 <= k < |free| :: free[k] in size && Apart(free[k], |free|)
      ensures NoneAdjacent(Elems(free), size)
    {
      assert free[..|free|] == free;
      forall a, b | a in Elems(free) && b in Elems(free) && a != b ensures a + size[a] != b {
        var k :| 0 <= k < |free| && free[k] == a;
        assert Apart(free[k], |free|);
      }
    }

    // coalesce_unsorted
    method Coalesce()
      requires ListOk()
      modifies `head, `size, `next, `free
      ensures ListOk() && NoneAdjacent(Elems(free), size)
      ensures Refines(Elems(old(free)), old(size), Elems(free), size)
      ensures Total(free, size) == Total(old(free), old(size))
      ensures next.Keys == old(next).Keys && forall x | x in next && x !in old(free) :: next[x] == old(next)[x]
      ensures Disjoint(Elems(old(free)), old(size)) && Positive(Elems(old(free)), old(size)) ==>
        AreRunsOf(Elems(free), size, Cover(Elems(old(free)), old(size)))
    {
      var merged := true;
      while merged
        invariant Coalescing(old(free), old(size), old(next), merged)
        decreases |free|, merged
      {
        merged := CoalesceStep(old(free), old(size), old(next));
      }
      if Disjoint(Elems(old(free)), old(size)) && Positive(Elems(old(free)), old(size)) {
        CanonicalIsMaximal(Elems(free), size);
      }
    }

    ghost predicate Coalescing(f0: seq<nat>, s0: map<nat, nat>, n0: map<nat, nat>, merged: bool)
      reads this
    {
      && ListOk() && Elems(f0) <= s0.Keys
      && Refines(Elems(f0), s0, Elems(free), size)
      && Total(free, size) == Total(f0, s0)
      && next.Keys == n0.Keys && (forall x | x in n0 && x !in f0 :: next[x] == n0[x])
      && (!merged ==> NoneAdjacent(Elems(free), size))
    }

    method CoalesceStep(ghost f0: seq<nat>, ghost s0: map<nat, nat>, ghost n0: map<nat, nat>) returns (merged: bool)
      requires Coalescing(f0, s0, n0, true)
      modifies `head, `size, `next, `free
      ensures Coalescing(f0, s0, n0, merged)
      ensures |free| <= |old(free)| && (merged ==> |free| < |old(free)|)
    {
      hide Linked, InSpace, Refines, NoneAdjacent, Merges;
      RefinesKeys(f0, s0);
      merged := MergeOnce();
      if merged {
        ghost var a, b :| Merges(Elems(old(free)), old(size), a, b, Elems(free), size);
        RefinesMerge(Elems(f0), s0, Elems(old(free)), old(size), a, b, Elems(free), size);
      }
    }

    lemma RefinesKeys(f0: seq<nat>, s0: map<nat, nat>)
      requires Refines(Elems(f0), s0, Elems(free), size)
      ensures Elems(free) <= size.Keys && forall x | x in free :: x in f0
    {
      forall x | x in free ensures x in f0 {
        assert x in Elems(free);
      }
    }

    // find_first_fit
    method FindFirstFit(want: nat) returns (r: nat)
      requires ListOk()
      ensures IsFirstFit(free, size, want, r)
    {
      r := head;
      ghost var i := 0;
      while r != 0
        invariant i <= |free| && r == At(free, i)
        invariant forall k | 0 <= k < i :: !Fits(free, size, want, k)
        decreases |free| - i
      {
        assert r in Elems(free);
        if size[r] >= want {
          return;
        }
        r := next[r];
        i := i + 1;
      }
    }

    // find_best_fit
    method FindBestFit(want: nat) returns (best: nat)
      requires ListOk()
      ensures IsBestFit(free, size, want, |free|, best)
    {
      best := 0;
      var bestSize := TWO_TO_THE_64 - 1;
      var p := head;
      ghost var i := 0;
      while p != 0
        invariant i <= |free| && p == At(free, i)
        invariant IsBestFit(free, size, want, i, best)
        invariant bestSize == if best == 0 then TWO_TO_THE_64 - 1 else SizeOf(size, best)
        decreases |free| - i
      {
        assert p in Elems(free);
        BestStep(free, size, want, i, best);
        if size[p] >= want && size[p] < bestSize {
          bestSize := size[p];
          best := p;
        }
        p := next[p];
        i := i + 1;
      }
    }

    // find_worst_fit
    method FindWorstFit(want: nat) returns (worst: nat)
      requires ListOk()
      ensures IsWorstFit(free, size, want, |free|, worst)
    {
      worst := 0;
      var worstSize := 0;
      var p := head;
      ghost var i := 0;
      while p != 0
        invariant i <= |free| && p == At(free, i)
        invariant IsWorstFit(free, size, want, i, worst)
        invariant worstSize == if worst == 0 then 0 else SizeOf(size, worst)
        decreases |free| - i
      {
        assert p in Elems(free);
        WorstStep(free, size, want, i, worst);
        if size[p] >= want && size[p] > worstSize {
          worstSize := size[p];
          worst := p;
        }
        p := next[p];
        i := i + 1;
      }
    }

    // get_next
    method GetNext(block: nat) returns (r: nat)
      requires ListOk()
      ensures forall i | 0 <= i < |free| && free[i] == block :: r == At(free, i + 1)
      ensures block !in free ==> r == 0
    {
      var p := head;
      ghost var i := 0;
      while p != 0
        invariant i <= |free| && p == At(free, i)
        invariant block !in free[..i]
        decreases |free| - i
      {
        if p == block {
          return next[p];
        }
        p := next[p];
        i := i + 1;
      }
      return 0;
    }

    // get_last: the block before the given one, NULL if it is the first or not in the list.
    method GetLast(block: nat) returns (last: nat)
      requires ListOk()
      ensures forall i | 0 <= i < |free| && free[i] == block :: last == At(free, i - 1)
      ensures block !in free ==> last == 0
    {
      var p := head;
      last := 0;
      ghost var i := 0;
      while p != 0
        invariant i <= |free| && p == At(free, i) && last == At(free, i - 1)
        invariant block !in free[..i]
        decreases |free| - i
      {
        if p == block {
          return;
        }
        last := p;
        p := next[p];
        i := i + 1;
      }
      last := 0;
    }

    method Find(alg: Algs, want: nat) returns (t: nat)
      requires ListOk()
      ensures IsChosen(alg, free, size, want, t)
    {
      match alg
      case FIRST_FIT => t := FindFirstFit(want);
      case BEST_FIT => t := FindBestFit(want);
      case WORST_FIT => t := FindWorstFit(want);
    }

    // If some block fits, the searches find one: here every block is smaller than the address
    // space and every request larger than zero.
    lemma ChosenIndex(alg: Algs, want: nat, t: nat) returns (i: nat)
      requires ListOk() && IsChosen(alg, free, size, want, t) && want > 0
      requires forall a | a in free :: SizeOf(size, a) < TWO_TO_THE_64 - 1
      requires exists a | a in free :: SizeOf(size, a) >= want
      ensures i < |free| && free[i] == t && t in size && size[t] >= want
    {
      var a :| a in free && SizeOf(size, a) >= want;
      var k :| 0 <= k < |free| && free[k] == a;
      assert Fits(free, size, want, k) && t != 0;
      match alg
      case FIRST_FIT =>
        i :| 0 <= i < |free| && t == free[i] && Fits(free, size, want, i);
      case BEST_FIT =>
        i :| 0 <= i < |free| && t == free[i] && BestAt(free, size, want, |free|, i);
      case WORST_FIT =>
        i :| 0 <= i < |free| && t == free[i] && WorstAt(free, size, want, |free|, i);
    }

    // The relinking of alloc: p takes t's place in the list.
    method Substitute(t: nat, p: nat, after: nat, ghost i: nat)
      requires ListOk() && i < |free| && free[i] == t && p !in free && p > 0 && after == At(free, i + 1)
      modifies `head, `next, `free
      ensures Linked(next, head, free) && free == old(free)[i := p]
      ensures next.Keys == old(next).Keys + {p}
    {
      var last := GetLast(t);
      next := next[p := after];
      if t == head {
        head := p;
      } else {
        next := next[last := p];
      }
      free := free[i := p];
    }

    // alloc after the first dealloc. The bytes left over after the cut become a free block with
    // a header of its own, so the heap stays in order exactly if a header fits into them.
    method Alloc(alg: Algs, req: nat) returns (ptr: nat, ghost i: nat)
      requires Valid() && exists a | a in free :: SizeOf(size, a) >= req + HEADER
      modifies `head, `size, `next, `free, `live
      ensures i < |old(free)| && IsChosen(alg, old(free), old(size), req + HEADER, old(free)[i])
      ensures ptr == old(free)[i] + HEADER && live == old(live) + {old(free)[i]}
      ensures free == old(free)[i := ptr + req]
      ensures old(free)[i] in old(size) && old(size)[old(free)[i]] >= req + HEADER
      ensures size == Cut(old(size), old(free)[i], req + HEADER)
      ensures Valid() <==> old(LeavesRoom(alg, req))
    {
      hide Partition, NoneAdjacent, Linked, InSpace, Distinct, IsChosen, Fits, Cut;
      var t := Find(alg, req + HEADER);
      AllSmall();
      i := ChosenIndex(alg, req + HEADER, t);
      var nextBlock := GetNext(t);
      if size[t] < req + HEADER {
        assert false;
      }
      OnlyChosen(alg, req, t);
      CutBlock(t, req, nextBlock, i);
      ptr := t + HEADER;
    }

    // The rest of the block that the search takes has room for a header.
    ghost predicate LeavesRoom(alg: Algs, req: nat)
      reads this
    {
      forall a | a in free && IsChosen(alg, free, size, req + HEADER, a) :: SizeOf(size, a) >= req + 2 * HEADER
    }

    lemma OnlyChosen(alg: Algs, req: nat, t: nat)
      requires Valid() && t in free && IsChosen(alg, free, size, req + HEADER, t)
      ensures LeavesRoom(alg, req) <==> SizeOf(size, t) >= req + 2 * HEADER
    {
      hide IsChosen;
      ListedNotNull();
      forall a | a in free && IsChosen(alg, free, size, req + HEADER, a) ensures a == t {
        ChosenUnique(alg, free, size, req + HEADER, a, t);
      }
    }

    lemma ListedNotNull()
      requires Valid()
      ensures forall a | a in free :: a > 0
    {
    }

    // The else branch of alloc.
    method CutBlock(t: nat, req: nat, nextBlock: nat, ghost i: nat)
      requires Valid() && i < |free| && free[i] == t && nextBlock == At(free, i + 1)
      requires t in size && size[t] >= req + HEADER
      modifies `head, `size, `next, `free, `live
      ensures live == old(live) + {t} && free == old(free)[i := t + HEADER + req]
      ensures size == Cut(old(size), t, req + HEADER)
      ensures Valid() <==> old(size)[t] - (req + HEADER) >= HEADER
    {
      hide Linked, Partition, NoneAdjacent, InSpace, Distinct;
      var p := t + HEADER + req;
      NotListed(t, req + HEADER);
      InUse(t);
      ghost var was, f := size, free;
      Substitute(t, p, nextBlock, i);
      size := size[p := size[t] - req - HEADER];
      size := size[t := req + HEADER];
      live := live + {t};
      SubstitutedElems(f, i, p);
      CutOutcome(f, was, t, req + HEADER);
    }

    lemma InUse(t: nat)
      requires Valid() && t in free
      ensures t in Elems(free) && t !in live && live + {t} - {t} == live && t in next && Distinct(free)
    {
      assert t in Elems(free);
    }

    lemma AllSmall()
      requires Valid()
      ensures forall a | a in free :: SizeOf(size, a) < TWO_TO_THE_64 - 1
    {
      forall a | a in free ensures SizeOf(size, a) < TWO_TO_THE_64 - 1 {
        assert a in live + Elems(free);
      }
    }

    // Where the rest of t will start there is no free block.
    lemma NotListed(t: nat, n: nat)
      requires Valid() && t in free && t in size && 0 < n <= size[t]
      ensures t + n !in free
    {
      assert t in Elems(free);
      forall b | b in free ensures b != t + n {
        assert b in Elems(free) && t in live + Elems(free) && b in live + Elems(free);
        assert b != t ==> b + size[b] <= t || t + size[t] < b;
      }
    }

    lemma SubstitutedElems(f: seq<nat>, i: nat, p: nat)
      requires i < |f| && Distinct(f) && p !in f
      ensures Elems(f[i := p]) == Elems(f) - {f[i]} + {p}
    {
      forall x | x in Elems(f) - {f[i]} ensures x in f[i := p] {
        var k :| 0 <= k < |f| && f[k] == x;
        assert f[i := p][k] == x;
      }
      assert f[i := p][i] == p;
      forall x | x in f[i := p] ensures x in Elems(f) - {f[i]} + {p} {
        var k :| 0 <= k < |f| && f[i := p][k] == x;
      }
    }

    // The state after the cut is in order exactly if the rest has room for a header.
    lemma CutOutcome(f: seq<nat>, was: map<nat, nat>, t: nat, n: nat)
      requires HEADER <= lo && hi <= TWO_TO_THE_64 && HEADER <= n
      requires t in was && n <= was[t] && size == Cut(was, t, n) && t in f
      requires t in live && live <= next.Keys && Linked(next, head, free)
      requires Elems(free) == Elems(f) - {t} + {t + n}
      requires Partition(live - {t}, Elems(f), was, HEADER, lo, hi) && NoneAdjacent(Elems(f), was)
      requires InSpace(Elems(f), was)
      ensures Valid() <==> was[t] - n >= HEADER
    {
      assert t in Elems(f);
      assert t + n in Elems(free) && size[t + n] == was[t] - n;
      hide *;
      if was[t] - n >= HEADER {
        RoomyCut(f, was, t, n);
      } else {
        NoRoom(t + n);
      }
    }

    lemma RoomyCut(f: seq<nat>, was: map<nat, nat>, t: nat, n: nat)
      requires HEADER <= lo && hi <= TWO_TO_THE_64 && HEADER <= n
      requires t in was && n + HEADER <= was[t] && size == Cut(was, t, n) && t in Elems(f)
      requires t in live && live <= next.Keys && Linked(next, head, free)
      requires Elems(free) == Elems(f) - {t} + {t + n}
      requires Partition(live - {t}, Elems(f), was, HEADER, lo, hi) && NoneAdjacent(Elems(f), was)
      ensures Valid()
    {
      hide Linked, Cut;
      SplitKeepsPartition(live - {t}, Elems(f), was, HEADER, lo, hi, t, n);
      SplitKeepsApart(live - {t}, Elems(f), was, HEADER, lo, hi, t, n);
      assert live - {t} + {t} == live;
      ListedInSpace();
    }

    // A free block too small for a header is no part of a valid heap.
    lemma NoRoom(a: nat)
      requires a in free && a in size && size[a] < HEADER
      ensures !Valid()
    {
      assert a in live + Elems(free);
    }

    // The blocks of a partition lie in the address space.
    lemma ListedInSpace()
      requires HEADER <= lo && hi <= TWO_TO_THE_64 && Partition(live, Elems(free), size, HEADER, lo, hi)
      ensures InSpace(Elems(free), size)
    {
      assert forall a | a in Elems(free) :: a in live + Elems(free);
    }

    // dealloc
    method Dealloc(ptr: nat)
      requires Valid() && (ptr == 0 || (HEADER <= ptr && ptr - HEADER in live))
      modifies `head, `size, `next, `free, `live
      ensures Valid()
      ensures ptr == 0 ==> head == old(head) && size == old(size) && next == old(next)
      ensures ptr == 0 ==> free == old(free) && live == old(live)
      ensures ptr != 0 ==> live == old(live) - {ptr - HEADER} && ptr - HEADER in old(size)
      ensures forall a | a in live :: a in size && a in old(size) && size[a] == old(size)[a]
      ensures ptr != 0 ==>
        FreeBytes() == old(FreeBytes()) + Arena(ptr - HEADER, ptr - HEADER + old(size)[ptr - HEADER])
      ensures AreRunsOf(Elems(free), size, FreeBytes())
    {
      hide Partition, NoneAdjacent, Linked, InSpace, Disjoint, Positive, AreRunsOf, Total;
      ReuseIsMaximal();
      if ptr == 0 {
        return;
      }
      var block := ptr - HEADER;
      ghost var f := free;
      BlockIsListable(block);
      next := next[block := head];
      head := block;
      free := [block] + f;
      live := live - {block};
      assert live + {block} == old(live);
      Pushed(block, f);
      ghost var pushed := free;
      Coalesce();
      Recovered(pushed, old(size));
    }

    lemma BlockIsListable(block: nat)
      requires Valid() && block in live
      ensures block in size && 0 < block < TWO_TO_THE_64 && block !in free
      ensures block + size[block] <= TWO_TO_THE_64 && size[block] > 0
      ensures Linked(next[block := head], block, [block] + free)
    {
      assert block in live + Elems(free);
      assert block !in Elems(free);
    }

    // A released block at the head of the list.
    lemma Pushed(block: nat, f: seq<nat>)
      requires HEADER <= lo && hi <= TWO_TO_THE_64 && live <= next.Keys && free == [block] + f && block !in live
      requires Linked(next, head, free) && InSpace(Elems(f), size)
      requires Partition(live + {block}, Elems(f), size, HEADER, lo, hi)
      ensures ListOk() && Partition(live, Elems(free), size, HEADER, lo, hi)
      ensures Disjoint(Elems(free), size) && Positive(Elems(free), size)
      ensures FreeBytes() == Cover(Elems(f), size) + Arena(block, block + size[block])
    {
      PushedElems(block, f);
      assert live + Elems(free) == (live + {block}) + Elems(f);
      BytesOfOne(Elems(f), block, size);
      assert forall a | a in Elems(free) :: a in live + Elems(free);
    }

    lemma PushedElems(block: nat, f: seq<nat>)
      ensures Elems([block] + f) == Elems(f) + {block}
    {
    }

    lemma Recovered(f0: seq<nat>, s0: map<nat, nat>)
      requires HEADER <= lo && hi <= TWO_TO_THE_64 && ListOk() && live <= next.Keys && NoneAdjacent(Elems(free), size)
      requires Partition(live, Elems(f0), s0, HEADER, lo, hi)
      requires Refines(Elems(f0), s0, Elems(free), size)
      requires Disjoint(Elems(f0), s0) && Positive(Elems(f0), s0)
      requires AreRunsOf(Elems(free), size, Cover(Elems(f0), s0))
      ensures Valid()
      ensures FreeBytes() == Cover(Elems(f0), s0)
      ensures forall a | a in live :: a in size && a in s0 && size[a] == s0[a]
    {
      CoalescingKeepsPartition(live, Elems(f0), s0, Elems(free), size, HEADER, lo, hi);
    }

    ghost function FreeBytes(): iset<int>
      requires Elems(free) <= size.Keys
      reads this
    {
      Cover(Elems(free), size)
    }

    lemma ReuseIsMaximal()
      requires Valid()
      ensures Elems(free) <= size.Keys && Distinct(free) && forall a | a in live :: a in size
      ensures AreRunsOf(Elems(free), size, FreeBytes())
    {
      assert forall a | a in Elems(free) :: a in live + Elems(free);
      CanonicalIsMaximal(Elems(free), size);
    }

    // A dealloc right after an alloc restores the set of free ranges.
    method AllocThenDealloc(alg: Algs, req: nat)
      requires Valid() && LeavesRoom(alg, req) && exists a | a in free :: SizeOf(size, a) >= req + HEADER
      modifies `head, `size, `next, `free, `live
      ensures Valid() && live == old(live)
      ensures Elems(free) == old(Elems(free)) && forall a | a in Elems(free) :: size[a] == old(size)[a]
    {
      hide Partition, NoneAdjacent, Linked, InSpace, Disjoint, Positive, AreRunsOf, Total, IsChosen, Fits, Cut, Cover;
      ReuseIsMaximal();
      ghost var f, s, l, c := free, size, live, FreeBytes();
      ghost var i;
      var ptr;
      ptr, i := Alloc(alg, req);
      assert f[i] in f && IsChosen(alg, f, s, req + HEADER, f[i]);
      CutBytes(f, i, s, l, req + HEADER);
      Dealloc(ptr);
      ReuseIsMaximal();
      RunsUnique(Elems(f), s, Elems(free), size, c);
    }

    // The free bytes after an alloc, and the bytes allocated.
    lemma CutBytes(f: seq<nat>, i: nat, s: map<nat, nat>, l: set<nat>, n: nat)
      requires i < |f| && Distinct(f) && Partition(l, Elems(f), s, HEADER, lo, hi) && f[i] in s
      requires HEADER <= n && n + HEADER <= s[f[i]] && free == f[i := f[i] + n] && size == Cut(s, f[i], n)
      ensures Elems(free) <= size.Keys && f[i] !in l && l + {f[i]} - {f[i]} == l && size[f[i]] == n
      ensures Cover(Elems(f), s) == FreeBytes() + Arena(f[i], f[i] + n)
    {
      hide Cover, Disjoint;
      assert f[i] in Elems(f);
      SplitKeepsPartition(l, Elems(f), s, HEADER, lo, hi, f[i], n);
      SplitCover(l, Elems(f), s, HEADER, lo, hi, f[i], n);
      assert forall b | b in f :: b in l + Elems(f);
      SubstitutedElems(f, i, f[i] + n);
    }

    // Deallocating some blocks, coalescing after each. The outcome names no order.
    method FreeAll(ptrs: seq<nat>)
      requires Valid() && Releasable(ptrs)
      modifies `head, `size, `next, `free, `live
      ensures Valid() && live == old(live) - BlocksOf(ptrs) && BlocksOf(ptrs) <= old(size).Keys
      ensures AreRunsOf(Elems(free), size, old(FreeBytes()) + Cover(BlocksOf(ptrs), old(size)))
    {
      FreeStart(ptrs);
      for k := 0 to |ptrs|
        invariant Freeing(ptrs, k, old(size), old(live), old(FreeBytes()))
      {
        FreeNext(ptrs, k, old(size), old(live), old(FreeBytes()));
      }
      FreeEnd(ptrs, old(size), old(live), old(FreeBytes()));
    }

    // The first k of ptrs have been freed, starting from sizes s0, allocated blocks l0 and free bytes c0.
    ghost predicate Freeing(ptrs: seq<nat>, k: nat, s0: map<nat, nat>, l0: set<nat>, c0: iset<int>)
      reads this
    {
      && Valid() && k <= |ptrs|
      && (forall i | 0 <= i < |ptrs| :: HEADER <= ptrs[i] && ptrs[i] - HEADER in l0)
      && (forall i, j | 0 <= i < j < |ptrs| :: ptrs[i] != ptrs[j])
      && live == l0 - BlocksOf(ptrs[..k]) && BlocksOf(ptrs[..k]) <= s0.Keys
      && (forall a | a in live :: a in size && a in s0 && size[a] == s0[a])
      && FreeBytes() == c0 + Cover(BlocksOf(ptrs[..k]), s0)
    }

    lemma FreeStart(ptrs: seq<nat>)
      requires Valid() && Releasable(ptrs)
      ensures Freeing(ptrs, 0, size, live, FreeBytes())
    {
      hide Partition, NoneAdjacent, Linked, InSpace, Cover, BlocksOf;
      ReleasableKeys(ptrs);
      BytesOfNone(size);
    }

    lemma FreeEnd(ptrs: seq<nat>, s0: map<nat, nat>, l0: set<nat>, c0: iset<int>)
      requires Freeing(ptrs, |ptrs|, s0, l0, c0)
      ensures Valid() && live == l0 - BlocksOf(ptrs) && BlocksOf(ptrs) <= s0.Keys && Elems(free) <= size.Keys
      ensures AreRunsOf(Elems(free), size, c0 + Cover(BlocksOf(ptrs), s0))
    {
      hide Partition, NoneAdjacent, Linked, InSpace, Cover, AreRunsOf, BlocksOf;
      assert ptrs[..|ptrs|] == ptrs;
      ReuseIsMaximal();
    }

    method FreeNext(ptrs: seq<nat>, k: nat, ghost s0: map<nat, nat>, ghost l0: set<nat>, ghost c0: iset<int>)
      requires Freeing(ptrs, k, s0, l0, c0) && k < |ptrs|
      modifies `head, `size, `next, `free, `live
      ensures Freeing(ptrs, k + 1, s0, l0, c0)
    {
      hide Partition, NoneAdjacent, Linked, InSpace, Disjoint, Positive, AreRunsOf, Cover;
      NextBlock(ptrs, k);
      ghost var b := ptrs[k] - HEADER;
      assert b in live;
      BytesOfOne(BlocksOf(ptrs[..k]), b, s0);
      Dealloc(ptrs[k]);
    }

    ghost predicate Releasable(ptrs: seq<nat>)
      reads this
    {
      && (forall i | 0 <= i < |ptrs| :: HEADER <= ptrs[i] && ptrs[i] - HEADER in live)
      && (forall i, j | 0 <= i < j < |ptrs| :: ptrs[i] != ptrs[j])
    }

    // The pointers the client holds are those of all the allocated blocks.
    ghost predicate Holds(held: seq<nat>)
      reads this
    {
      Releasable(held) && live == BlocksOf(held)
    }

    ghost function View(held: seq<nat>): HeapState
      reads this
    {
      HeapState(free, size, live, held)
    }

    // Any run of alloc and dealloc. The client makes a request only if the block that will be
    // chosen leaves room for a header. Each operation does its step, allocated and free blocks
    // always partition the one arena, and the allocated blocks are those the client holds: at
    // first those of held0. h is the heap before, between and after the operations.
    method RunClient(ops: seq<HeapOp>, held0: seq<nat>) returns (held: seq<nat>, ghost h: seq<HeapState>)
      requires Valid() && Holds(held0)
      modifies `head, `size, `next, `free, `live
      ensures Valid() && Holds(held)
      ensures ClientTrace(ops, h) && h[0] == old(View(held0)) && h[|ops|] == View(held)
    {
      held, h := held0, [View(held0)];
      for i := 0 to |ops|
        invariant Serving(ops, i, held, h) && h[0] == old(View(held0))
      {
        held, h := ServeNext(ops, i, held, h);
      }
      assert ops[..|ops|] == ops;
    }

    // Between two operations of such a run.
    ghost predicate Serving(ops: seq<HeapOp>, i: nat, held: seq<nat>, h: seq<HeapState>)
      reads this
    {
      Valid() && Holds(held) && i <= |ops| && ClientTrace(ops[..i], h) && h[i] == View(held)
    }

    method ServeNext(ops: seq<HeapOp>, i: nat, held0: seq<nat>, ghost h0: seq<HeapState>)
      returns (held: seq<nat>, ghost h: seq<HeapState>)
      requires i < |ops| && Serving(ops, i, held0, h0)
      modifies `head, `size, `next, `free, `live
      ensures Serving(ops, i + 1, held, h) && h[0] == h0[0]
    {
      hide ClientMove, Holds, Valid;
      held := ClientStep(ops[i], held0);
      h := h0 + [View(held)];
      assert ops[..i + 1] == ops[..i] + [ops[i]];
    }

    method ClientStep(op: HeapOp, held0: seq<nat>) returns (held: seq<nat>)
      requires Valid() && Holds(held0)
      modifies `head, `size, `next, `free, `live
      ensures Valid() && Holds(held) && ClientMove(op, old(View(held0)), View(held))
    {
      hide Valid, Holds, Released, Got, Declined;
      held := held0;
      match op
      case Get(alg, req) => held := GetOne(alg, req, held0);
      case Release(k) =>
        if k < |held0| {
          held := ReleaseOne(held0, k);
        }
    }

    // alloc when the rest has room: the block was not in use.
    method TakeOne(alg: Algs, req: nat, ghost held: seq<nat>) returns (ptr: nat)
      requires Valid() && LeavesRoom(alg, req) && exists a | a in free :: SizeOf(size, a) >= req + HEADER
      modifies `head, `size, `next, `free, `live
      ensures Valid() && ptr >= HEADER && ptr - HEADER !in old(live) && live == old(live) + {ptr - HEADER}
      ensures Got(alg, req, old(View(held)), View(held + [ptr]))
    {
      hide Partition, NoneAdjacent, Linked, InSpace, IsChosen, Cut;
      ghost var f := free;
      forall k | 0 <= k < |f| ensures f[k] !in live {
        InUse(f[k]);
      }
      ghost var i;
      ptr, i := Alloc(alg, req);
      assert f[i] in f && held + [ptr] == held + [f[i] + HEADER];
      assert TookFrom(alg, req, old(View(held)), View(held + [ptr]), i);
    }

    method ReleaseOne(held0: seq<nat>, k: nat) returns (held: seq<nat>)
      requires Valid() && Holds(held0) && k < |held0|
      modifies `head, `size, `next, `free, `live
      ensures Valid() && Holds(held) && Released(old(View(held0)), k, View(held))
    {
      hide Partition, NoneAdjacent, Linked, InSpace, Disjoint, Positive, AreRunsOf, Cover, BlocksOf;
      ReuseIsMaximal();
      ReleasedBlock(held0, k);
      Dealloc(held0[k]);
      held := held0[..k] + held0[k + 1..];
      HeldApart(held);
      ReuseIsMaximal();
    }

    // The client's pointers are distinct pointers to the allocated blocks.
    lemma HeldApart(held: seq<nat>)
      requires live == BlocksOf(held) && (forall i | 0 <= i < |held| :: HEADER <= held[i])
      requires forall i, j | 0 <= i < j < |held| :: held[i] != held[j]
      ensures Holds(held)
    {
      assert forall i | 0 <= i < |held| :: held[i] in held;
    }

    method GetOne(alg: Algs, req: nat, held0: seq<nat>) returns (held: seq<nat>)
      requires Valid() && Holds(held0)
      modifies `head, `size, `next, `free, `live
      ensures Valid() && Holds(held)
      ensures Got(alg, req, old(View(held0)), View(held))
           || (Declined(alg, req, old(View(held0))) && View(held) == old(View(held0)))
    {
      hide Partition, NoneAdjacent, Linked, InSpace, IsChosen, Cut, BlocksOf;
      held := held0;
      var t := Find(alg, req + HEADER);
      if t != 0 && SizeOf(size, t) >= req + 2 * HEADER {
        ChosenFits(alg, free, size, req + HEADER, t);
        OnlyChosen(alg, req, t);
        var ptr := TakeOne(alg, req, held0);
        TakenBlock(held0, ptr);
        held := held0 + [ptr];
        HeldApart(held);
      }
    }

    lemma ReleasableKeys(ptrs: seq<nat>)
      requires Valid() && Releasable(ptrs)
      ensures forall a | a in live :: a in size
      ensures BlocksOf(ptrs) <= size.Keys && BlocksOf(ptrs[..0]) == {}
    {
      assert forall a | a in live :: a in live + Elems(free);
    }
  }

  // What a client does: ask for a block, or give back the k-th it holds.
  datatype HeapOp = Get(alg: Algs, req: nat) | Release(k: nat)

  // The heap as a value, with the pointers the client holds.
  datatype HeapState = HeapState(free: seq<nat>, size: map<nat, nat>, live: set<nat>, held: seq<nat>)

  // The request takes the front of the block the search chooses.
  ghost predicate Got(alg: Algs, req: nat, s: HeapState, t: HeapState) {
    exists i | 0 <= i < |s.free| :: TookFrom(alg, req, s, t, i)
  }

  ghost predicate TookFrom(alg: Algs, req: nat, s: HeapState, t: HeapState, i: nat)
    requires i < |s.free|
  {
    var b := s.free[i];
    && IsChosen(alg, s.free, s.size, req + HEADER, b) && b in s.size && s.size[b] >= req + 2 * HEADER
    && t.free == s.free[i := b + HEADER + req]
    && t.size == Cut(s.size, b, req + HEADER)
    && t.live == s.live + {b} && t.held == s.held + [b + HEADER]
  }

  // The search finds nothing, or a block whose rest would have no room for a header.
  ghost predicate Declined(alg: Algs, req: nat, s: HeapState) {
    exists b :: IsChosen(alg, s.free, s.size, req + HEADER, b) && (b == 0 || SizeOf(s.size, b) < req + 2 * HEADER)
  }

  // The bytes of the k-th block held become free, and the list is again that of the maximal runs.
  ghost predicate Released(s: HeapState, k: nat, t: HeapState)
    requires k < |s.held|
  {
    var b := s.held[k] - HEADER;
    && b in s.size && Elems(s.free) <= s.size.Keys && Elems(t.free) <= t.size.Keys
    && AreRunsOf(Elems(t.free), t.size, Cover(Elems(s.free), s.size) + Arena(b, b + s.size[b]))
    && t.live == s.live - {b} && t.held == s.held[..k] + s.held[k + 1..]
    && (forall a | a in t.live :: a in t.size && a in s.size && t.size[a] == s.size[a])
  }

  ghost predicate ClientMove(op: HeapOp, s: HeapState, t: HeapState) {
    match op
    case Get(alg, req) => Got(alg, req, s, t) || (Declined(alg, req, s) && t == s)
    case Release(k) => if k < |s.held| then Released(s, k, t) else t == s
  }

  ghost predicate ClientTrace(ops: seq<HeapOp>, h: seq<HeapState>) {
    && |h| == |ops| + 1
    && forall i | 0 <= i < |ops| :: ClientMove(ops[i], h[i], h[i + 1])
  }

  // A remainder too small for a header breaks the heap: 40 bytes, of which a request for 16 leaves 8.
  method ShortRemainder() returns (h: Heap, ptr: nat)
    ensures fresh(h) && !h.Valid()
  {
    h := new Heap(16, 56);
    assert 16 in h.free && SizeOf(h.size, 16) == 40;
    assert IsFirstFit(h.free, h.size, 32, 16) by {
      assert Fits(h.free, h.size, 32, 0);
    }
    ghost var i;
    ptr, i := h.Alloc(FIRST_FIT, 16);
  }

  ghost function BlocksOf(ptrs: seq<nat>): set<nat> {
    set p | p in ptrs && p >= HEADER :: p - HEADER
  }

  lemma NextBlock(ptrs: seq<nat>, k: nat)
    requires k < |ptrs| && (forall i | 0 <= i < |ptrs| :: HEADER <= ptrs[i])
    requires forall i, j | 0 <= i < j < |ptrs| :: ptrs[i] != ptrs[j]
    ensures BlocksOf(ptrs[..k + 1]) == BlocksOf(ptrs[..k]) + {ptrs[k] - HEADER}
    ensures ptrs[k] - HEADER !in BlocksOf(ptrs[..k])
  {
    var q, r := ptrs[..k], ptrs[..k + 1];
    assert r == q + [ptrs[k]];
    forall b ensures b in BlocksOf(r) <==> b in BlocksOf(q) + {ptrs[k] - HEADER} {
      assert b in BlocksOf(r) <==> b + HEADER in r;
      assert b in BlocksOf(q) <==> b + HEADER in q;
    }
  }

  lemma BytesOfNone(s: map<nat, nat>)
    ensures Cover({}, s) == iset{}
  {
    forall x: int ensures !Covers({}, s, x) {
    }
  }

  lemma BytesOfOne(blocks: set<nat>, b: nat, s: map<nat, nat>)
    requires blocks + {b} <= s.Keys
    ensures Cover(blocks + {b}, s) == Cover(blocks, s) + Arena(b, b + s[b])
  {
    CoverUnion(blocks, {b}, s);
    forall x: int ensures Covers({b}, s, x) <==> InArena(b, b + s[b], x) {
      assert b in {b};
    }
  }

  ghost predicate IsChosen(alg: Algs, l: seq<nat>, size: map<nat, nat>, want: nat, r: nat) {
    match alg
    case FIRST_FIT => IsFirstFit(l, size, want, r)
    case BEST_FIT => IsBestFit(l, size, want, |l|, r)
    case WORST_FIT => IsWorstFit(l, size, want, |l|, r)
  }

  lemma ChosenFits(alg: Algs, l: seq<nat>, size: map<nat, nat>, want: nat, r: nat)
    requires IsChosen(alg, l, size, want, r) && r != 0
    ensures r in l && SizeOf(size, r) >= want
  {
  }

  // The search has only one outcome.
  lemma ChosenUnique(alg: Algs, l: seq<nat>, size: map<nat, nat>, want: nat, r: nat, s: nat)
    requires IsChosen(alg, l, size, want, r) && IsChosen(alg, l, size, want, s) && r != 0 && s != 0
    ensures r == s
  {
    match alg
    case FIRST_FIT =>
    case BEST_FIT =>
      var i :| 0 <= i < |l| && r == l[i] && BestAt(l, size, want, |l|, i);
      var j :| 0 <= j < |l| && s == l[j] && BestAt(l, size, want, |l|, j);
      assert i == j;
    case WORST_FIT =>
      var i :| 0 <= i < |l| && r == l[i] && WorstAt(l, size, want, |l|, i);
      var j :| 0 <= j < |l| && s == l[j] && WorstAt(l, size, want, |l|, j);
      assert i == j;
  }

  lemma ReleasedBlock(held: seq<nat>, k: nat)
    requires k < |held| && (forall i | 0 <= i < |held| :: HEADER <= held[i])
    requires forall i, j | 0 <= i < j < |held| :: held[i] != held[j]
    ensures var rest := held[..k] + held[k + 1..];
      && BlocksOf(rest) == BlocksOf(held) - {held[k] - HEADER}
      && (forall i | 0 <= i < |rest| :: HEADER <= rest[i])
      && (forall i, j | 0 <= i < j < |rest| :: rest[i] != rest[j])
  {
    var rest := held[..k] + held[k + 1..];
    hide BlocksOf;
    assert forall i | 0 <= i < |rest| :: rest[i] == held[if i < k then i else i + 1];
    Others(held, k);
    forall b: nat ensures b in BlocksOf(rest) <==> b in BlocksOf(held) - {held[k] - HEADER} {
      IsBlockOf(rest, b);
      IsBlockOf(held, b);
    }
  }

  lemma IsBlockOf(ptrs: seq<nat>, b: nat)
    ensures b in BlocksOf(ptrs) <==> b + HEADER in ptrs
  {
  }

  lemma Others(s: seq<nat>, k: nat)
    requires k < |s| && forall i, j | 0 <= i < j < |s| :: s[i] != s[j]
    ensures forall x :: x in s[..k] + s[k + 1..] <==> x in s && x != s[k]
  {
    var rest := s[..k] + s[k + 1..];
    forall x | x in s && x != s[k] ensures x in rest {
      var j :| 0 <= j < |s| && s[j] == x;
      assert rest[if j < k then j else j - 1] == x;
    }
  }

  lemma TakenBlock(held: seq<nat>, ptr: nat)
    requires HEADER <= ptr
    ensures BlocksOf(held + [ptr]) == BlocksOf(held) + {ptr - HEADER}
    ensures ptr - HEADER !in BlocksOf(held) ==> ptr !in held
  {
    var more := held + [ptr];
    assert more[|held|] == ptr;
    forall b: nat ensures b in BlocksOf(more) <==> b in BlocksOf(held) + {ptr - HEADER} {
      assert b in BlocksOf(more) <==> b + HEADER in more;
      assert b in BlocksOf(held) <==> b + HEADER in held;
      assert b + HEADER in more <==> b + HEADER in held || b + HEADER == ptr;
    }
    assert ptr in held ==> ptr - HEADER in BlocksOf(held);
  }

  function SizeOf(size: map<nat, nat>, a: nat): nat {
    if a in size then size[a] else 0
  }

  ghost predicate Fits(l: seq<nat>, size: map<nat, nat>, want: nat, k: nat) {
    k < |l| && SizeOf(size, l[k]) >= want
  }

  // r is the first block of the list that fits, or NULL.
  ghost predicate IsFirstFit(l: seq<nat>, size: map<nat, nat>, want: nat, r: nat) {
    || (r == 0 && forall k | 0 <= k < |l| :: !Fits(l, size, want, k))
    || (exists i :: 0 <= i < |l| && r == l[i] && Fits(l, size, want, i)
          && forall k | 0 <= k < i :: !Fits(l, size, want, k))
  }

  // r is the first of the smallest fitting blocks among the first n, or NULL. A block of the
  // largest possible size is never chosen.
  ghost predicate IsBestFit(l: seq<nat>, size: map<nat, nat>, want: nat, n: nat, r: nat) {
    && n <= |l|
    && (r == 0 ==> forall k | 0 <= k < n && Fits(l, size, want, k) :: SizeOf(size, l[k]) >= TWO_TO_THE_64 - 1)
    && (r != 0 ==> exists i | 0 <= i < n :: r == l[i] && BestAt(l, size, want, n, i))
  }

  ghost predicate BestAt(l: seq<nat>, size: map<nat, nat>, want: nat, n: nat, i: nat)
    requires i < n <= |l|
  {
    && Fits(l, size, want, i) && SizeOf(size, l[i]) < TWO_TO_THE_64 - 1
    && (forall k | 0 <= k < n && Fits(l, size, want, k) :: SizeOf(size, l[i]) <= SizeOf(size, l[k]))
    && (forall k | 0 <= k < i && Fits(l, size, want, k) :: SizeOf(size, l[i]) < SizeOf(size, l[k]))
  }

  // r is the first of the largest fitting blocks among the first n, or NULL. An empty block is
  // never chosen.
  ghost predicate IsWorstFit(l: seq<nat>, size: map<nat, nat>, want: nat, n: nat, r: nat) {
    && n <= |l|
    && (r == 0 ==> forall k | 0 <= k < n && Fits(l, size, want, k) :: SizeOf(size, l[k]) == 0)
    && (r != 0 ==> exists i | 0 <= i < n :: r == l[i] && WorstAt(l, size, want, n, i))
  }

  ghost predicate WorstAt(l: seq<nat>, size: map<nat, nat>, want: nat, n: nat, i: nat)
    requires i < n <= |l|
  {
    && Fits(l, size, want, i) && SizeOf(size, l[i]) > 0
    && (forall k | 0 <= k < n && Fits(l, size, want, k) :: SizeOf(size, l[i]) >= SizeOf(size, l[k]))
    && (forall k | 0 <= k < i && Fits(l, size, want, k) :: SizeOf(size, l[i]) > SizeOf(size, l[k]))
  }

  // The search has seen the first n blocks and looks at one more.
  lemma BestStep(l: seq<nat>, size: map<nat, nat>, want: nat, n: nat, best: nat)
    requires n < |l| && IsBestFit(l, size, want, n, best) && l[n] > 0
    ensures var bound := if best == 0 then TWO_TO_THE_64 - 1 else SizeOf(size, best);
      IsBestFit(l, size, want, n + 1, if Fits(l, size, want, n) && SizeOf(size, l[n]) < bound then l[n] else best)
  {
    var bound := if best == 0 then TWO_TO_THE_64 - 1 else SizeOf(size, best);
    if Fits(l, size, want, n) && SizeOf(size, l[n]) < bound {
      assert BestAt(l, size, want, n + 1, n);
    } else if best != 0 {
      var i :| 0 <= i < n && best == l[i] && BestAt(l, size, want, n, i);
      assert BestAt(l, size, want, n + 1, i);
    }
  }

  lemma WorstStep(l: seq<nat>, size: map<nat, nat>, want: nat, n: nat, worst: nat)
    requires n < |l| && IsWorstFit(l, size, want, n, worst) && l[n] > 0
    ensures var bound := if worst == 0 then 0 else SizeOf(size, worst);
      IsWorstFit(l, size, want, n + 1, if Fits(l, size, want, n) && SizeOf(size, l[n]) > bound then l[n] else worst)
  {
    var bound := if worst == 0 then 0 else SizeOf(size, worst);
    if Fits(l, size, want, n) && SizeOf(size, l[n]) > bound {
      assert WorstAt(l, size, want, n + 1, n);
    } else if worst != 0 {
      var i :| 0 <= i < n && worst == l[i] && WorstAt(l, size, want, n, i);
      assert WorstAt(l, size, want, n + 1, i);
    }
  }
}
