// The mathematics behind lecture/test2/alloc.c: a block is the byte range [addr, addr + size),
// and merging adjacent free blocks leads to the maximal runs of free bytes.
module FreeRanges {

  // The bytes of the blocks at the given addresses.
  ghost function Cover(blocks: set<nat>, size: map<nat, nat>): iset<int>
    requires blocks <= size.Keys
  {
    iset x: int | Covers(blocks, size, x)
  }

  ghost predicate Covers(blocks: set<nat>, size: map<nat, nat>, x: int)
    requires blocks <= size.Keys
  {
    exists a | a in blocks :: a <= x < a + size[a]
  }

  ghost predicate Disjoint(blocks: set<nat>, size: map<nat, nat>)
    requires blocks <= size.Keys
  {
    forall a, b | a in blocks && b in blocks && a != b :: a + size[a] <= b || b + size[b] <= a
  }

  ghost predicate Positive(blocks: set<nat>, size: map<nat, nat>)
    requires blocks <= size.Keys
  {
    forall a | a in blocks :: size[a] > 0
  }

  // No block starts where another ends.
  ghost predicate NoneAdjacent(blocks: set<nat>, size: map<nat, nat>)
    requires blocks <= size.Keys
  {
    forall a, b | a in blocks && b in blocks && a != b :: a + size[a] != b
  }

  // [a, a + n) is a stretch of c that extends in neither direction.
  ghost predicate MaximalRun(c: iset<int>, a: int, n: int) {
    n > 0 && (forall x | a <= x < a + n :: x in c) && a - 1 !in c && a + n !in c
  }

  // The blocks are exactly the maximal runs of c.
  ghost predicate AreRunsOf(blocks: set<nat>, size: map<nat, nat>, c: iset<int>)
    requires blocks <= size.Keys
  {
    forall a: nat, n: nat :: (a in blocks && size[a] == n) <==> MaximalRun(c, a, n)
  }

  // a ends where b starts; a takes b's bytes over and b goes.
  ghost predicate Merges(blocks: set<nat>, size: map<nat, nat>, a: nat, b: nat, blocks': set<nat>, size': map<nat, nat>)
    requires blocks <= size.Keys
  {
    && a in blocks && b in blocks && a != b && a + size[a] == b
    && blocks' == blocks - {b} && size' == size[a := size[a] + size[b]]
  }

  lemma MergeKeepsCover(blocks: set<nat>, size: map<nat, nat>, a: nat, b: nat, blocks': set<nat>, size': map<nat, nat>)
    requires blocks <= size.Keys && Merges(blocks, size, a, b, blocks', size')
    ensures Cover(blocks', size') == Cover(blocks, size)
  {
    forall x: int ensures Covers(blocks', size', x) <==> Covers(blocks, size, x) {
      if Covers(blocks, size, x) {
        var c :| c in blocks && c <= x < c + size[c];
        var d := if c == b then a else c;
        assert d in blocks' && d <= x < d + size'[d];
      }
      if Covers(blocks', size', x) {
        var c :| c in blocks' && c <= x < c + size'[c];
        var d := if c == a && x >= b then b else c;
        assert d in blocks && d <= x < d + size[d];
      }
    }
  }

  lemma MergeKeepsDisjoint(blocks: set<nat>, size: map<nat, nat>, a: nat, b: nat, blocks': set<nat>,
                           size': map<nat, nat>)
    requires blocks <= size.Keys && Merges(blocks, size, a, b, blocks', size')
    requires Disjoint(blocks, size) && Positive(blocks, size)
    ensures Disjoint(blocks', size') && Positive(blocks', size')
  {
  }

  // Disjoint blocks of which none are adjacent are the maximal runs of what they cover.
  lemma CanonicalIsMaximal(blocks: set<nat>, size: map<nat, nat>)
    requires blocks <= size.Keys
    requires Disjoint(blocks, size) && Positive(blocks, size) && NoneAdjacent(blocks, size)
    ensures AreRunsOf(blocks, size, Cover(blocks, size))
  {
    var c := Cover(blocks, size);
    forall a: nat, n: nat ensures (a in blocks && size[a] == n) <==> MaximalRun(c, a, n) {
      if a in blocks && size[a] == n {
        BlockIsMaximal(blocks, size, a);
      }
      if MaximalRun(c, a, n) {
        RunIsBlock(blocks, size, a, n);
      }
    }
  }

  lemma BlockIsMaximal(blocks: set<nat>, size: map<nat, nat>, a: nat)
    requires blocks <= size.Keys && a in blocks
    requires Disjoint(blocks, size) && Positive(blocks, size) && NoneAdjacent(blocks, size)
    ensures MaximalRun(Cover(blocks, size), a, size[a])
  {
    var n := size[a];
    forall d | d in blocks ensures !(d <= a - 1 < d + size[d]) && !(d <= a + n < d + size[d]) {
      assert d != a ==> d + size[d] != a && a + n != d;
    }
    forall x | a <= x < a + n ensures Covers(blocks, size, x) {
    }
  }

  lemma RunIsBlock(blocks: set<nat>, size: map<nat, nat>, a: nat, n: nat)
    requires blocks <= size.Keys && MaximalRun(Cover(blocks, size), a, n)
    requires Disjoint(blocks, size) && Positive(blocks, size) && NoneAdjacent(blocks, size)
    ensures a in blocks && size[a] == n
  {
    var c := Cover(blocks, size);
    assert a in c;
    var d :| d in blocks && d <= a < d + size[d];
    BlockIsMaximal(blocks, size, d);
    assert Covers(blocks, size, a - 1) || a <= d;
    assert Covers(blocks, size, a + n) || size[d] <= n;
    assert d + size[d] !in c;
  }

  // The maximal runs of a set of bytes are unique: how the free list was ordered or merged
  // leaves no trace in them.
  lemma RunsUnique(b1: set<nat>, s1: map<nat, nat>, b2: set<nat>, s2: map<nat, nat>, c: iset<int>)
    requires b1 <= s1.Keys && b2 <= s2.Keys
    requires AreRunsOf(b1, s1, c) && AreRunsOf(b2, s2, c)
    ensures b1 == b2 && forall a | a in b1 :: s1[a] == s2[a]
  {
    forall a: nat | a in b1 ensures a in b2 && s2[a] == s1[a] {
      assert MaximalRun(c, a, s1[a]);
    }
    forall a: nat | a in b2 ensures a in b1 {
      assert MaximalRun(c, a, s2[a]);
    }
  }

  // ---------- the arena ----------

  // Allocated and free blocks together fill the arena [lo, hi) without overlap, and each has
  // room for its header.
  ghost predicate Partition(live: set<nat>, free: set<nat>, size: map<nat, nat>, header: nat, lo: nat, hi: nat) {
    && live + free <= size.Keys && live !! free
    && (forall a | a in live + free :: lo <= a && header <= size[a] && a + size[a] <= hi)
    && Disjoint(live + free, size)
    && Cover(live + free, size) == Arena(lo, hi)
  }

  ghost function Arena(lo: nat, hi: nat): iset<int> {
    iset x: int | InArena(lo, hi, x)
  }

  ghost predicate InArena(lo: nat, hi: nat, x: int) {
    lo <= x < hi
  }

  // Replacing the free blocks by the maximal runs of what they cover keeps the partition.
  lemma CoalescingKeepsPartition(live: set<nat>, f0: set<nat>, s0: map<nat, nat>, f: set<nat>, s: map<nat, nat>,
                                 header: nat, lo: nat, hi: nat)
    requires header > 0 && Partition(live, f0, s0, header, lo, hi)
    requires f <= f0 && s.Keys == s0.Keys && (forall x | x in live :: s[x] == s0[x])
    requires AreRunsOf(f, s, Cover(f0, s0)) && Cover(f, s) == Cover(f0, s0)
    requires Disjoint(f, s) && Positive(f, s)
    ensures Partition(live, f, s, header, lo, hi)
  {
    forall b | b in f ensures lo <= b && header <= s[b] && b + s[b] <= hi {
      RunInArena(live, f0, s0, header, lo, hi, b, s[b]);
    }
    forall a, b | a in live && b in f ensures a + s[a] <= b || b + s[b] <= a {
      LiveApart(live, f0, s0, header, lo, hi, a, f, s, b);
    }
    CoverUnion(live, f0, s0);
    CoverUnion(live, f, s);
    CoverSame(live, s0, s);
  }

  lemma CoverUnion(a: set<nat>, b: set<nat>, size: map<nat, nat>)
    requires a + b <= size.Keys
    ensures Cover(a + b, size) == Cover(a, size) + Cover(b, size)
  {
    forall x: int ensures Covers(a + b, size, x) <==> Covers(a, size, x) || Covers(b, size, x) {
      if Covers(a, size, x) {
        var c :| c in a && c <= x < c + size[c];
        assert c in a + b;
      }
      if Covers(b, size, x) {
        var c :| c in b && c <= x < c + size[c];
        assert c in a + b;
      }
    }
  }

  lemma CoverSame(a: set<nat>, s: map<nat, nat>, s': map<nat, nat>)
    requires a <= s.Keys && a <= s'.Keys && forall x | x in a :: s'[x] == s[x]
    ensures Cover(a, s') == Cover(a, s)
  {
    forall x: int ensures Covers(a, s', x) <==> Covers(a, s, x) {
    }
  }

  lemma RunInArena(live: set<nat>, f0: set<nat>, s0: map<nat, nat>, header: nat, lo: nat, hi: nat, b: nat, n: nat)
    requires header > 0 && Partition(live, f0, s0, header, lo, hi) && b in f0
    requires MaximalRun(Cover(f0, s0), b, n)
    ensures lo <= b && header <= n && b + n <= hi
  {
    CoverUnion(live, f0, s0);
    assert b + n - 1 in Cover(f0, s0) && b + n - 1 in Arena(lo, hi);
    assert b + n !in Cover(f0, s0);
    assert Covers(f0, s0, b + n) || !(b <= b + n < b + s0[b]);
  }

  lemma LiveApart(live: set<nat>, f0: set<nat>, s0: map<nat, nat>, header: nat, lo: nat, hi: nat,
                  a: nat, f: set<nat>, s: map<nat, nat>, b: nat)
    requires header > 0 && Partition(live, f0, s0, header, lo, hi) && a in live
    requires f <= s.Keys && Cover(f, s) == Cover(f0, s0) && b in f && s[b] > 0
    ensures a + s0[a] <= b || b + s[b] <= a
  {
    if b <= a < b + s[b] {
      LiveByte(live, f0, s0, header, lo, hi, a, f, s, b, a);
    }
    LiveByte(live, f0, s0, header, lo, hi, a, f, s, b, b);
  }

  lemma LiveByte(live: set<nat>, f0: set<nat>, s0: map<nat, nat>, header: nat, lo: nat, hi: nat,
                 a: nat, f: set<nat>, s: map<nat, nat>, b: nat, x: int)
    requires header > 0 && Partition(live, f0, s0, header, lo, hi) && a in live
    requires f <= s.Keys && Cover(f, s) == Cover(f0, s0) && b in f && b <= x < b + s[b]
    ensures !(a <= x < a + s0[a])
  {
    assert x in Cover(f, s);
    var c :| c in f0 && c <= x < c + s0[c];
    assert a in live + f0 && c in live + f0 && a != c;
  }

  // The sizes after block t has been cut after n bytes: the new block takes over the rest.
  function Cut(size: map<nat, nat>, t: nat, n: nat): (r: map<nat, nat>)
    requires t in size && n <= size[t]
    ensures r.Keys == size.Keys + {t + n}
  {
    size[t + n := size[t] - n][t := n]
  }

  lemma CutCover(blocks: set<nat>, size: map<nat, nat>, t: nat, n: nat)
    requires blocks <= size.Keys && t in blocks && t + n !in blocks && 0 < n <= size[t]
    ensures Cover(blocks + {t + n}, Cut(size, t, n)) == Cover(blocks, size)
  {
    var p, s', b' := t + n, Cut(size, t, n), blocks + {t + n};
    forall x: int ensures Covers(b', s', x) <==> Covers(blocks, size, x) {
      if Covers(blocks, size, x) {
        var c :| c in blocks && c <= x < c + size[c];
        var d := if c == t && x >= p then p else c;
        assert d in b' && d <= x < d + s'[d];
      }
      if Covers(b', s', x) {
        var c :| c in b' && c <= x < c + s'[c];
        var d := if c == p then t else c;
        assert d in blocks && d <= x < d + size[d];
      }
    }
  }

  lemma CutDisjoint(blocks: set<nat>, size: map<nat, nat>, t: nat, n: nat)
    requires blocks <= size.Keys && t in blocks && t + n !in blocks && 0 < n <= size[t] && Disjoint(blocks, size)
    ensures Disjoint(blocks + {t + n}, Cut(size, t, n))
  {
    var b', s' := blocks + {t + n}, Cut(size, t, n);
    forall a, b | a in b' && b in b' && a != b ensures a + s'[a] <= b || b + s'[b] <= a {
      var a0, b0 := if a == t + n then t else a, if b == t + n then t else b;
      assert a0 != b0 ==> a0 + size[a0] <= b0 || b0 + size[b0] <= a0;
    }
  }

  // No block starts strictly inside another.
  lemma NotInside(blocks: set<nat>, size: map<nat, nat>, t: nat, n: nat)
    requires blocks <= size.Keys && t in blocks && 0 < n < size[t]
    requires Disjoint(blocks, size) && Positive(blocks, size)
    ensures t + n !in blocks
  {
    assert forall b | b in blocks && b != t :: t + size[t] <= b || b + size[b] <= t;
  }

  // Cutting a free block and allocating its front keeps the partition.
  lemma SplitKeepsPartition(live: set<nat>, free: set<nat>, size: map<nat, nat>, header: nat, lo: nat, hi: nat,
                            t: nat, n: nat)
    requires 0 < header <= n && Partition(live, free, size, header, lo, hi)
    requires t in free && n + header <= size[t]
    ensures t + n !in live + free
    ensures Partition(live + {t}, free - {t} + {t + n}, Cut(size, t, n), header, lo, hi)
  {
    var b := live + free;
    NotInside(b, size, t, n);
    CutCover(b, size, t, n);
    CutDisjoint(b, size, t, n);
    assert (live + {t}) + (free - {t} + {t + n}) == b + {t + n};
  }

  // ... and the free blocks stay unmergeable if they were.
  lemma SplitKeepsApart(live: set<nat>, free: set<nat>, size: map<nat, nat>, header: nat, lo: nat, hi: nat,
                        t: nat, n: nat)
    requires 0 < header <= n && Partition(live, free, size, header, lo, hi)
    requires t in free && n + header <= size[t] && NoneAdjacent(free, size)
    ensures NoneAdjacent(free - {t} + {t + n}, Cut(size, t, n))
  {
    var p, f', s' := t + n, free - {t} + {t + n}, Cut(size, t, n);
    forall a, b | a in f' && b in f' && a != b ensures a + s'[a] != b {
      if b == p {
        assert a in live + free && t in live + free && a != t;
        assert a + size[a] <= t || t + size[t] <= a;
      } else if a == p {
        assert p + s'[p] == t + size[t];
      }
    }
  }

  // The allocated bytes are what the free blocks lose.
  lemma SplitCover(live: set<nat>, free: set<nat>, size: map<nat, nat>, header: nat, lo: nat, hi: nat, t: nat, n: nat)
    requires 0 < header <= n && Partition(live, free, size, header, lo, hi)
    requires t in free && n + header <= size[t]
    ensures Cover(free, size) == Cover(free - {t} + {t + n}, Cut(size, t, n)) + Arena(t, t + n)
  {
    var f', s' := free - {t} + {t + n}, Cut(size, t, n);
    SplitKeepsPartition(live, free, size, header, lo, hi, t, n);
    CutCover(free, size, t, n);
    assert free + {t + n} == f' + {t};
    CoverUnion(f', {t}, s');
    forall x: int ensures Covers({t}, s', x) <==> InArena(t, t + n, x) {
      assert t in {t};
    }
  }
}
