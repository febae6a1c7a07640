// The mathematics of a stable merge sort: what a stable sorted permutation is, that there is
// only one, and that merging adjacent runs makes longer runs. The comparator enters only as
// "cmp(a, b) <= 0", which is all that HASH_SRT and the INORDER add ever ask of it.
module StableSort {
  import opened Seqs

  // le is a total preorder on the elements of s.
  ghost predicate TotalPreorder<T>(le: (T, T) -> bool, s: seq<T>) {
    && (forall a, b | a in s && b in s :: le(a, b) || le(b, a))
    && (forall a, b, c | a in s && b in s && c in s && le(a, b) && le(b, c) :: le(a, c))
  }

  // The order a C comparator stands for.
  function Le<T>(cmp: (T, T) -> int): (T, T) -> bool {
    (a, b) => cmp(a, b) <= 0
  }

  lemma LeMeans<T>(cmp: (T, T) -> int, a: T, b: T)
    ensures Le(cmp)(a, b) <==> cmp(a, b) <= 0
  {
  }

  ghost predicate Sorted<T>(le: (T, T) -> bool, s: seq<T>) {
    forall i, j | 0 <= i < j < |s| :: le(s[i], s[j])
  }

  // The elements of s that are neither below nor above x, in order.
  ghost function Peers<T>(le: (T, T) -> bool, s: seq<T>, x: T): seq<T> {
    if s == [] then [] else Peer(le, s[0], x) + Peers(le, s[1..], x)
  }

  ghost function Peer<T>(le: (T, T) -> bool, y: T, x: T): seq<T> {
    if le(x, y) && le(y, x) then [y] else []
  }

  // t holds the elements of s, sorted, and peers (with respect to any x of u) keep their order.
  ghost predicate StablySorts<T>(le: (T, T) -> bool, s: seq<T>, t: seq<T>, u: seq<T>) {
    && multiset(t) == multiset(s)
    && Sorted(le, t)
    && forall x | x in u :: Peers(le, t, x) == Peers(le, s, x)
  }

  function Merge<T(==)>(le: (T, T) -> bool, p: seq<T>, q: seq<T>): (r: seq<T>)
    ensures |r| == |p| + |q|
    decreases |p| + |q|
  {
    if p == [] then q
    else if q == [] then p
    else if le(p[0], q[0]) then [p[0]] + Merge(le, p[1..], q)
    else [q[0]] + Merge(le, p, q[1..])
  }

  // One pass of the bottom-up sort: merge each pair of adjacent runs of length n.
  function Pass<T(==)>(le: (T, T) -> bool, s: seq<T>, n: nat): (r: seq<T>)
    requires n > 0
    ensures |r| == |s|
  {
    if |s| <= n then s
    else if |s| <= 2 * n then Merge(le, s[..n], s[n..])
    else Merge(le, s[..n], s[n..2 * n]) + Pass(le, s[2 * n..], n)
  }

  // s is cut into runs of length n (the last may be shorter); each run stably sorts the
  // corresponding stretch of o.
  ghost predicate Runs<T>(le: (T, T) -> bool, o: seq<T>, s: seq<T>, n: nat, u: seq<T>)
    requires n > 0
  {
    if |s| <= n || |o| <= n then StablySorts(le, o, s, u)
    else StablySorts(le, o[..n], s[..n], u) && Runs(le, o[n..], s[n..], n, u)
  }

  lemma MultisetSplit<T>(s: seq<T>, k: nat)
    requires k <= |s|
    ensures multiset(s) == multiset(s[..k]) + multiset(s[k..])
  {
    assert s == s[..k] + s[k..];
  }

  lemma SameElements<T>(s: seq<T>, t: seq<T>)
    requires multiset(s) == multiset(t)
    ensures |s| == |t|
    ensures forall x :: x in s <==> x in t
  {
    assert |multiset(s)| == |s| && |multiset(t)| == |t|;
    forall x ensures x in s <==> x in t {
      assert x in s <==> x in multiset(s);
      assert x in t <==> x in multiset(t);
    }
  }

  lemma TailOfAppend<T>(s: seq<T>, t: seq<T>)
    requires s != []
    ensures (s + t)[0] == s[0] && (s + t)[1..] == s[1..] + t
  {
  }

  lemma {:induction false} PeersAppend<T>(le: (T, T) -> bool, s: seq<T>, t: seq<T>, x: T)
    ensures Peers(le, s + t, x) == Peers(le, s, x) + Peers(le, t, x)
  {
    if s == [] {
      assert s + t == t;
    } else {
      PeersAppend(le, s[1..], t, x);
      TailOfAppend(s, t);
      Associative(Peer(le, s[0], x), Peers(le, s[1..], x), Peers(le, t, x));
    }
  }

  lemma ConsPeers<T>(le: (T, T) -> bool, y: T, s: seq<T>, x: T)
    ensures Peers(le, [y] + s, x) == Peer(le, y, x) + Peers(le, s, x)
  {
    TailOfAppend([y], s);
    assert [y][1..] + s == s;
  }

  // y stands strictly above x nowhere in s, so s has no peer of x.
  lemma {:induction false} NoPeers<T>(le: (T, T) -> bool, s: seq<T>, x: T)
    requires forall a | a in s :: !le(a, x)
    ensures Peers(le, s, x) == []
  {
    if s != [] {
      NoPeers(le, s[1..], x);
    }
  }

  lemma {:induction false} MergeMultiset<T>(le: (T, T) -> bool, p: seq<T>, q: seq<T>)
    ensures multiset(Merge(le, p, q)) == multiset(p) + multiset(q)
    decreases |p| + |q|
  {
    if p == [] || q == [] {
    } else if le(p[0], q[0]) {
      MergeMultiset(le, p[1..], q);
      TailMultiset(p);
      assert Merge(le, p, q) == [p[0]] + Merge(le, p[1..], q);
      ConsMultiset(p[0], Merge(le, p[1..], q));
    } else {
      MergeMultiset(le, p, q[1..]);
      TailMultiset(q);
      assert Merge(le, p, q) == [q[0]] + Merge(le, p, q[1..]);
      ConsMultiset(q[0], Merge(le, p, q[1..]));
    }
  }

  lemma TailMultiset<T>(t: seq<T>)
    requires t != []
    ensures multiset(t) == multiset{t[0]} + multiset(t[1..])
  {
    assert t == [t[0]] + t[1..];
  }

  lemma ConsMultiset<T>(x: T, t: seq<T>)
    ensures multiset([x] + t) == multiset{x} + multiset(t)
  {
  }

  lemma InMerge<T>(le: (T, T) -> bool, p: seq<T>, q: seq<T>, i: nat)
    requires i < |p| + |q|
    ensures Merge(le, p, q)[i] in p || Merge(le, p, q)[i] in q
  {
    MergeMultiset(le, p, q);
    assert Merge(le, p, q)[i] in multiset(Merge(le, p, q));
  }

  // A least element in front of two sorted lists stands in front of their merge.
  lemma ConsMerge<T>(le: (T, T) -> bool, x: T, p: seq<T>, q: seq<T>)
    requires Sorted(le, Merge(le, p, q))
    requires (forall y | y in p :: le(x, y)) && (forall y | y in q :: le(x, y))
    ensures Sorted(le, [x] + Merge(le, p, q))
  {
    var m := Merge(le, p, q);
    forall j | 0 <= j < |m| ensures le(x, m[j]) {
      InMerge(le, p, q, j);
    }
  }

  lemma HeadIsLeast<T>(le: (T, T) -> bool, s: seq<T>, x: T, u: seq<T>)
    requires TotalPreorder(le, u) && x in u && forall y | y in s :: y in u
    requires Sorted(le, s) && s != [] && le(x, s[0])
    ensures forall y | y in s :: le(x, y)
  {
    forall y | y in s ensures le(x, y) {
      var i :| 0 <= i < |s| && s[i] == y;
      assert s[0] in s && le(s[0], s[0]);
      assert le(s[0], y);
    }
  }

  lemma {:induction false} MergeSorted<T>(le: (T, T) -> bool, p: seq<T>, q: seq<T>, u: seq<T>)
    requires TotalPreorder(le, u) && (forall x | x in p :: x in u) && (forall x | x in q :: x in u)
    requires Sorted(le, p) && Sorted(le, q)
    ensures Sorted(le, Merge(le, p, q))
    decreases |p| + |q|
  {
    if p == [] || q == [] {
    } else if le(p[0], q[0]) {
      MergeSorted(le, p[1..], q, u);
      HeadIsLeast(le, p, p[0], u);
      HeadIsLeast(le, q, p[0], u);
      ConsMerge(le, p[0], p[1..], q);
    } else {
      MergeSorted(le, p, q[1..], u);
      HeadIsLeast(le, q, q[0], u);
      HeadIsLeast(le, p, q[0], u);
      ConsMerge(le, q[0], p, q[1..]);
    }
  }

  // If q0 is strictly below the head of p, then so are all its peers below all of p.
  lemma AllAbove<T>(le: (T, T) -> bool, p: seq<T>, q0: T, x: T, u: seq<T>)
    requires TotalPreorder(le, u) && x in u && q0 in u && forall y | y in p :: y in u
    requires Sorted(le, p) && p != [] && !le(p[0], q0) && le(x, q0)
    ensures forall a | a in p :: !le(a, x)
  {
    assert p[0] in p && le(p[0], p[0]);
    HeadIsLeast(le, p, p[0], u);
    forall a | a in p ensures !le(a, x) {
      assert le(p[0], a);
      assert le(a, x) ==> le(a, q0);
    }
  }

  // Equal elements keep their order: those of the left run stay before those of the right.
  lemma {:induction false} MergeStable<T>(le: (T, T) -> bool, p: seq<T>, q: seq<T>, u: seq<T>, x: T)
    requires TotalPreorder(le, u) && x in u
    requires (forall y | y in p :: y in u) && (forall y | y in q :: y in u)
    requires Sorted(le, p)
    ensures Peers(le, Merge(le, p, q), x) == Peers(le, p + q, x)
    decreases |p| + |q|
  {
    if p == [] {
      assert p + q == q;
    } else if q == [] {
      assert p + q == p;
    } else if le(p[0], q[0]) {
      MergeStable(le, p[1..], q, u, x);
      ConsPeers(le, p[0], Merge(le, p[1..], q), x);
      TailOfAppend(p, q);
    } else {
      MergeStable(le, p, q[1..], u, x);
      JumpTheQueue(le, p, q, u, x);
      ConsPeers(le, q[0], Merge(le, p, q[1..]), x);
    }
  }

  // Moving q's head in front of p changes the order of no peers when p is all above it.
  lemma JumpTheQueue<T>(le: (T, T) -> bool, p: seq<T>, q: seq<T>, u: seq<T>, x: T)
    requires TotalPreorder(le, u) && x in u
    requires (forall y | y in p :: y in u) && (forall y | y in q :: y in u)
    requires Sorted(le, p) && p != [] && q != [] && !le(p[0], q[0])
    ensures Peer(le, q[0], x) + Peers(le, p + q[1..], x) == Peers(le, p + q, x)
  {
    var h, t := Peer(le, q[0], x), Peers(le, q[1..], x);
    PeersAppend(le, p, q, x);
    PeersAppend(le, p, q[1..], x);
    if h == [] {
      assert h + t == t;
      Associative(h, Peers(le, p, x), t);
      assert h + Peers(le, p, x) == Peers(le, p, x);
    } else {
      AllAbove(le, p, q[0], x, u);
      NoPeers(le, p, x);
      assert [] + t == t && [] + (h + t) == h + t;
    }
  }

  lemma MergeStablySorts<T>(le: (T, T) -> bool, o1: seq<T>, p: seq<T>, o2: seq<T>, q: seq<T>, u: seq<T>)
    requires TotalPreorder(le, u)
    requires (forall x | x in o1 :: x in u) && (forall x | x in o2 :: x in u)
    requires StablySorts(le, o1, p, u) && StablySorts(le, o2, q, u)
    ensures StablySorts(le, o1 + o2, Merge(le, p, q), u)
  {
    SameElements(p, o1);
    SameElements(q, o2);
    MergeMultiset(le, p, q);
    MergeSorted(le, p, q, u);
    forall x | x in u ensures Peers(le, Merge(le, p, q), x) == Peers(le, o1 + o2, x) {
      MergeStable(le, p, q, u, x);
      PeersAppend(le, p, q, x);
      PeersAppend(le, o1, o2, x);
    }
  }

  lemma RunsLength<T>(le: (T, T) -> bool, o: seq<T>, s: seq<T>, n: nat, u: seq<T>)
    requires n > 0 && Runs(le, o, s, n, u)
    ensures |s| == |o|
    decreases |s|
  {
    if |s| <= n || |o| <= n {
      assert |multiset(s)| == |multiset(o)|;
    } else {
      RunsLength(le, o[n..], s[n..], n, u);
    }
  }

  // A pass turns sorted runs of length n into sorted runs of length 2n.
  lemma {:induction false} PassDoublesRuns<T>(le: (T, T) -> bool, o: seq<T>, s: seq<T>, n: nat, u: seq<T>)
    requires n > 0 && TotalPreorder(le, u) && forall x | x in o :: x in u
    requires Runs(le, o, s, n, u)
    ensures Runs(le, o, Pass(le, s, n), 2 * n, u)
    decreases |s|
  {
    hide StablySorts, Merge, TotalPreorder;
    RunsLength(le, o, s, n, u);
    if |s| <= n {
    } else {
      var o2, s2 := o[n..], s[n..];
      if |s| <= 2 * n {
        MergeStablySorts(le, o[..n], s[..n], o2, s2, u);
        assert o == o[..n] + o2;
      } else {
        Slices(s, n);
        Slices(o, n);
        assert StablySorts(le, o2[..n], s2[..n], u) && Runs(le, o[2 * n..], s[2 * n..], n, u);
        MergeStablySorts(le, o[..n], s[..n], o2[..n], s2[..n], u);
        PassDoublesRuns(le, o[2 * n..], s[2 * n..], n, u);
        TakeDrop(Merge(le, s[..n], s2[..n]), Pass(le, s[2 * n..], n));
      }
    }
  }

  lemma Slices<T>(s: seq<T>, n: nat)
    requires |s| > 2 * n
    ensures s[n..][..n] == s[n..2 * n] && s[n..][n..] == s[2 * n..]
    ensures s[..2 * n] == s[..n] + s[n..][..n]
  {
  }

  lemma TakeDrop<T>(a: seq<T>, b: seq<T>)
    ensures (a + b)[..|a|] == a && (a + b)[|a|..] == b
  {
  }

  // Every list starts out as sorted runs of length one.
  lemma {:induction false} RunsOfOne<T>(le: (T, T) -> bool, s: seq<T>, u: seq<T>)
    ensures Runs(le, s, s, 1, u)
  {
    if |s| > 1 {
      RunsOfOne(le, s[1..], u);
    }
  }

  // The stable sorted permutation is unique, so StablySorts says all there is to say.
  lemma {:induction false} StablySortsUnique<T>(le: (T, T) -> bool, s: seq<T>, t1: seq<T>, t2: seq<T>)
    requires TotalPreorder(le, s)
    requires StablySorts(le, s, t1, s) && StablySorts(le, s, t2, s)
    ensures t1 == t2
  {
    SameElements(s, t1);
    SortedPeersUnique(le, t1, t2, s);
  }

  lemma {:induction false} SortedPeersUnique<T>(le: (T, T) -> bool, t1: seq<T>, t2: seq<T>, u: seq<T>)
    requires TotalPreorder(le, u) && forall x | x in t1 :: x in u
    requires multiset(t1) == multiset(t2)
    requires Sorted(le, t1) && Sorted(le, t2)
    requires forall x | x in u :: Peers(le, t1, x) == Peers(le, t2, x)
    ensures t1 == t2
    decreases |t1|
  {
    hide TotalPreorder, Peers;
    SameElements(t1, t2);
    if t1 != [] {
      SameHead(le, t1, t2, u);
      TailMultisets(t1, t2);
      TailPeers(le, t1, t2, u);
      SortedPeersUnique(le, t1[1..], t2[1..], u);
      assert t1 == [t1[0]] + t1[1..];
    }
  }

  lemma TailMultisets<T>(t1: seq<T>, t2: seq<T>)
    requires t1 != [] && t2 != [] && t1[0] == t2[0] && multiset(t1) == multiset(t2)
    ensures multiset(t1[1..]) == multiset(t2[1..])
  {
    TailMultiset(t1);
    TailMultiset(t2);
    assert multiset(t1[1..]) == multiset(t1) - multiset{t1[0]};
    assert multiset(t2[1..]) == multiset(t2) - multiset{t2[0]};
  }

  lemma TailPeers<T>(le: (T, T) -> bool, t1: seq<T>, t2: seq<T>, u: seq<T>)
    requires t1 != [] && t2 != [] && t1[0] == t2[0]
    requires forall x | x in u :: Peers(le, t1, x) == Peers(le, t2, x)
    ensures forall x | x in u :: Peers(le, t1[1..], x) == Peers(le, t2[1..], x)
  {
    forall x | x in u ensures Peers(le, t1[1..], x) == Peers(le, t2[1..], x) {
      var h := if le(x, t1[0]) && le(t1[0], x) then [t1[0]] else [];
      assert h + Peers(le, t1[1..], x) == Peers(le, t1, x) == Peers(le, t2, x) == h + Peers(le, t2[1..], x);
      assert Peers(le, t1[1..], x) == (h + Peers(le, t1[1..], x))[|h|..];
      assert Peers(le, t2[1..], x) == (h + Peers(le, t2[1..], x))[|h|..];
    }
  }

  // Both heads are least, hence peers, hence both the first peer of either.
  lemma SameHead<T>(le: (T, T) -> bool, t1: seq<T>, t2: seq<T>, u: seq<T>)
    requires TotalPreorder(le, u) && forall x | x in t1 :: x in u
    requires multiset(t1) == multiset(t2)
    requires Sorted(le, t1) && Sorted(le, t2)
    requires forall x | x in u :: Peers(le, t1, x) == Peers(le, t2, x)
    requires t1 != [] && t2 != []
    ensures t1[0] == t2[0]
  {
    SameElements(t1, t2);
    var a, b := t1[0], t2[0];
    assert a in t1 && b in t2;
    assert le(a, a) && le(b, b);
    HeadIsLeast(le, t1, a, u);
    HeadIsLeast(le, t2, b, u);
    assert le(a, b) && le(b, a);
    assert Peers(le, t1, a)[0] == a;
    assert Peers(le, t2, a)[0] == b;
  }

  lemma {:induction false} PassMultiset<T>(le: (T, T) -> bool, s: seq<T>, n: nat)
    requires n > 0
    ensures multiset(Pass(le, s, n)) == multiset(s)
    decreases |s|
  {
    if |s| <= n {
    } else {
      MultisetSplit(s, n);
      if |s| <= 2 * n {
        MergeMultiset(le, s[..n], s[n..]);
      } else {
        MergeMultiset(le, s[..n], s[n..2 * n]);
        PassMultiset(le, s[2 * n..], n);
        MultisetSplit(s[n..], n);
        assert s[n..][..n] == s[n..2 * n] && s[n..][n..] == s[2 * n..];
      }
    }
  }
}
