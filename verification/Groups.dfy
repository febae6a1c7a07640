// Key-value pairs and their grouping by key, for lecture/test3/src/interface.c: what it means for
// a list of groups to hold a bag of pairs, and that this determines the groups.
module Groups {
  import opened Bytes
  import opened Workers

  datatype Pair = Pair(key: Str, value: Str)

  // struct mr_out_kv; its count is the number of values.
  datatype Group = Group(key: Str, values: seq<Str>)

  function PairsOf(g: Group): (r: seq<Pair>)
    ensures |r| == |g.values| && forall i | 0 <= i < |r| :: r[i] == Pair(g.key, g.values[i])
  {
    seq(|g.values|, i requires 0 <= i < |g.values| => Pair(g.key, g.values[i]))
  }

  function AllPairs(gs: seq<Group>): seq<Pair> {
    if gs == [] then [] else AllPairs(gs[..|gs| - 1]) + PairsOf(gs[|gs| - 1])
  }

  ghost predicate DistinctKeys(gs: seq<Group>) {
    forall i, j | 0 <= i < j < |gs| :: gs[i].key != gs[j].key
  }

  ghost predicate NoneEmpty(gs: seq<Group>) {
    forall i | 0 <= i < |gs| :: gs[i].values != []
  }

  // The groups hold exactly these pairs, each key having one group.
  ghost predicate IsGrouping(gs: seq<Group>, bag: multiset<Pair>) {
    DistinctKeys(gs) && NoneEmpty(gs) && multiset(AllPairs(gs)) == bag
  }

  // ---------- find_or_create_intermediate and the store, on values ----------

  function IndexOf(gs: seq<Group>, key: Str): (i: nat)
    ensures i <= |gs| && (i < |gs| ==> gs[i].key == key)
    ensures forall j | 0 <= j < i :: gs[j].key != key
  {
    if gs == [] || gs[0].key == key then 0 else 1 + IndexOf(gs[1..], key)
  }

  function FindOrAdd(gs: seq<Group>, key: Str): (r: seq<Group>)
    ensures IndexOf(gs, key) < |r| && r[IndexOf(gs, key)].key == key
    ensures gs <= r && |r| <= |gs| + 1
  {
    if IndexOf(gs, key) < |gs| then gs else gs + [Group(key, [])]
  }

  function StoreAt(gs: seq<Group>, slot: nat, value: Str): seq<Group>
    requires slot < |gs|
  {
    gs[slot := Group(gs[slot].key, gs[slot].values + [value])]
  }

  // Grouping one after the other.
  function GroupInTurn(pairs: seq<Pair>): seq<Group> {
    if pairs == [] then []
    else
      var gs, p := GroupInTurn(pairs[..|pairs| - 1]), pairs[|pairs| - 1];
      StoreAt(FindOrAdd(gs, p.key), IndexOf(gs, p.key), p.value)
  }

  lemma FindKeepsKeys(gs: seq<Group>, key: Str)
    requires DistinctKeys(gs)
    ensures DistinctKeys(FindOrAdd(gs, key))
    ensures AllPairs(FindOrAdd(gs, key)) == AllPairs(gs)
  {
    if IndexOf(gs, key) == |gs| {
      var r := gs + [Group(key, [])];
      assert r[..|gs|] == gs;
      assert PairsOf(Group(key, [])) == [];
    }
  }

  lemma LastGroup(gs: seq<Group>)
    requires gs != []
    ensures multiset(AllPairs(gs)) == multiset(AllPairs(gs[..|gs| - 1])) + multiset(PairsOf(gs[|gs| - 1]))
  {
  }

  lemma OneMoreValue(g: Group, value: Str)
    ensures multiset(PairsOf(Group(g.key, g.values + [value]))) == multiset(PairsOf(g)) + multiset{Pair(g.key, value)}
  {
    assert PairsOf(Group(g.key, g.values + [value])) == PairsOf(g) + [Pair(g.key, value)];
  }

  lemma {:induction false} StoreAddsPair(gs: seq<Group>, slot: nat, value: Str)
    requires slot < |gs|
    ensures multiset(AllPairs(StoreAt(gs, slot, value))) == multiset(AllPairs(gs)) + multiset{Pair(gs[slot].key, value)}
  {
    hide AllPairs, PairsOf;
    var n := |gs| - 1;
    var r := StoreAt(gs, slot, value);
    LastGroup(gs);
    LastGroup(r);
    if slot < n {
      StoreAddsPair(gs[..n], slot, value);
      assert r[..n] == StoreAt(gs[..n], slot, value);
    } else {
      assert r[..n] == gs[..n];
      OneMoreValue(gs[n], value);
    }
  }

  // One pair grouped: find or create, then store.
  lemma GroupOne(gs: seq<Group>, bag: multiset<Pair>, p: Pair)
    requires IsGrouping(gs, bag)
    ensures IsGrouping(StoreAt(FindOrAdd(gs, p.key), IndexOf(gs, p.key), p.value), bag + multiset{p})
  {
    hide AllPairs, PairsOf, IndexOf;
    FindKeepsKeys(gs, p.key);
    StoreAddsPair(FindOrAdd(gs, p.key), IndexOf(gs, p.key), p.value);
  }

  lemma {:induction false} GroupInTurnGroups(pairs: seq<Pair>)
    ensures IsGrouping(GroupInTurn(pairs), multiset(pairs))
  {
    hide AllPairs, IndexOf, FindOrAdd, StoreAt;
    if pairs != [] {
      var front, p := pairs[..|pairs| - 1], pairs[|pairs| - 1];
      GroupInTurnGroups(front);
      GroupOne(GroupInTurn(front), multiset(front), p);
      assert pairs == front + [p];
    } else {
      NoGroups();
    }
  }

  lemma NoGroups()
    ensures IsGrouping([], multiset([]))
  {
  }

  // ---------- a grouping is determined by its pairs ----------

  lemma PairsOfBag(g: Group, x: Pair)
    ensures multiset(PairsOf(g))[x] == if x.key == g.key then multiset(g.values)[x.value] else 0
    decreases |g.values|
  {
    if g.values != [] {
      var n := |g.values| - 1;
      var front := Group(g.key, g.values[..n]);
      PairsOfBag(front, x);
      assert PairsOf(g) == PairsOf(front) + [Pair(g.key, g.values[n])];
      assert g.values == g.values[..n] + [g.values[n]];
    }
  }

  // How often a pair occurs is settled by the group of its key.
  lemma {:induction false} GroupBag(gs: seq<Group>, x: Pair)
    requires DistinctKeys(gs)
    ensures var i := IndexOf(gs, x.key);
      multiset(AllPairs(gs))[x] == ValueCount(gs, i, x.value)
  {
    if gs != [] {
      var n := |gs| - 1;
      GroupBag(gs[..n], x);
      LastGroup(gs);
      PairsOfBag(gs[n], x);
      IndexInFront(gs, x.key);
    }
    hide AllPairs, PairsOf;
  }

  lemma IndexInFront(gs: seq<Group>, key: Str)
    requires gs != [] && DistinctKeys(gs)
    ensures var n := |gs| - 1; var i := IndexOf(gs[..n], key);
      IndexOf(gs, key) == if i < n then i else if gs[n].key == key then n else n + 1
  {
    hide IndexOf;
    var n := |gs| - 1;
    var i := IndexOf(gs[..n], key);
    assert forall j | 0 <= j < n :: gs[..n][j] == gs[j];
    IndexIs(gs, key, if i < n then i else if gs[n].key == key then n else n + 1);
  }

  lemma IndexIs(gs: seq<Group>, key: Str, i: nat)
    requires i <= |gs| && (i < |gs| ==> gs[i].key == key) && forall j | 0 <= j < i :: gs[j].key != key
    ensures IndexOf(gs, key) == i
  {
    hide IndexOf;
  }

  // Two groupings of the same pairs: a group of the one is, but for the order of its values, a
  // group of the other.
  lemma SameGroup(a: seq<Group>, b: seq<Group>, i: nat)
    requires DistinctKeys(a) && NoneEmpty(a) && DistinctKeys(b) && i < |a|
    requires multiset(AllPairs(a)) == multiset(AllPairs(b))
    ensures var j := IndexOf(b, a[i].key);
      j < |b| && b[j].key == a[i].key && multiset(b[j].values) == multiset(a[i].values)
  {
    hide AllPairs, IndexOf;
    var key := a[i].key;
    var j := IndexOf(b, key);
    IndexIs(a, key, i);
    forall v ensures ValueCount(b, j, v) == ValueCount(a, i, v) {
      GroupBag(a, Pair(key, v));
      GroupBag(b, Pair(key, v));
    }
    var v := a[i].values[0];
    assert ValueCount(a, i, v) > 0;
    assert ValueCount(b, j, v) > 0;
    forall u ensures multiset(b[j].values)[u] == multiset(a[i].values)[u] {
      assert ValueCount(b, j, u) == ValueCount(a, i, u);
    }
  }

  ghost function ValueCount(gs: seq<Group>, i: nat, v: Str): nat {
    if i < |gs| then multiset(gs[i].values)[v] else 0
  }

  // ---------- strictly ascending keys ----------

  ghost predicate Ascending(gs: seq<Group>) {
    forall i, j | 0 <= i < j < |gs| :: StrCmp(gs[i].key, gs[j].key) < 0
  }

  lemma AscendingDistinct(gs: seq<Group>)
    requires Ascending(gs)
    ensures DistinctKeys(gs)
  {
    forall i, j | 0 <= i < j < |gs| ensures gs[i].key != gs[j].key {
      StrCmpIsEquality(gs[i].key, gs[j].key);
    }
  }

  function Keys(gs: seq<Group>): (ks: seq<Str>)
    ensures |ks| == |gs| && forall i | 0 <= i < |gs| :: ks[i] == gs[i].key
  {
    seq(|gs|, i requires 0 <= i < |gs| => gs[i].key)
  }

  ghost predicate AscendingKeys(ks: seq<Str>) {
    forall i, j | 0 <= i < j < |ks| :: StrCmp(ks[i], ks[j]) < 0
  }

  // There is only one ascending list of given keys.
  lemma {:induction false} AscendingUnique(a: seq<Str>, b: seq<Str>)
    requires AscendingKeys(a) && AscendingKeys(b)
    requires (forall x | x in a :: x in b) && (forall x | x in b :: x in a)
    ensures a == b
  {
    if a == [] {
      NoMembers(b);
    } else if b == [] {
      NoMembers(a);
    } else {
      SameLeast(a, b);
      OthersLater(a, b);
      OthersLater(b, a);
      AscendingUnique(a[1..], b[1..]);
    }
  }

  lemma NoMembers<T>(s: seq<T>)
    requires forall x :: x !in s
    ensures s == []
  {
    forall x ensures multiset(s)[x] == 0 {
      assert x in multiset(s) <==> x in s;
    }
    assert multiset(s) == multiset{};
    assert |multiset(s)| == |s|;
  }

  lemma SameLeast(a: seq<Str>, b: seq<Str>)
    requires AscendingKeys(a) && AscendingKeys(b) && a != [] && b != []
    requires a[0] in b && b[0] in a
    ensures a[0] == b[0]
  {
    StrCmpFlips(a[0], b[0]);
    StrCmpIsEquality(a[0], b[0]);
    var j: nat :| j < |b| && b[j] == a[0];
    var i: nat :| i < |a| && a[i] == b[0];
  }

  lemma OthersLater(a: seq<Str>, b: seq<Str>)
    requires AscendingKeys(a) && a != [] && b != [] && a[0] == b[0] && forall x | x in a :: x in b
    ensures AscendingKeys(a[1..]) && forall x | x in a[1..] :: x in b[1..]
  {
    forall i | 0 <= i < |a| - 1 ensures a[1..][i] in b[1..] {
      var x := a[i + 1];
      StrCmpIsEquality(a[0], x);
      assert x in b;
    }
  }

  // Two outputs with the same pairs are the same but for the order of the values under a key.
  lemma OutputsAgree(a: seq<Group>, b: seq<Group>)
    requires Ascending(a) && NoneEmpty(a) && Ascending(b) && NoneEmpty(b)
    requires multiset(AllPairs(a)) == multiset(AllPairs(b))
    ensures |a| == |b|
    ensures forall i | 0 <= i < |a| :: a[i].key == b[i].key && multiset(a[i].values) == multiset(b[i].values)
  {
    hide AllPairs;
    AscendingDistinct(a);
    AscendingDistinct(b);
    KeysAgree(a, b);
    KeysAgree(b, a);
    AscendingUnique(Keys(a), Keys(b));
    forall i | 0 <= i < |a| ensures a[i].key == b[i].key && multiset(a[i].values) == multiset(b[i].values) {
      assert Keys(a)[i] == Keys(b)[i];
      SameGroup(a, b, i);
      IndexIs(b, a[i].key, i);
    }
  }

  lemma KeysAgree(a: seq<Group>, b: seq<Group>)
    requires DistinctKeys(a) && NoneEmpty(a) && DistinctKeys(b)
    requires multiset(AllPairs(a)) == multiset(AllPairs(b))
    ensures forall x | x in Keys(a) :: x in Keys(b)
  {
    forall i | 0 <= i < |a| ensures Keys(a)[i] in Keys(b) {
      SameGroup(a, b, i);
      assert Keys(b)[IndexOf(b, a[i].key)] == a[i].key;
    }
  }

  // ---------- reducing ----------

  // The pairs emitted for each item: by a reducer for the groups, or by a mapper for the inputs.
  function EmitAll<In>(emit: In -> seq<Pair>, items: seq<In>): (jobs: seq<seq<Pair>>)
    ensures |jobs| == |items| && forall i | 0 <= i < |items| :: jobs[i] == emit(items[i])
  {
    seq(|items|, i requires 0 <= i < |items| => emit(items[i]))
  }

  // What the reducer emits does not depend on the order of the values.
  ghost predicate OrderInsensitive(reduce: Group -> seq<Pair>) {
    forall g: Group, h: Group | g.key == h.key && multiset(g.values) == multiset(h.values) ::
      multiset(reduce(g)) == multiset(reduce(h))
  }

  lemma {:induction false} ConcatWithout<T>(jobs: seq<seq<T>>, j: nat)
    requires j < |jobs|
    ensures multiset(Concat(jobs)) == multiset(Concat(jobs[..j] + jobs[j + 1..])) + multiset(jobs[j])
  {
    hide Concat;
    ConcatLast(jobs);
    Removed(jobs, j);
    if j < |jobs| - 1 {
      ConcatWithout(jobs[..|jobs| - 1], j);
      ConcatLast(jobs[..j] + jobs[j + 1..]);
    }
  }

  // What is left of a list without its item j, seen from the end.
  lemma Removed<T>(s: seq<T>, j: nat)
    requires j < |s|
    ensures var n := |s| - 1; var r := s[..j] + s[j + 1..];
      if j == n then r == s[..n]
      else r != [] && r[..|r| - 1] == s[..n][..j] + s[..n][j + 1..] && r[|r| - 1] == s[n] && s[..n][j] == s[j]
  {
  }

  lemma ConcatLast<T>(jobs: seq<seq<T>>)
    requires jobs != []
    ensures multiset(Concat(jobs)) == multiset(Concat(jobs[..|jobs| - 1])) + multiset(jobs[|jobs| - 1])
  {
  }

  lemma SwapLast<T>(a: multiset<T>, b: multiset<T>, c: multiset<T>)
    ensures a + b + c == a + c + b
  {
  }

  lemma {:induction false} PairsWithout(gs: seq<Group>, j: nat)
    requires j < |gs|
    ensures multiset(AllPairs(gs)) == multiset(AllPairs(gs[..j] + gs[j + 1..])) + multiset(PairsOf(gs[j]))
    decreases |gs|
  {
    hide AllPairs, PairsOf;
    LastGroup(gs);
    Removed(gs, j);
    if j < |gs| - 1 {
      var front, rest := gs[..|gs| - 1], gs[..j] + gs[j + 1..];
      PairsWithout(front, j);
      LastGroup(rest);
      SwapLast(multiset(AllPairs(rest[..|rest| - 1])), multiset(PairsOf(gs[j])), multiset(PairsOf(gs[|gs| - 1])));
    }
  }

  // Reducing two groupings of the same pairs emits the same pairs.
  lemma {:induction false} ReduceAgrees(reduce: Group -> seq<Pair>, a: seq<Group>, b: seq<Group>)
    requires OrderInsensitive(reduce)
    requires DistinctKeys(a) && NoneEmpty(a) && DistinctKeys(b) && NoneEmpty(b)
    requires multiset(AllPairs(a)) == multiset(AllPairs(b))
    ensures multiset(Concat(EmitAll(reduce, a))) == multiset(Concat(EmitAll(reduce, b)))
    decreases |a|
  {
    hide AllPairs, PairsOf, Concat, OrderInsensitive, IndexOf;
    if a == [] {
      NothingLeft(b);
    } else {
      var n := |a| - 1;
      SameGroup(a, b, n);
      var j := IndexOf(b, a[n].key);
      var rest := b[..j] + b[j + 1..];
      LastGroup(a);
      PairsWithout(b, j);
      SamePairs(a[n], b[j]);
      Cancel(multiset(AllPairs(a[..n])), multiset(AllPairs(rest)), multiset(PairsOf(a[n])));
      ReduceAgrees(reduce, a[..n], rest);
      ConcatLast(EmitAll(reduce, a));
      ConcatWithout(EmitAll(reduce, b), j);
      assert EmitAll(reduce, a)[..n] == EmitAll(reduce, a[..n]);
      assert EmitAll(reduce, b)[..j] + EmitAll(reduce, b)[j + 1..] == EmitAll(reduce, rest);
      SameReduction(reduce, a[n], b[j]);
    }
  }

  lemma SameReduction(reduce: Group -> seq<Pair>, g: Group, h: Group)
    requires OrderInsensitive(reduce) && g.key == h.key && multiset(g.values) == multiset(h.values)
    ensures multiset(reduce(g)) == multiset(reduce(h))
  {
  }

  lemma SamePairs(g: Group, h: Group)
    requires g.key == h.key && multiset(g.values) == multiset(h.values)
    ensures multiset(PairsOf(g)) == multiset(PairsOf(h))
  {
    forall x ensures multiset(PairsOf(g))[x] == multiset(PairsOf(h))[x] {
      PairsOfBag(g, x);
      PairsOfBag(h, x);
    }
  }

  lemma NothingLeft(b: seq<Group>)
    requires NoneEmpty(b) && multiset(AllPairs(b)) == multiset(AllPairs([]))
    ensures b == []
  {
    PairsOutnumberGroups(b);
    assert |multiset(AllPairs(b))| == |AllPairs(b)|;
  }

  lemma PairsOutnumberGroups(gs: seq<Group>)
    requires NoneEmpty(gs)
    ensures |AllPairs(gs)| >= |gs|
  {
  }
}
