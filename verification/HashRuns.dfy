// Whole runs of a table: what any sequence of operations does to the application order, and
// what that means for the finite map the table stands for. Also the two clients that walk the
// table, HASH_FSCK and the delete-all loop.
module HashRuns {
  import opened Bits
  import opened Seqs
  import opened StableSort
  import opened UtHash
  import opened HashTables

  // ---------- HASH_FSCK ----------

  ghost function Total<V>(ch: seq<seq<Item<V>>>, n: nat): nat
    requires n <= |ch|
  {
    if n == 0 then 0 else Total(ch, n - 1) + |ch[n - 1]|
  }

  lemma {:induction false} ElemsCount<T>(s: seq<T>)
    requires Distinct(s)
    ensures |Elems(s)| == |s|
  {
    if s != [] {
      var t := s[..|s| - 1];
      ElemsCount(t);
      assert s == t + [s[|s| - 1]];
      assert Elems(s) == Elems(t) + {s[|s| - 1]};
    }
  }

  // The bucket counts add up to the number of elements.
  lemma {:induction false} ChainsCount<V>(hash: Key -> nat, bkts: seq<Bucket<V>>, ch: seq<seq<Item<V>>>,
                                          members: set<Item<V>>, n: nat)
    requires ChainsOk(hash, bkts, ch, members) && 0 < |ch| && n <= |ch|
    ensures Total(ch, n) == |Below(hash, members, |ch|, n)|
    ensures n == |ch| ==> Total(ch, n) == |members|
  {
    hide ChainsOk, And;
    if n == 0 {
      NoneBelow(hash, members, |ch|);
    } else {
      ChainsCount(hash, bkts, ch, members, n - 1);
      CountStep(hash, bkts, ch, members, n - 1);
    }
    if n == |ch| {
      AllBelow(hash, members, n);
    }
  }

  lemma NoneBelow<V>(hash: Key -> nat, members: set<Item<V>>, b: nat)
    requires b > 0
    ensures Below(hash, members, b, 0) == {}
  {
  }

  lemma CountStep<V>(hash: Key -> nat, bkts: seq<Bucket<V>>, ch: seq<seq<Item<V>>>, members: set<Item<V>>, i: nat)
    requires ChainsOk(hash, bkts, ch, members) && i < |ch|
    ensures |Below(hash, members, |ch|, i + 1)| == |Below(hash, members, |ch|, i)| + |ch[i]|
  {
    hide And;
    BelowStep(hash, ch, members, i);
    assert BucketOk(bkts[i], ch[i]);
    ElemsCount(ch[i]);
    DisjointCount(Below(hash, members, |ch|, i), Elems(ch[i]));
  }

  lemma DisjointCount<T>(a: set<T>, b: set<T>)
    requires forall x | x in b :: x !in a
    ensures |a + b| == |a| + |b|
  {
    assert a !! b;
  }

  // The inner loop of HASH_FSCK: -1 for a broken hh_prev link, else the chain's length.
  method CheckChain<V>(first: Item?<V>, ghost c: seq<Item<V>>) returns (n: int)
    requires ChainLinked(c) && first == At(c, 0)
    ensures n == |c|
  {
    var thh, prev: Item?<V> := first, null;
    n := 0;
    while thh != null
      invariant 0 <= n <= |c| && thh == At(c, n) && prev == At(c, n - 1)
      decreases |c| - n
    {
      if prev != thh.hhPrev {
        return -1;
      }
      n := n + 1;
      prev := thh;
      thh := thh.hhNext;
    }
  }

  method CheckOrder<V>(first: Item?<V>, ghost o: seq<Item<V>>) returns (n: int)
    requires AppLinked(o) && first == At(o, 0)
    ensures n == |o|
  {
    var thh, prev: Item?<V> := first, null;
    n := 0;
    while thh != null
      invariant 0 <= n <= |o| && thh == At(o, n) && prev == At(o, n - 1)
      decreases |o| - n
    {
      n := n + 1;
      if prev != thh.prev {
        return -1;
      }
      prev := thh;
      thh := thh.next;
    }
  }

  // HASH_FSCK finds nothing to complain of in a valid table.
  method Fsck<V>(t: HashTable<V>) returns (ok: bool)
    requires t.Valid()
    ensures ok
  {
    if t.head != null {
      var count := CheckBuckets(t);
      ElemsCount(t.order);
      ChainsCount(t.hash, t.buckets, t.chains, Elems(t.order), |t.chains|);
      if count != t.numItems {
        return false;
      }
      count := CheckOrder(t.head, t.order);
      if count != t.numItems {
        return false;
      }
    }
    return true;
  }

  method CheckBuckets<V>(t: HashTable<V>) returns (count: int)
    requires t.Valid() && t.order != []
    ensures count == Total(t.chains, |t.chains|)
  {
    count := 0;
    var b: nat := 0;
    BucketsCounted(t);
    while b < t.numBuckets
      invariant Counted(t, b, count)
      decreases t.numBuckets - b
    {
      var ok;
      count, b, ok := AddBucket(t, b, count);
      if !ok {
        return -1;
      }
    }
  }

  // The counts of the first b buckets add up to count.
  ghost predicate Counted<V>(t: HashTable<V>, b: nat, count: int)
    reads t
  {
    b <= t.numBuckets == |t.chains| && count == Total(t.chains, b)
  }

  lemma BucketsCounted<V>(t: HashTable<V>)
    requires t.Valid() && t.order != []
    ensures Counted(t, 0, 0)
  {
  }

  method AddBucket<V>(t: HashTable<V>, b: nat, before: int) returns (count: int, next: nat, ok: bool)
    requires t.Valid() && t.order != [] && b < t.numBuckets && Counted(t, b, before)
    ensures ok && next == b + 1 && Counted(t, next, count)
  {
    hide And;
    var n := CheckBucket(t, b);
    count := before + n;
    ok := t.buckets[b].count == n;
    next := b + 1;
  }

  method CheckBucket<V>(t: HashTable<V>, b: nat) returns (n: int)
    requires t.Valid() && t.order != [] && b < |t.buckets|
    ensures b < |t.chains| && n == |t.chains[b]| == t.buckets[b].count
  {
    assert BucketOk(t.buckets[b], t.chains[b]);
    n := CheckChain(t.buckets[b].hhHead, t.chains[b]);
  }

  // delete_table of lab/lab8.c: HASH_ITER fetches the successor before the element goes.
  method DeleteAll<V>(t: HashTable<V>)
    requires t.Valid()
    modifies t, t.order`next, t.order`prev, t.order`hhNext, t.order`hhPrev
    ensures t.Valid() && t.order == [] && t.head == null
  {
    ghost var o := t.order;
    ghost var i := 0;
    var current: Item?<V> := t.head;
    var tmp: Item?<V> := if t.head != null then t.head.next else null;
    assert o[0..] == o;
    while current != null
      invariant Deleting(t, o, i, current, tmp)
      decreases |o| - i
    {
      current, tmp := DeleteNext(t, current, tmp, o, i);
      i := i + 1;
    }
  }

  // The loop of DeleteAll with the first i elements of o gone.
  ghost predicate Deleting<V>(t: HashTable<V>, o: seq<Item<V>>, i: nat, current: Item?<V>, tmp: Item?<V>)
    reads t, t.order`next, t.order`prev, t.order`hhNext, t.order`hhPrev, t.order`hashv
  {
    && t.Valid() && Distinct(o) && i <= |o| && t.order == o[i..]
    && current == At(o, i) && tmp == At(o, i + 1)
  }

  method DeleteNext<V>(t: HashTable<V>, current0: Item<V>, tmp0: Item?<V>, ghost o: seq<Item<V>>, ghost i: nat)
    returns (current: Item?<V>, tmp: Item?<V>)
    requires Deleting(t, o, i, current0, tmp0)
    modifies t, Elems(o)`next, Elems(o)`prev, Elems(o)`hhNext, Elems(o)`hhPrev
    ensures Deleting(t, o, i + 1, current, tmp)
  {
    hide *;
    OpenDeleting(t, o, i, current0, tmp0);
    ghost var k := t.Delete(current0);
    RestOf(o, i, k);
    current := tmp0;
    tmp := null;
    HeadNext(t);
    AtRest(o, i);
    if tmp0 != null {
      tmp := tmp0.next;
    }
    CloseDeleting(t, o, i + 1, current, tmp);
  }

  lemma OpenDeleting<V>(t: HashTable<V>, o: seq<Item<V>>, i: nat, current: Item<V>, tmp: Item?<V>)
    requires Deleting(t, o, i, current, tmp)
    ensures t.Valid() && Distinct(o) && i < |o| && t.order == o[i..] && current in t.order && current == o[i]
    ensures tmp == At(o, i + 1)
    ensures forall x | x in t.order :: x in Elems(o)
  {
    assert t.order[0] == current;
  }

  lemma CloseDeleting<V>(t: HashTable<V>, o: seq<Item<V>>, i: nat, current: Item?<V>, tmp: Item?<V>)
    requires t.Valid() && Distinct(o) && i <= |o| && t.order == o[i..]
    requires current == At(o, i) && tmp == At(o, i + 1)
    ensures Deleting(t, o, i, current, tmp)
  {
  }

  lemma HeadNext<V>(t: HashTable<V>)
    requires t.Valid()
    ensures t.head == At(t.order, 0) && (t.order != [] ==> t.order[0].next == At(t.order, 1))
  {
  }

  // Removing o[i] from o[i..] can only mean removing its first element.
  lemma RestOf<V>(o: seq<Item<V>>, i: nat, k: nat)
    requires Distinct(o) && i < |o| && k < |o[i..]| && o[i..][k] == o[i]
    ensures Without(o[i..], k) == o[i + 1..]
  {
    assert k == 0;
  }

  lemma AtRest<V>(o: seq<Item<V>>, i: nat)
    requires i < |o|
    ensures At(o[i + 1..], 0) == At(o, i + 1) && At(o[i + 1..], 1) == At(o, i + 2)
    ensures i + 1 == |o| ==> o[i + 1..] == [] && At(o, i + 1) == null && At(o, i + 2) == null
    ensures i + 1 < |o| ==> o[i + 1..] != [] && o[i + 1..][0] == o[i + 1] && At(o, i + 1) == o[i + 1]
  {
  }

  // ---------- any run of operations ----------

  // The table's operations as its clients use them: an add comes after a find that found nothing.
  datatype Op<V> =
    | Insert(item: Item<V>)
    | InsertInOrder(item: Item<V>)
    | Remove(key: Key)
    | Exchange(item: Item<V>)
    | Resort

  ghost predicate HasKey<V>(o: seq<Item<V>>, key: Key) {
    exists x :: x in o && x.key == key
  }

  // o without its elements of the given key.
  ghost function DropKey<V>(o: seq<Item<V>>, key: Key): seq<Item<V>> {
    if o == [] then [] else (if o[0].key == key then [] else [o[0]]) + DropKey(o[1..], key)
  }

  lemma {:induction false} DropAbsent<V>(o: seq<Item<V>>, key: Key)
    requires forall x | x in o :: x.key != key
    ensures DropKey(o, key) == o
  {
    if o != [] {
      DropAbsent(o[1..], key);
    }
  }

  lemma {:induction false} DropPresent<V>(o: seq<Item<V>>, k: nat)
    requires UniqueKeys(o) && k < |o|
    ensures DropKey(o, o[k].key) == Without(o, k)
  {
    if k == 0 {
      DropAbsent(o[1..], o[0].key);
    } else {
      DropPresent(o[1..], k - 1);
      assert Without(o, k) == [o[0]] + Without(o[1..], k - 1);
    }
  }

  // What an operation does to the application order; ok is false when an add ran out of memory.
  ghost predicate Step<V>(cmp: (Item<V>, Item<V>) -> int, o: seq<Item<V>>, op: Op<V>, ok: bool, o': seq<Item<V>>) {
    match op
    case Insert(e) =>
      o' == if HasKey(o, e.key) || !ok then o else o + [e]
    case InsertInOrder(e) =>
      if HasKey(o, e.key) || !ok then o' == o
      else exists k | 0 <= k <= |o| :: IsPlace(cmp, o, e, k) && o' == Inserted(o, k, e)
    case Remove(key) => o' == DropKey(o, key)
    case Exchange(e) => o' == DropKey(o, e.key) + if ok then [e] else []
    case Resort =>
      && multiset(o') == multiset(o)
      && (TotalPreorder(Le(cmp), o) ==> StablySorts(Le(cmp), o, o', o))
  }

  ghost function ItemOf<V>(op: Op<V>): set<Item<V>> {
    match op
    case Insert(e) => {e}
    case InsertInOrder(e) => {e}
    case Remove(_) => {}
    case Exchange(e) => {e}
    case Resort => {}
  }

  method Perform<V>(t: HashTable<V>, cmp: (Item<V>, Item<V>) -> int, op: Op<V>, granted: bool) returns (ok: bool)
    requires t.Valid() && |t.order| + 1 < TWO_TO_THE_32
    modifies t, Elems(t.order), ItemOf(op)
    ensures t.Valid() && Step(cmp, old(t.order), op, ok, t.order)
  {
    hide ChainsOk, And, AppLinked, Distinct, SplitUpTo, Accounted, IsPlace, StablySorts, TotalPreorder, UniqueKeys;
    ok := true;
    match op
    case Insert(e) =>
      var found := t.Find(e.key);
      if found == null {
        ok := t.Add(e, granted, granted);
      }
    case InsertInOrder(e) =>
      var found := t.Find(e.key);
      if found == null {
        ghost var k;
        ok, k := t.AddInOrder(cmp, e, granted, granted);
      }
    case Remove(key) => RemoveKey(t, key);
    case Exchange(e) => ok := ExchangeItem(t, e, granted);
    case Resort => t.Sort(cmp);
  }

  // HASH_FIND, then HASH_DEL of what it found.
  method RemoveKey<V>(t: HashTable<V>, key: Key)
    requires t.Valid()
    modifies t, t.order`next, t.order`prev, t.order`hhNext, t.order`hhPrev
    ensures t.Valid() && t.order == DropKey(old(t.order), key)
  {
    hide ChainsOk, And, AppLinked;
    var found := t.Find(key);
    if found != null {
      ghost var k := t.Delete(found);
      DropPresent(old(t.order), k);
    } else {
      DropAbsent(t.order, key);
    }
  }

  // HASH_REPLACE
  method ExchangeItem<V>(t: HashTable<V>, e: Item<V>, granted: bool) returns (ok: bool)
    requires t.Valid() && |t.order| + 1 < TWO_TO_THE_32
    modifies t, e`next, e`prev, e`hhNext, e`hhPrev, e`hashv
    modifies t.order`next, t.order`prev, t.order`hhNext, t.order`hhPrev
    ensures t.Valid() && t.order == DropKey(old(t.order), e.key) + if ok then [e] else []
  {
    hide ChainsOk, And, AppLinked;
    var replaced;
    ghost var k;
    replaced, ok, k := t.Replace(e, granted, granted);
    if replaced == null {
      DropAbsent(old(t.order), e.key);
    } else {
      DropPresent(old(t.order), k);
    }
  }

  // h is the application order before, between and after the operations.
  ghost predicate Trace<V>(cmp: (Item<V>, Item<V>) -> int, h: seq<seq<Item<V>>>, ops: seq<Op<V>>, oks: seq<bool>) {
    && |h| == |ops| + 1 && |oks| == |ops|
    && forall i | 0 <= i < |ops| :: Step(cmp, h[i], ops[i], oks[i], h[i + 1])
  }

  // A step brings in at most the element it was given, and at most one.
  lemma StepElems<V>(cmp: (Item<V>, Item<V>) -> int, o: seq<Item<V>>, op: Op<V>, ok: bool, o': seq<Item<V>>)
    requires Step(cmp, o, op, ok, o')
    ensures Elems(o') <= Elems(o) + ItemOf(op) && |o'| <= |o| + 1
  {
    hide IsPlace, StablySorts, TotalPreorder;
    match op
    case Insert(_) =>
    case InsertInOrder(_) =>
    case Remove(key) => DropElems(o, key);
    case Exchange(e) => DropElems(o, e.key);
    case Resort => SameElements(o', o);
  }

  lemma {:induction false} DropElems<V>(o: seq<Item<V>>, key: Key)
    ensures |DropKey(o, key)| <= |o|
    ensures forall x | x in DropKey(o, key) :: x in o && x.key != key
    ensures forall x | x in o && x.key != key :: x in DropKey(o, key)
    ensures UniqueKeys(o) ==> UniqueKeys(DropKey(o, key))
  {
    if o != [] {
      DropElems(o[1..], key);
    }
  }

  // The elements the operations bring.
  ghost function Supplied<V>(ops: seq<Op<V>>): set<Item<V>> {
    set i, e | 0 <= i < |ops| && e in ItemOf(ops[i]) :: e
  }

  // Any run of operations, on elements that may come and go and come again, as long as there are
  // not more of them than num_items can count.
  method Run<V>(t: HashTable<V>, cmp: (Item<V>, Item<V>) -> int, ops: seq<Op<V>>, grants: seq<bool>)
    returns (oks: seq<bool>, ghost h: seq<seq<Item<V>>>)
    requires t.Valid() && |grants| == |ops|
    requires |Elems(t.order) + Supplied(ops)| + 1 < TWO_TO_THE_32
    modifies t, Elems(t.order), Supplied(ops)
    ensures t.Valid() && Trace(cmp, h, ops, oks)
    ensures h[0] == old(t.order) && h[|ops|] == t.order
  {
    oks, h := [], [t.order];
    ghost var pool := Elems(t.order) + Supplied(ops);
    FewEnough(t, pool);
    for i := 0 to |ops|
      invariant Running(t, cmp, ops, i, oks, h, pool) && h[0] == old(t.order)
    {
      var ok := RunOne(t, cmp, ops, i, grants[i], oks, h, pool);
      oks, h := oks + [ok], h + [t.order];
    }
    assert ops[..|ops|] == ops;
  }

  // A table has no more elements than the pool they come from.
  lemma FewEnough<V>(t: HashTable<V>, pool: set<Item<V>>)
    requires t.Valid() && Elems(t.order) <= pool
    ensures |t.order| <= |pool|
  {
    ElemsCount(t.order);
    assert pool == Elems(t.order) + (pool - Elems(t.order));
  }

  ghost predicate Running<V>(t: HashTable<V>, cmp: (Item<V>, Item<V>) -> int, ops: seq<Op<V>>, i: nat,
                             oks: seq<bool>, h: seq<seq<Item<V>>>, pool: set<Item<V>>)
    reads t, t.order`next, t.order`prev, t.order`hhNext, t.order`hhPrev, t.order`hashv
  {
    && i <= |ops| && t.Valid() && Trace(cmp, h, ops[..i], oks) && h[i] == t.order
    && |t.order| <= |pool| && |pool| + 1 < TWO_TO_THE_32
    && Elems(t.order) <= pool && (forall j | 0 <= j < |ops| :: ItemOf(ops[j]) <= pool)
  }

  method RunOne<V>(t: HashTable<V>, cmp: (Item<V>, Item<V>) -> int, ops: seq<Op<V>>, i: nat, granted: bool,
                   ghost oks: seq<bool>, ghost h: seq<seq<Item<V>>>, ghost pool: set<Item<V>>) returns (ok: bool)
    requires i < |ops| && Running(t, cmp, ops, i, oks, h, pool)
    modifies t, pool
    ensures Running(t, cmp, ops, i + 1, oks + [ok], h + [t.order], pool)
  {
    hide ChainsOk, And, AppLinked, Distinct, IsPlace, StablySorts, TotalPreorder, UniqueKeys, Step;
    ghost var o := t.order;
    ok := Perform(t, cmp, ops[i], granted);
    StepElems(cmp, o, ops[i], ok, t.order);
    FewEnough(t, pool);
    TraceGrows(cmp, h, ops, i, oks, ok, t.order);
  }

  lemma TraceGrows<V>(cmp: (Item<V>, Item<V>) -> int, h: seq<seq<Item<V>>>, ops: seq<Op<V>>, i: nat,
                      oks: seq<bool>, ok: bool, o': seq<Item<V>>)
    requires i < |ops| && Trace(cmp, h, ops[..i], oks) && Step(cmp, h[i], ops[i], ok, o')
    ensures Trace(cmp, h + [o'], ops[..i + 1], oks + [ok])
  {
    hide Step;
    var h', oks' := h + [o'], oks + [ok];
    forall j | 0 <= j < i + 1 ensures Step(cmp, h'[j], ops[..i + 1][j], oks'[j], h'[j + 1]) {
      if j < i {
        assert Step(cmp, h[j], ops[..i][j], oks[j], h[j + 1]);
      }
    }
  }

  // ---------- the finite map the table stands for ----------

  ghost function Index<V>(o: seq<Item<V>>): (m: map<Key, Item<V>>)
    requires UniqueKeys(o)
    ensures forall key :: key in m <==> HasKey(o, key)
    ensures forall x | x in o :: x.key in m && m[x.key] == x
  {
    var m := map i | 0 <= i < |o| :: o[i].key := o[i];
    assert forall x | x in o :: x.key in m;
    m
  }

  lemma IndexUnique<V>(o: seq<Item<V>>, m: map<Key, Item<V>>)
    requires UniqueKeys(o)
    requires forall key | key in m :: m[key] in o && m[key].key == key
    requires forall x | x in o :: x.key in m
    ensures m == Index(o)
  {
    forall key ensures key in m <==> key in Index(o) {
      if key in m {
        assert m[key] in o;
      }
    }
  }

  // The same operations on the map: adds and replaces are updates, deletes are removals, and
  // sorting is invisible.
  ghost function OnMap<V>(m: map<Key, Item<V>>, op: Op<V>, ok: bool): map<Key, Item<V>> {
    match op
    case Insert(e) => if e.key in m || !ok then m else m[e.key := e]
    case InsertInOrder(e) => if e.key in m || !ok then m else m[e.key := e]
    case Remove(key) => m - {key}
    case Exchange(e) => if ok then m[e.key := e] else m - {e.key}
    case Resort => m
  }

  lemma StepOnMap<V>(cmp: (Item<V>, Item<V>) -> int, o: seq<Item<V>>, op: Op<V>, ok: bool, o': seq<Item<V>>)
    requires UniqueKeys(o) && Step(cmp, o, op, ok, o')
    ensures UniqueKeys(o') && Index(o') == OnMap(Index(o), op, ok)
  {
    hide IsPlace, StablySorts, TotalPreorder, UniqueKeys, Index;
    match op
    case Insert(e) =>
      if !HasKey(o, e.key) && ok {
        AddedLast(o, e);
      }
    case InsertInOrder(e) =>
      if !HasKey(o, e.key) && ok {
        var k :| 0 <= k <= |o| && IsPlace(cmp, o, e, k) && o' == Inserted(o, k, e);
        AddedAt(o, k, e);
      }
    case Remove(key) =>
      Dropped(o, key);
    case Exchange(e) =>
      Exchanged(o, e, ok);
    case Resort =>
      Reordered(o, o');
  }

  lemma Exchanged<V>(o: seq<Item<V>>, e: Item<V>, ok: bool)
    requires UniqueKeys(o)
    ensures var o' := DropKey(o, e.key) + if ok then [e] else [];
      UniqueKeys(o') && Index(o') == if ok then Index(o)[e.key := e] else Index(o) - {e.key}
  {
    hide UniqueKeys, Index;
    Dropped(o, e.key);
    if ok {
      AddedLast(DropKey(o, e.key), e);
      assert Index(o)[e.key := e] == (Index(o) - {e.key})[e.key := e];
    } else {
      assert DropKey(o, e.key) + [] == DropKey(o, e.key);
    }
  }

  lemma AddedAt<V>(o: seq<Item<V>>, k: nat, e: Item<V>)
    requires k <= |o| && UniqueKeys(o) && forall x | x in o :: x.key != e.key
    ensures UniqueKeys(Inserted(o, k, e))
    ensures Index(Inserted(o, k, e)) == Index(o)[e.key := e]
  {
    var t := Inserted(o, k, e);
    UniqueInserted(o, k, e);
    forall x | x in t ensures x in o || x == e {
    }
    IndexUnique(t, Index(o)[e.key := e]);
  }

  lemma AddedLast<V>(o: seq<Item<V>>, e: Item<V>)
    requires UniqueKeys(o) && forall x | x in o :: x.key != e.key
    ensures UniqueKeys(o + [e])
    ensures Index(o + [e]) == Index(o)[e.key := e]
  {
    assert Inserted(o, |o|, e) == o + [e];
    AddedAt(o, |o|, e);
  }

  lemma Dropped<V>(o: seq<Item<V>>, key: Key)
    requires UniqueKeys(o)
    ensures UniqueKeys(DropKey(o, key))
    ensures Index(DropKey(o, key)) == Index(o) - {key}
    ensures forall x | x in DropKey(o, key) :: x.key != key
  {
    DropElems(o, key);
    IndexUnique(DropKey(o, key), Index(o) - {key});
  }

  lemma Reordered<V>(o: seq<Item<V>>, o': seq<Item<V>>)
    requires UniqueKeys(o) && multiset(o') == multiset(o)
    ensures UniqueKeys(o') && Index(o') == Index(o)
  {
    SameElements(o', o);
    forall i, j | 0 <= i < j < |o'| ensures o'[i].key != o'[j].key {
      if o'[i] == o'[j] {
        CountTwice(o', i, j);
        CountOnce(o, o'[i]);
      } else {
        assert o'[i] in o && o'[j] in o;
      }
    }
    IndexUnique(o', Index(o));
  }

  lemma {:induction false} CountOnce<T>(s: seq<T>, x: T)
    requires Distinct(s)
    ensures multiset(s)[x] <= 1
  {
    if s != [] {
      CountOnce(s[1..], x);
      assert s == [s[0]] + s[1..];
      assert x == s[0] ==> x !in s[1..];
    }
  }

  lemma CountTwice<T>(s: seq<T>, i: nat, j: nat)
    requires i < j < |s| && s[i] == s[j]
    ensures multiset(s)[s[i]] >= 2
  {
    assert s == s[..j] + s[j..];
    assert s[..j][i] == s[i] && s[j..][0] == s[i];
    assert s[i] in multiset(s[..j]) && s[i] in multiset(s[j..]);
  }

  ghost function OnMapAll<V>(m: map<Key, Item<V>>, ops: seq<Op<V>>, oks: seq<bool>, n: nat): map<Key, Item<V>>
    requires n <= |ops| == |oks|
  {
    if n == 0 then m else OnMap(OnMapAll(m, ops, oks, n - 1), ops[n - 1], oks[n - 1])
  }

  // A whole run of the table is the same run of the map.
  lemma {:induction false} RunOnMap<V>(cmp: (Item<V>, Item<V>) -> int, h: seq<seq<Item<V>>>, ops: seq<Op<V>>,
                                       oks: seq<bool>, n: nat)
    requires Trace(cmp, h, ops, oks) && n <= |ops| && UniqueKeys(h[0])
    ensures UniqueKeys(h[n]) && Index(h[n]) == OnMapAll(Index(h[0]), ops, oks, n)
  {
    hide Step, UniqueKeys, OnMap, Index;
    if n > 0 {
      RunOnMap(cmp, h, ops, oks, n - 1);
      assert Step(cmp, h[n - 1], ops[n - 1], oks[n - 1], h[n - 1 + 1]);
      StepOnMap(cmp, h[n - 1], ops[n - 1], oks[n - 1], h[n]);
    }
  }

  // Adding in order to a sorted list gives the stable sort of the list with e appended.
  lemma InOrderIsStable<V>(cmp: (Item<V>, Item<V>) -> int, o: seq<Item<V>>, e: Item<V>, k: nat)
    requires TotalPreorder(Le(cmp), o + [e]) && Sorted(Le(cmp), o) && IsPlace(cmp, o, e, k)
    ensures StablySorts(Le(cmp), o + [e], Inserted(o, k, e), o + [e])
  {
    var le, u, t := Le(cmp), o + [e], Inserted(o, k, e);
    assert o == o[..k] + o[k..];
    assert multiset(t) == multiset(o) + multiset{e} == multiset(u);
    InOrderSorted(cmp, o, e, k);
    forall x | x in u ensures Peers(le, t, x) == Peers(le, u, x) {
      AboveLast(cmp, o, e, k, x);
      PeersAppend(le, o[..k], o[k..], x);
      PeersAppend(le, o, [e], x);
      PeersAppend(le, o[..k] + [e], o[k..], x);
      PeersAppend(le, o[..k], [e], x);
    }
  }

  lemma InOrderSorted<V>(cmp: (Item<V>, Item<V>) -> int, o: seq<Item<V>>, e: Item<V>, k: nat)
    requires TotalPreorder(Le(cmp), o + [e]) && Sorted(Le(cmp), o) && IsPlace(cmp, o, e, k)
    ensures Sorted(Le(cmp), Inserted(o, k, e))
  {
    var le, t := Le(cmp), Inserted(o, k, e);
    if k < |o| {
      PlaceIsAbove(cmp, o, e, k);
    }
    forall i, j | 0 <= i < j < |t| ensures le(t[i], t[j]) {
      if i == k {
        assert t[j] == o[j - 1];
      } else if j == k {
        assert t[i] == o[i];
      } else {
        assert t[i] == o[if i < k then i else i - 1] && t[j] == o[if j < k then j else j - 1];
      }
    }
  }

  lemma PlaceIsAbove<V>(cmp: (Item<V>, Item<V>) -> int, o: seq<Item<V>>, e: Item<V>, k: nat)
    requires TotalPreorder(Le(cmp), o + [e]) && Sorted(Le(cmp), o) && IsPlace(cmp, o, e, k)
    ensures forall j | k <= j < |o| :: Le(cmp)(e, o[j]) && !Le(cmp)(o[j], e)
  {
    var le := Le(cmp);
    forall j | k <= j < |o| ensures le(e, o[j]) && !le(o[j], e) {
      assert e in o + [e] && o[j] in o + [e] && o[k] in o + [e];
      assert le(o[k], o[k]) && le(o[k], o[j]);
    }
  }

  // From e's place on, everything is strictly above e and so above its peers.
  lemma AboveLast<V>(cmp: (Item<V>, Item<V>) -> int, o: seq<Item<V>>, e: Item<V>, k: nat, x: Item<V>)
    requires TotalPreorder(Le(cmp), o + [e]) && Sorted(Le(cmp), o) && IsPlace(cmp, o, e, k) && x in o + [e]
    ensures var le, p, q, r := Le(cmp), Peers(Le(cmp), o[..k], x), Peers(Le(cmp), o[k..], x), Peers(Le(cmp), [e], x);
      (p + q) + r == (p + r) + q
  {
    var le := Le(cmp);
    var p, q, r := Peers(le, o[..k], x), Peers(le, o[k..], x), Peers(le, [e], x);
    if r == [] {
      assert (p + q) + [] == p + q == (p + []) + q;
    } else {
      assert le(x, e) by { assert Peers(le, [e][1..], x) == []; }
      NoneLevel(cmp, o, e, k, x);
      NoPeers(le, o[k..], x);
      assert (p + []) + r == (p + r) + [];
    }
  }

  lemma NoneLevel<V>(cmp: (Item<V>, Item<V>) -> int, o: seq<Item<V>>, e: Item<V>, k: nat, x: Item<V>)
    requires TotalPreorder(Le(cmp), o + [e]) && Sorted(Le(cmp), o) && IsPlace(cmp, o, e, k) && x in o + [e]
    requires Le(cmp)(x, e)
    ensures forall a | a in o[k..] :: !Le(cmp)(a, x)
  {
    var le := Le(cmp);
    PlaceIsAbove(cmp, o, e, k);
    forall a | a in o[k..] ensures !le(a, x) {
      var j :| k <= j < |o| && o[j] == a;
      assert a in o + [e] && e in o + [e];
      assert le(a, x) ==> le(a, e);
    }
  }
}
