// The table itself: the macros of lecture/test3/src/uthash.h as methods on a class holding the
// application's head pointer and the fields of UT_hash_table. The two ghost sequences are the
// application order and the bucket chains.
module HashTables {
  import opened Bits
  import opened Seqs
  import opened StableSort
  import opened UtHash

  // A request for 2^32 buckets or more is never granted.
  predicate Granted(granted: bool, n: nat) {
    granted && n < TWO_TO_THE_32
  }

  // The count at which a bucket makes the table expand, in unsigned arithmetic.
  function ExpandThreshold<V>(b: Bucket<V>): nat {
    (b.expandMult + 1) * HASH_BKT_CAPACITY_THRESH % TWO_TO_THE_32
  }

  // One more element in bucket b makes the table expand: its count reaches ten times one more
  // than its multiplier.
  predicate Fills<V>(b: Bucket<V>, noexpand: bool) {
    !noexpand && b.count + 1 >= 10 * (b.expandMult + 1) % 0x1_0000_0000
  }

  // The next bucket array would have 2^32 buckets or more: an expansion is refused.
  ghost predicate OutOfBuckets<V>(table: HashTable<V>)
    reads table
  {
    2 * table.numBuckets >= TWO_TO_THE_32
  }

  class HashTable<V> {
    const hash: Key -> nat
    var head: Item?<V>
    var tail: Item?<V>
    var buckets: seq<Bucket<V>>
    var numBuckets: nat
    var log2NumBuckets: nat
    var numItems: nat
    var idealChainMaxlen: nat
    var nonidealItems: nat
    var ineffExpands: nat
    var noexpand: bool
    ghost var order: seq<Item<V>>
    ghost var chains: seq<seq<Item<V>>>

    ghost predicate AppOk()
      reads `head, `tail, `order, order`next, order`prev
    {
      && head == At(order, 0) && (order != [] ==> tail == order[|order| - 1])
      && AppLinked(order) && Distinct(order)
    }

    ghost predicate BktsOk(members: set<Item<V>>)
      reads `buckets, `numBuckets, `log2NumBuckets, `chains
      reads members`hhNext, members`hhPrev, members`hashv
    {
      && numBuckets == Pow2(log2NumBuckets) == |buckets| == |chains|
      && ChainsOk(hash, buckets, chains, members)
      && (forall e | e in members :: e.hashv == hash(e.key))
    }

    ghost predicate Valid()
      reads this, order`next, order`prev, order`hhNext, order`hhPrev, order`hashv
    {
      && AppOk() && |order| < TWO_TO_THE_32 && UniqueKeys(order)
      && (order != [] ==> numItems == |order| && BktsOk(Elems(order)))
    }

    constructor (hash: Key -> nat)
      ensures Valid() && order == [] && this.hash == hash
    {
      this.hash := hash;
      head, tail, buckets, order, chains := null, null, [], [], [];
      numBuckets, log2NumBuckets, numItems := 0, 0, 0;
      idealChainMaxlen, nonidealItems, ineffExpands, noexpand := 0, 0, 0, false;
    }

    // Would adding e to its bucket trigger an expansion?
    predicate WantsExpand(hashv: nat)
      requires numBuckets == |buckets| > 0
      reads `buckets, `numBuckets, `noexpand
    {
      var b := buckets[BktOf(hashv, numBuckets)];
      b.count + 1 >= ExpandThreshold(b) && !noexpand
    }

    // What a successful expansion makes of the old chains.
    ghost predicate Expanded(old_: seq<seq<Item<V>>>, oldIneff: nat, oldNoexpand: bool)
      requires numBuckets > 0
      reads this
    {
      && numBuckets == 2 * |old_|
      && SplitUpTo(hash, old_, |old_|, chains)
      && idealChainMaxlen == CeilDiv(numItems, numBuckets) > 0
      && Accounted(buckets, chains, nonidealItems, idealChainMaxlen)
      && ineffExpands == (if nonidealItems > numItems / 2 then oldIneff + 1 else 0)
      && noexpand == (oldNoexpand || ineffExpands > 1)
    }

    // HASH_EXPAND_BUCKETS; granted is the outcome of its malloc.
    method ExpandBuckets(granted: bool, ghost members: set<Item<V>>) returns (oomed: bool)
      requires BktsOk(members) && numItems > 0
      modifies `buckets, `numBuckets, `log2NumBuckets, `chains
      modifies `idealChainMaxlen, `nonidealItems, `ineffExpands, `noexpand
      modifies members`hhNext, members`hhPrev
      ensures BktsOk(members)
      ensures oomed <==> !Granted(granted, 2 * old(numBuckets))
      ensures oomed ==> buckets == old(buckets) && numBuckets == old(numBuckets)
      ensures oomed ==> log2NumBuckets == old(log2NumBuckets) && chains == old(chains)
      ensures oomed ==> idealChainMaxlen == old(idealChainMaxlen) && nonidealItems == old(nonidealItems)
      ensures oomed ==> ineffExpands == old(ineffExpands) && noexpand == old(noexpand)
      ensures oomed ==> forall x | x in members :: x.hhNext == old(x.hhNext) && x.hhPrev == old(x.hhPrev)
      ensures !oomed ==> Expanded(old(chains), old(ineffExpands), old(noexpand))
      ensures AtRemainders(hash, chains, members)
    {
      hide ChainsOk, SplitUpTo, Accounted, AtRemainders;
      oomed := !Granted(granted, 2 * numBuckets);
      if !oomed {
        Rehash(members);
      }
      PlacedAtRemainders(hash, buckets, chains, members, log2NumBuckets);
    }

    // The bucket that decides is numbered by the hash value modulo the number of buckets.
    lemma WantsExpandAt(hashv: nat)
      requires numBuckets == Pow2(log2NumBuckets) == |buckets|
      ensures var b := buckets[hashv % numBuckets];
        WantsExpand(hashv) <==> Fills(b, noexpand)
    {
      BktOfIsRemainder(hashv, log2NumBuckets);
    }

    // HASH_EXPAND_BUCKETS once the new bucket array has been granted.
    method Rehash(ghost members: set<Item<V>>)
      requires BktsOk(members) && numItems > 0
      modifies `buckets, `numBuckets, `log2NumBuckets, `chains
      modifies `idealChainMaxlen, `nonidealItems, `ineffExpands, `noexpand
      modifies members`hhNext, members`hhPrev
      ensures BktsOk(members)
      ensures Expanded(old(chains), old(ineffExpands), old(noexpand))
    {
      hide And, ChainsOk, SplitUpTo, Accounted, AtRemainders, CeilDiv;
      var ideal := Shr(numItems, log2NumBuckets + 1)
        + if And(numItems, numBuckets * 2 - 1) != 0 then 1 else 0;
      IdealIsCeil(numItems, log2NumBuckets);
      var r, nonideal;
      ghost var nch;
      r, nonideal, nch := Redistribute(hash, buckets, ideal, log2NumBuckets, chains, members);
      Install(r, ideal, nonideal, chains, nch, members);
    }

    // The bookkeeping at the end of HASH_EXPAND_BUCKETS.
    method Install(r: seq<Bucket<V>>, ideal: nat, nonideal: nat,
                   ghost ch: seq<seq<Item<V>>>, ghost nch: seq<seq<Item<V>>>, ghost members: set<Item<V>>)
      requires 0 < numBuckets == Pow2(log2NumBuckets) == |ch|
      requires SplitUpTo(hash, ch, |ch|, nch) && ChainsOk(hash, r, nch, members) && |r| == |nch| == 2 * numBuckets
      requires forall e | e in members :: e.hashv == hash(e.key)
      requires 0 < ideal == CeilDiv(numItems, 2 * numBuckets) && Accounted(r, nch, nonideal, ideal)
      modifies `buckets, `numBuckets, `log2NumBuckets, `chains
      modifies `idealChainMaxlen, `nonidealItems, `ineffExpands, `noexpand
      ensures BktsOk(members)
      ensures Expanded(ch, old(ineffExpands), old(noexpand))
    {
      hide And, ChainsOk, SplitUpTo, Accounted, CeilDiv, Shr;
      var ineff := if nonideal > Shr(numItems, 1) then ineffExpands + 1 else 0;
      ShrByOne(numItems);
      idealChainMaxlen, nonidealItems, buckets, chains := ideal, nonideal, r, nch;
      numBuckets, log2NumBuckets := numBuckets * 2, log2NumBuckets + 1;
      ineffExpands := ineff;
      if ineff > 1 {
        noexpand := true;
      }
    }

    // HASH_ADD_TO_BKT, with the expansion it may trigger.
    method AddToBkt(j: nat, e: Item<V>, granted: bool, ghost members: set<Item<V>>) returns (oomed: bool)
      requires BktsOk(members) && numItems > 0 && e !in members
      requires e.hashv == hash(e.key) && j == BktOf(e.hashv, numBuckets)
      modifies `buckets, `numBuckets, `log2NumBuckets, `chains
      modifies `idealChainMaxlen, `nonidealItems, `ineffExpands, `noexpand
      modifies e`hhNext, e`hhPrev, members`hhNext, members`hhPrev
      ensures numBuckets == if Fills(old(buckets)[j], old(noexpand)) && !oomed then 2 * old(numBuckets)
                            else old(numBuckets)
      ensures oomed <==> old(WantsExpand(e.hashv)) && !Granted(granted, 2 * old(numBuckets))
      ensures !oomed ==> BktsOk(members + {e})
      ensures !oomed ==> Pushed(e, old(buckets), old(chains), old(WantsExpand(e.hashv)), old(log2NumBuckets),
                            old(idealChainMaxlen), old(nonidealItems), old(ineffExpands), old(noexpand))
      ensures oomed ==> BktsOk(members) && buckets == old(buckets) && chains == old(chains)
      ensures oomed ==> SameTable(old(numBuckets), old(log2NumBuckets), old(idealChainMaxlen), old(nonidealItems),
                                  old(ineffExpands), old(noexpand))
    {
      hide ChainsOk, SplitUpTo, Accounted, And;
      ghost var ch := chains;
      WantsExpandAt(e.hashv);
      BktOfIsRemainder(e.hashv, log2NumBuckets);
      FirstOfChain(hash, buckets, chains, members, j);
      buckets := PushFront(hash, buckets, j, e, chains, members);
      chains := ch[j := [e] + ch[j]];
      oomed := false;
      if buckets[j].count >= ExpandThreshold(buckets[j]) && !noexpand {
        oomed := ExpandOrUndo(j, e, granted, ch, members);
      }
    }

    // The expansion inside HASH_ADD_TO_BKT, and the removal of e again if it fails.
    method ExpandOrUndo(j: nat, e: Item<V>, granted: bool, ghost ch: seq<seq<Item<V>>>, ghost members: set<Item<V>>)
      returns (oomed: bool)
      requires BktsOk(members + {e}) && numItems > 0 && e !in members && |ch| == numBuckets
      requires j < |ch| && chains == ch[j := [e] + ch[j]] && buckets[j].count > 0
      requires e.hhPrev == null && e.hhNext == At(ch[j], 0) && Opt(At(ch[j], 0)) <= members
      modifies `buckets, `numBuckets, `log2NumBuckets, `chains
      modifies `idealChainMaxlen, `nonidealItems, `ineffExpands, `noexpand
      modifies e`hhNext, e`hhPrev, members`hhNext, members`hhPrev
      ensures oomed <==> !Granted(granted, 2 * old(numBuckets))
      ensures !oomed ==> BktsOk(members + {e})
      ensures !oomed ==> Expanded(old(chains), old(ineffExpands), old(noexpand))
      ensures oomed ==> BktsOk(members) && chains == ch
      ensures oomed ==> buckets == old(buckets[j := Bucket(At(ch[j], 0), buckets[j].count - 1, buckets[j].expandMult)])
      ensures oomed ==> SameTable(old(numBuckets), old(log2NumBuckets), old(idealChainMaxlen), old(nonidealItems),
                                  old(ineffExpands), old(noexpand))
    {
      hide ChainsOk, SplitUpTo, Accounted, AtRemainders, And;
      oomed := ExpandBuckets(granted, members + {e});
      if oomed {
        Unpush(ch, j, e);
        buckets := DelInBkt(hash, buckets, j, e, 0, chains, members + {e});
        chains := ch;
        assert members + {e} - {e} == members;
      }
    }

    lemma Unpush(ch: seq<seq<Item<V>>>, j: nat, e: Item<V>)
      requires j < |ch|
      ensures var ch' := ch[j := [e] + ch[j]];
        ch'[j][0] == e && Without(ch'[j], 0) == ch[j] && ch'[j := Without(ch'[j], 0)] == ch
    {
    }

    ghost predicate SameTable(n: nat, lb: nat, ideal: nat, nonideal: nat, ineff: nat, noexp: bool)
      reads `numBuckets, `log2NumBuckets, `idealChainMaxlen, `nonidealItems, `ineffExpands, `noexpand
    {
      && numBuckets == n && log2NumBuckets == lb && idealChainMaxlen == ideal
      && nonidealItems == nonideal && ineffExpands == ineff && noexpand == noexp
    }

    // The table after e has been put in front of its bucket's chain, and all chains expanded if
    // that was wanted.
    ghost predicate Pushed(e: Item<V>, bkts: seq<Bucket<V>>, ch: seq<seq<Item<V>>>, expand: bool, lb: nat,
                           ideal: nat, nonideal: nat, ineff: nat, noexp: bool)
      requires |ch| == |bkts| > 0 && numBuckets > 0
      reads this
    {
      var j := BktOf(hash(e.key), |ch|);
      var pushed := ch[j := [e] + ch[j]];
      if expand then Expanded(pushed, ineff, noexp)
      else
        && chains == pushed && buckets == bkts[j := Bucket(e, bkts[j].count + 1, bkts[j].expandMult)]
        && SameTable(|bkts|, lb, ideal, nonideal, ineff, noexp)
    }

    // The application-order patch-up of HASH_DELETE_HH, for a table of two or more elements.
    method UnlinkFromOrder(e: Item<V>, ghost k: nat)
      requires AppOk() && k < |order| && order[k] == e && |order| > 1
      modifies `head, `tail, `order, order`next, order`prev
      ensures AppOk() && order == Without(old(order), k)
    {
      if e == tail {
        tail := e.prev;
      }
      if e.prev == null {
        head := e.next;
      }
      UnlinkApp(e, k, order);
      order := Without(order, k);
    }

    // HASH_DELETE_HH. Either e is the c-th element of its chain, or c is -1 and e is detached
    // but still counted, which is how a failed add calls it.
    method DeleteHH(e: Item<V>, ghost k: nat, ghost c: int, ghost members: set<Item<V>>)
      requires AppOk() && k < |order| && order[k] == e
      requires |order| > 1 ==> numItems > 0 && 0 < numBuckets == |buckets| == |chains|
      requires |order| > 1 ==> Deletable(e, c, members)
      modifies `head, `tail, `order, `buckets, `numItems, `chains, order`next, order`prev
      modifies Opt(e.hhPrev)`hhNext, Opt(e.hhNext)`hhPrev
      ensures AppOk() && order == Without(old(order), k)
      ensures |old(order)| > 1 ==> numItems == old(numItems) - 1 && |buckets| == numBuckets
      ensures var j := if |old(order)| > 1 then BktOf(old(e.hashv), numBuckets) else 0;
        && (|old(order)| > 1 && c >= 0 ==> ChainsOk(hash, buckets, chains, members - {e})
                                           && chains == old(chains[j := Without(chains[j], c)]))
        && (|old(order)| > 1 && c < 0 ==> chains == old(chains)
                                          && buckets == old(buckets[j := buckets[j].(count := buckets[j].count - 1)]))
    {
      hide ChainsOk, AppLinked, Distinct, And;
      SoleElement(e, k);
      if e.prev == null && e.next == null {
        head := null;
        order := [];
      } else {
        UnlinkFromOrder(e, k);
        var j := BktOf(e.hashv, numBuckets);
        buckets := DelInBkt(hash, buckets, j, e, c, chains, members);
        if c >= 0 {
          chains := chains[j := Without(chains[j], c)];
        }
        numItems := numItems - 1;
      }
    }

    ghost predicate Deletable(e: Item<V>, c: int, members: set<Item<V>>)
      requires 0 < numBuckets == |buckets| == |chains|
      reads `buckets, `numBuckets, `chains, e, members`hhNext, members`hhPrev
    {
      var j := BktOf(e.hashv, numBuckets);
      && buckets[j].count > 0
      && (c >= 0 ==> ChainsOk(hash, buckets, chains, members) && c < |chains[j]| && chains[j][c] == e)
      && (c < 0 ==> e.hhPrev == null && e.hhNext == null && buckets[j].hhHead != e
                    && ChainsOk(hash, buckets[j := buckets[j].(count := buckets[j].count - 1)], chains, members))
    }

    // Nothing on either side of e: it is the only element.
    lemma SoleElement(e: Item<V>, k: nat)
      requires AppOk() && k < |order| && order[k] == e
      ensures e.prev == null && e.next == null <==> |order| == 1
      ensures |order| == 1 ==> Without(order, k) == [] && AppLinked<V>([]) && Distinct<Item<V>>([])
    {
      assert e.prev == At(order, k - 1) && e.next == At(order, k + 1);
    }

    // HASH_DELETE of an element of the table.
    method Delete(e: Item<V>) returns (ghost k: nat)
      requires Valid() && e in order
      modifies `head, `tail, `order, `buckets, `numItems, `chains
      modifies order`next, order`prev, order`hhNext, order`hhPrev
      ensures Valid()
      ensures k < |old(order)| && old(order)[k] == e && order == Without(old(order), k)
    {
      hide ChainsOk, And, AppLinked, Distinct, UniqueKeys;
      k :| 0 <= k < |order| && order[k] == e;
      ghost var members, was := Elems(order), order;
      ghost var c := ChainPosition(e);
      DeleteHH(e, k, c, members);
      WithoutElems(was, k);
    }

    // Where a hashed element is, and what DeleteHH needs to know of it.
    lemma ChainPosition(e: Item<V>) returns (c: int)
      requires Valid() && e in order
      ensures c >= 0 && numItems > 0 && Deletable(e, c, Elems(order))
      ensures Opt(e.hhPrev) <= Elems(order) && Opt(e.hhNext) <= Elems(order)
    {
      var j := BktOf(e.hashv, numBuckets);
      assert e in Elems(order);
      assert e in chains[j];
      c :| 0 <= c < |chains[j]| && chains[j][c] == e;
      assert BucketOk(buckets[j], chains[j]);
      assert e.hhPrev == At(chains[j], c - 1) && e.hhNext == At(chains[j], c + 1);
    }

    lemma WithoutElems(s: seq<Item<V>>, k: nat)
      requires k < |s| && Distinct(s)
      ensures Elems(Without(s, k)) == Elems(s) - {s[k]}
      ensures UniqueKeys(s) ==> UniqueKeys(Without(s, k))
    {
      WithoutElements(s, k);
      forall x | x in Without(s, k) ensures x in s {
        var i :| 0 <= i < |s| - 1 && Without(s, k)[i] == x;
        assert x == s[if i < k then i else i + 1];
      }
    }

    // e has been put into the application order at k, and before is the order without it;
    // the buckets do not have it yet.
    ghost predicate HalfAdded(e: Item<V>, k: nat, before: seq<Item<V>>)
      reads this, order`next, order`prev, e`hashv
      reads Elems(before)`hhNext, Elems(before)`hhPrev, Elems(before)`hashv
    {
      && AppOk() && k < |order| && order[k] == e && before == Without(order, k) && e !in before
      && |order| < TWO_TO_THE_32 && UniqueKeys(order) && Elems(order) == Elems(before) + {e}
      && numItems == |before| && BktsOk(Elems(before)) && e.hashv == hash(e.key)
      && (before == [] ==> !WantsExpand(e.hashv))
    }

    // HASH_ADD_TO_TABLE of the build whose allocation failures are not fatal.
    method AddToTable(e: Item<V>, granted: bool, ghost k: nat, ghost before: seq<Item<V>>) returns (ok: bool)
      requires HalfAdded(e, k, before)
      modifies this, e`hhNext, e`hhPrev, Elems(order)`next, Elems(order)`prev
      modifies Elems(before)`hhNext, Elems(before)`hhPrev
      ensures ok <==> !old(WantsExpand(e.hashv)) || Granted(granted, 2 * old(numBuckets))
      ensures Valid() && order == if ok then old(order) else before
      ensures ok ==> Pushed(e, old(buckets), old(chains), old(WantsExpand(e.hashv)), old(log2NumBuckets),
                            old(idealChainMaxlen), old(nonidealItems), old(ineffExpands), old(noexpand))
      ensures !ok ==> buckets == old(buckets) && chains == old(chains) && numItems == old(numItems)
      ensures !ok ==> SameTable(old(numBuckets), old(log2NumBuckets), old(idealChainMaxlen), old(nonidealItems),
                                old(ineffExpands), old(noexpand))
    {
      hide ChainsOk, SplitUpTo, Accounted, And, AppLinked, Distinct, Fills, Placed;
      numItems := numItems + 1;
      var j := BktOf(e.hashv, numBuckets);
      var oomed := AddToBkt(j, e, granted, Elems(before));
      ok := !oomed;
      if oomed {
        UndoAdd(e, j, k, before);
      }
    }

    // The out-of-memory branch of HASH_ADD_TO_TABLE.
    method UndoAdd(e: Item<V>, j: nat, ghost k: nat, ghost before: seq<Item<V>>)
      requires AppOk() && k < |order| && order[k] == e && before == Without(order, k) && e !in before
      requires |order| < TWO_TO_THE_32 && UniqueKeys(order) && before != []
      requires numItems == |order| && BktsOk(Elems(before)) && j == BktOf(e.hashv, numBuckets)
      modifies `head, `tail, `order, `buckets, `numItems, `chains, order`next, order`prev
      modifies e`hhNext, e`hhPrev
      ensures Valid() && order == before
      ensures buckets == old(buckets) && chains == old(chains) && numItems == old(numItems) - 1
    {
      hide ChainsOk, And, AppLinked, Distinct;
      ghost var was := buckets;
      WithoutUnique(order, k);
      RollbackBkt(e, j, Elems(before));
      DeleteHH(e, k, -1, Elems(before));
      assert buckets == was;
    }

    // HASH_ROLLBACK_BKT: count e again and detach it, so that HASH_DELETE_HH can take it out.
    method RollbackBkt(e: Item<V>, j: nat, ghost members: set<Item<V>>)
      requires BktsOk(members) && e !in members && j == BktOf(e.hashv, numBuckets)
      modifies `buckets, e`hhNext, e`hhPrev
      ensures buckets == old(buckets)[j := old(buckets[j]).(count := old(buckets[j]).count + 1)]
      ensures Deletable(e, -1, members)
    {
      FirstOfChain(hash, buckets, chains, members, j);
      ghost var was := buckets;
      buckets := buckets[j := buckets[j].(count := buckets[j].count + 1)];
      e.hhNext := null;
      e.hhPrev := null;
      assert buckets[j := buckets[j].(count := buckets[j].count - 1)] == was;
    }

    lemma WithoutUnique(s: seq<Item<V>>, k: nat)
      requires k < |s| && UniqueKeys(s)
      ensures UniqueKeys(Without(s, k))
    {
    }

    // HASH_MAKE_TABLE for the first element e.
    method MakeTable(e: Item<V>)
      requires Valid() && order == [] && e.next == null && e.prev == null && e.hashv == hash(e.key)
      modifies this
      ensures HalfAdded(e, 0, []) && order == [e]
      ensures numBuckets == HASH_INITIAL_NUM_BUCKETS && idealChainMaxlen == nonidealItems == ineffExpands == 0
      ensures !noexpand && forall b | 0 <= b < numBuckets :: buckets[b] == Bucket(null, 0, 0)
    {
      hide ChainsOk, And, AppLinked;
      ResetTable(e);
      head := e;
      order := [e];
      LoneElement(e);
    }

    method ResetTable(e: Item<V>)
      modifies `tail, `buckets, `numBuckets, `log2NumBuckets, `numItems, `chains
      modifies `idealChainMaxlen, `nonidealItems, `ineffExpands, `noexpand
      ensures tail == e && numItems == 0 && BktsOk({})
      ensures numBuckets == HASH_INITIAL_NUM_BUCKETS && idealChainMaxlen == nonidealItems == ineffExpands == 0
      ensures !noexpand && forall b | 0 <= b < numBuckets :: buckets[b] == Bucket(null, 0, 0)
    {
      hide And, ChainsOk;
      var zeroed: seq<Bucket<V>> := seq(HASH_INITIAL_NUM_BUCKETS, _ => Bucket(null, 0, 0));
      ghost var none: seq<seq<Item<V>>> := seq(HASH_INITIAL_NUM_BUCKETS, _ => []);
      NoChains(zeroed, none);
      assert Pow2(5) == 2 * Pow2(4) == 4 * Pow2(3) == 8 * Pow2(2) == 16 * Pow2(1) == 32;
      tail := e;
      numBuckets, log2NumBuckets := HASH_INITIAL_NUM_BUCKETS, HASH_INITIAL_NUM_BUCKETS_LOG2;
      numItems, idealChainMaxlen, nonidealItems, ineffExpands, noexpand := 0, 0, 0, 0, false;
      buckets, chains := zeroed, none;
    }

    lemma NoChains(zeroed: seq<Bucket<V>>, none: seq<seq<Item<V>>>)
      requires |zeroed| == |none| > 0 && forall b | 0 <= b < |none| :: zeroed[b] == Bucket(null, 0, 0) && none[b] == []
      ensures ChainsOk(hash, zeroed, none, {})
    {
    }

    lemma LoneElement(e: Item<V>)
      requires e.next == null && e.prev == null
      ensures AppLinked([e]) && Distinct([e]) && UniqueKeys([e]) && Without([e], 0) == []
      ensures Elems<Item<V>>([]) == {} && Elems([e]) == {} + {e}
    {
    }

    // HASH_APPEND_LIST
    method Append(e: Item<V>)
      requires Valid() && order != [] && e !in order && |order| + 1 < TWO_TO_THE_32
      requires e.hashv == hash(e.key) && forall x | x in order :: x.key != e.key
      modifies `tail, `order, e`next, e`prev, Opt(tail)`next
      ensures HalfAdded(e, |old(order)|, old(order)) && order == old(order) + [e]
    {
      hide ChainsOk, And, UniqueKeys, AppLinked, Distinct, Without, WantsExpand;
      LinkLast(tail, e, order);
      tail := e;
      WithLast(order, e);
      order := order + [e];
    }

    lemma WithLast(s: seq<Item<V>>, e: Item<V>)
      requires UniqueKeys(s) && forall x | x in s :: x.key != e.key
      ensures UniqueKeys(s + [e]) && Without(s + [e], |s|) == s && Elems(s + [e]) == Elems(s) + {e}
    {
    }

    // All four links of an element are fixed by the two orders it is in.
    ghost function LinksOf(order: seq<Item<V>>, chains: seq<seq<Item<V>>>, x: Item<V>): seq<Item?<V>>
      requires |chains| > 0
    {
      Around(order, x) + Around(chains[BktOf(hash(x.key), |chains|)], x)
    }

    ghost function Around(s: seq<Item<V>>, x: Item<V>): seq<Item?<V>> {
      if x in s then
        var i :| 0 <= i < |s| && s[i] == x;
        [At(s, i + 1), At(s, i - 1)]
      else []
    }

    ghost predicate LinkedAs(order: seq<Item<V>>, chains: seq<seq<Item<V>>>)
      requires |chains| > 0
      reads order`next, order`prev, order`hhNext, order`hhPrev
    {
      forall x | x in order :: Links(x) == LinksOf(order, chains, x)
    }

    ghost function Links(x: Item<V>): seq<Item?<V>>
      reads x`next, x`prev, x`hhNext, x`hhPrev
    {
      [x.next, x.prev, x.hhNext, x.hhPrev]
    }

    lemma LinksFixed()
      requires Valid() && order != []
      ensures LinkedAs(order, chains)
    {
      forall x | x in order ensures Links(x) == LinksOf(order, chains, x) {
        LinksAt(x);
      }
    }

    lemma LinksAt(x: Item<V>)
      requires Valid() && x in order
      ensures |chains| > 0 && Links(x) == LinksOf(order, chains, x)
    {
      var c := chains[BktOf(hash(x.key), |chains|)];
      assert x in Elems(order) && x in c;
      assert BucketOk(buckets[BktOf(hash(x.key), |chains|)], c);
      assert Around(order, x) == [x.next, x.prev];
      assert Around(c, x) == [x.hhNext, x.hhPrev];
    }

    // The caller's obligations: e is in no table, its key is new, and num_items can count it.
    ghost predicate Addable(e: Item<V>)
      reads `order
    {
      e !in order && |order| + 1 < TWO_TO_THE_32 && forall x | x in order :: x.key != e.key
    }

    // What a failed add leaves: everything as it was.
    ghost predicate AsBefore(h: Item?<V>, t: Item?<V>, n: nat, bkts: seq<Bucket<V>>, o: seq<Item<V>>,
                             ch: seq<seq<Item<V>>>)
      reads `head, `tail, `numItems, `buckets, `order, `chains
    {
      && head == h && order == o && (o != [] ==> tail == t && numItems == n && buckets == bkts && chains == ch)
    }

    // The add to an empty table, which makes one.
    method AddFirst(e: Item<V>, tableGranted: bool, expandGranted: bool) returns (ok: bool)
      requires Valid() && order == [] && e.hashv == hash(e.key)
      modifies this, e`next, e`prev, e`hhNext, e`hhPrev
      ensures Valid() && order == if ok then [e] else []
      ensures ok <==> tableGranted
      ensures ok ==> numBuckets == HASH_INITIAL_NUM_BUCKETS && numItems == 1
      ensures !ok ==> head == null
    {
      hide ChainsOk, And, AppLinked, Distinct, UniqueKeys, SplitUpTo, Accounted;
      e.next := null;
      e.prev := null;
      if !tableGranted {
        return false;
      }
      MakeTable(e);
      ok := AddToTable(e, expandGranted, 0, []);
    }

    // HASH_ADD_TO_TABLE for an element put into a non-empty order o at k.
    method FinishAdd(e: Item<V>, granted: bool, ghost k: nat, ghost o: seq<Item<V>>) returns (ok: bool)
      requires HalfAdded(e, k, o) && o != []
      modifies this, e`hhNext, e`hhPrev, Elems(order)`next, Elems(order)`prev
      modifies Elems(o)`hhNext, Elems(o)`hhPrev
      ensures ok <==> !old(WantsExpand(e.hashv)) || Granted(granted, 2 * old(numBuckets))
      ensures Valid() && order == if ok then old(order) else o
      ensures ok ==> Pushed(e, old(buckets), old(chains), old(WantsExpand(e.hashv)), old(log2NumBuckets),
                            old(idealChainMaxlen), old(nonidealItems), old(ineffExpands), old(noexpand))
      ensures !ok ==> AsBefore(At(o, 0), o[|o| - 1], old(numItems), old(buckets), o, old(chains))
      ensures !ok ==> SameTable(old(numBuckets), old(log2NumBuckets), old(idealChainMaxlen), old(nonidealItems),
                                old(ineffExpands), old(noexpand))
      ensures !ok ==> 0 < |old(chains)| && LinkedAs(o, old(chains))
    {
      hide ChainsOk, And, AppLinked, Distinct, UniqueKeys, SplitUpTo, Accounted, LinkedAs;
      ok := AddToTable(e, granted, k, o);
      if !ok {
        LinksFixed();
      }
    }

    method AddLast(e: Item<V>, granted: bool) returns (ok: bool)
      requires Valid() && order != [] && Addable(e) && e.hashv == hash(e.key)
      modifies this, e`next, e`prev, e`hhNext, e`hhPrev
      modifies order`next, order`prev, order`hhNext, order`hhPrev
      ensures Valid() && order == if ok then old(order) + [e] else old(order)
      ensures ok <==> !old(WantsExpand(e.hashv)) || Granted(granted, 2 * old(numBuckets))
      ensures ok ==> Pushed(e, old(buckets), old(chains), old(WantsExpand(e.hashv)), old(log2NumBuckets),
                            old(idealChainMaxlen), old(nonidealItems), old(ineffExpands), old(noexpand))
      ensures !ok ==> AsBefore(old(head), old(tail), old(numItems), old(buckets), old(order), old(chains))
      ensures !ok ==> SameTable(old(numBuckets), old(log2NumBuckets), old(idealChainMaxlen), old(nonidealItems),
                                old(ineffExpands), old(noexpand))
      ensures !ok ==> forall x | x in old(order) :: Links(x) == old(Links(x))
    {
      hide ChainsOk, And, AppLinked, Distinct, UniqueKeys, SplitUpTo, Accounted, Pushed, LinkedAs, LinksOf;
      ghost var o, ch := order, chains;
      ghost var links := Snapshot();
      Append(e);
      ok := FinishAdd(e, granted, |o|, o);
      if !ok {
        Compare(links, o, ch);
      }
    }

    lemma Snapshot() returns (links: map<Item<V>, seq<Item?<V>>>)
      requires Valid() && order != []
      ensures forall x | x in order :: x in links && links[x] == Links(x)
      ensures |chains| > 0 && forall x | x in order :: links[x] == LinksOf(order, chains, x)
    {
      LinksFixed();
      links := map x | x in order :: Links(x);
    }

    lemma Compare(links: map<Item<V>, seq<Item?<V>>>, o: seq<Item<V>>, ch: seq<seq<Item<V>>>)
      requires |ch| > 0 && LinkedAs(o, ch)
      requires forall x | x in o :: x in links && links[x] == LinksOf(o, ch, x)
      ensures forall x | x in o :: Links(x) == links[x]
    {
    }

    // HASH_ADD_KEYPTR; tableGranted and expandGranted are the outcomes of the mallocs of
    // HASH_MAKE_TABLE and HASH_EXPAND_BUCKETS.
    method Add(e: Item<V>, tableGranted: bool, expandGranted: bool) returns (ok: bool)
      requires Valid() && Addable(e)
      modifies this, e`next, e`prev, e`hhNext, e`hhPrev, e`hashv
      modifies order`next, order`prev, order`hhNext, order`hhPrev
      ensures Valid() && order == if ok then old(order) + [e] else old(order)
      ensures old(head) == null ==> (ok <==> tableGranted)
      ensures ok && old(head) == null ==> numBuckets == HASH_INITIAL_NUM_BUCKETS && numItems == 1
      ensures old(head) != null ==>
        (ok <==> !old(WantsExpand(hash(e.key))) || Granted(expandGranted, 2 * old(numBuckets)))
      ensures ok && old(head) != null ==>
        Pushed(e, old(buckets), old(chains), old(WantsExpand(hash(e.key))), old(log2NumBuckets),
               old(idealChainMaxlen), old(nonidealItems), old(ineffExpands), old(noexpand))
      ensures !ok ==> AsBefore(old(head), old(tail), old(numItems), old(buckets), old(order), old(chains))
      ensures !ok && old(head) != null ==>
        SameTable(old(numBuckets), old(log2NumBuckets), old(idealChainMaxlen), old(nonidealItems),
                  old(ineffExpands), old(noexpand))
      ensures !ok ==> forall x | x in old(order) :: Links(x) == old(Links(x))
    {
      hide ChainsOk, And, AppLinked, Distinct, UniqueKeys, SplitUpTo, Accounted, Pushed, LinkedAs, LinksOf;
      hide BktOf, Links;
      e.hashv := hash(e.key);
      if head == null {
        ok := AddFirst(e, tableGranted, expandGranted);
      } else {
        ok := AddLast(e, expandGranted);
      }
    }

    // HASH_AKBI_INNER_LOOP: the first element that compares above e.
    method FindPlace(cmp: (Item<V>, Item<V>) -> int, e: Item<V>) returns (iter: Item?<V>, ghost k: nat)
      requires Valid() && order != []
      ensures if iter == null then forall x | x in order :: cmp(x, e) <= 0 else iter in order && cmp(iter, e) > 0
      ensures k <= |order| && iter == At(order, k)
      ensures IsPlace(cmp, order, e, k)
    {
      iter, k := head, 0;
      while true
        invariant k < |order| && iter == order[k]
        invariant forall i | 0 <= i < k :: cmp(order[i], e) <= 0
        decreases |order| - k
      {
        if cmp(iter, e) > 0 {
          break;
        }
        iter := iter.next;
        k := k + 1;
        if iter == null {
          break;
        }
      }
    }

    // The relinking part of HASH_ADD_KEYPTR_BYHASHVALUE_INORDER.
    method Insert(cmp: (Item<V>, Item<V>) -> int, e: Item<V>) returns (ghost k: nat)
      requires Valid() && order != [] && Addable(e) && e.hashv == hash(e.key)
      modifies `head, `tail, `order, e`next, e`prev, order`next, order`prev
      ensures k <= |old(order)| && IsPlace(cmp, old(order), e, k)
      ensures order == Inserted(old(order), k, e)
      ensures HalfAdded(e, k, old(order))
    {
      hide ChainsOk, And, IsPlace;
      var iter;
      iter, k := FindPlace(cmp, e);
      if iter != null {
        InsertBefore(iter, e, k);
      } else {
        assert Inserted(order, k, e) == order + [e];
        Append(e);
      }
    }

    method InsertBefore(iter: Item<V>, e: Item<V>, ghost k: nat)
      requires Valid() && Addable(e) && e.hashv == hash(e.key) && k < |order| && order[k] == iter
      modifies `head, `order, e`next, e`prev, order`next, order`prev
      ensures order == Inserted(old(order), k, e)
      ensures HalfAdded(e, k, old(order))
    {
      hide ChainsOk, And, Inserted, AppLinked, Distinct, UniqueKeys, Without;
      PrevOf(k);
      if iter.prev == null {
        head := e;
      }
      LinkBefore(iter, e, k, order);
      WithMiddle(order, k, e);
      order := Inserted(order, k, e);
    }

    lemma PrevOf(k: nat)
      requires AppOk() && k < |order|
      ensures order[k].prev == At(order, k - 1)
      ensures Opt(At(order, k - 1)) <= Elems(order)
    {
    }

    lemma WithMiddle(s: seq<Item<V>>, k: nat, e: Item<V>)
      requires k < |s| && UniqueKeys(s) && forall x | x in s :: x.key != e.key
      ensures var t := Inserted(s, k, e);
        && |t| == |s| + 1 && t[k] == e && t[0] == (if k == 0 then e else s[0]) && t[|s|] == s[|s| - 1]
        && UniqueKeys(t) && Without(t, k) == s && Elems(t) == Elems(s) + {e}
    {
      assert Without(Inserted(s, k, e), k) == s;
      hide UniqueKeys, Without;
      InsertedElems(s, k, e);
      UniqueInserted(s, k, e);
    }

    lemma InsertedElems(s: seq<Item<V>>, k: nat, e: Item<V>)
      requires k <= |s|
      ensures Elems(Inserted(s, k, e)) == Elems(s) + {e}
    {
      var t := Inserted(s, k, e);
      forall x | x in s ensures x in t {
        var i :| 0 <= i < |s| && s[i] == x;
        assert t[if i < k then i else i + 1] == x;
      }
      assert t[k] == e;
    }

    // HASH_ADD_INORDER
    method AddInOrder(cmp: (Item<V>, Item<V>) -> int, e: Item<V>, tableGranted: bool, expandGranted: bool)
      returns (ok: bool, ghost k: nat)
      requires Valid() && Addable(e)
      modifies this, e`next, e`prev, e`hhNext, e`hhPrev, e`hashv
      modifies order`next, order`prev, order`hhNext, order`hhPrev
      ensures Valid() && k <= |old(order)| && IsPlace(cmp, old(order), e, k)
      ensures order == if ok then Inserted(old(order), k, e) else old(order)
      ensures old(head) == null ==> (ok <==> tableGranted)
      ensures old(head) != null ==>
        (ok <==> !old(WantsExpand(hash(e.key))) || Granted(expandGranted, 2 * old(numBuckets)))
      ensures ok && old(head) != null ==>
        Pushed(e, old(buckets), old(chains), old(WantsExpand(hash(e.key))), old(log2NumBuckets),
               old(idealChainMaxlen), old(nonidealItems), old(ineffExpands), old(noexpand))
      ensures !ok ==> AsBefore(old(head), old(tail), old(numItems), old(buckets), old(order), old(chains))
      ensures !ok && old(head) != null ==>
        SameTable(old(numBuckets), old(log2NumBuckets), old(idealChainMaxlen), old(nonidealItems),
                  old(ineffExpands), old(noexpand))
      ensures !ok ==> forall x | x in old(order) :: Links(x) == old(Links(x))
    {
      hide ChainsOk, And, AppLinked, Distinct, UniqueKeys, SplitUpTo, Accounted, Pushed, LinkedAs, LinksOf;
      hide BktOf, Links;
      e.hashv := hash(e.key);
      if head == null {
        k := 0;
        ok := AddFirst(e, tableGranted, expandGranted);
      } else {
        ok, k := AddInside(cmp, e, expandGranted);
      }
    }

    method AddInside(cmp: (Item<V>, Item<V>) -> int, e: Item<V>, granted: bool) returns (ok: bool, ghost k: nat)
      requires Valid() && order != [] && Addable(e) && e.hashv == hash(e.key)
      modifies this, e`next, e`prev, e`hhNext, e`hhPrev
      modifies order`next, order`prev, order`hhNext, order`hhPrev
      ensures Valid() && k <= |old(order)| && IsPlace(cmp, old(order), e, k)
      ensures order == if ok then Inserted(old(order), k, e) else old(order)
      ensures ok <==> !old(WantsExpand(e.hashv)) || Granted(granted, 2 * old(numBuckets))
      ensures ok ==> Pushed(e, old(buckets), old(chains), old(WantsExpand(e.hashv)), old(log2NumBuckets),
                            old(idealChainMaxlen), old(nonidealItems), old(ineffExpands), old(noexpand))
      ensures !ok ==> AsBefore(old(head), old(tail), old(numItems), old(buckets), old(order), old(chains))
      ensures !ok ==> SameTable(old(numBuckets), old(log2NumBuckets), old(idealChainMaxlen), old(nonidealItems),
                                old(ineffExpands), old(noexpand))
      ensures !ok ==> forall x | x in old(order) :: Links(x) == old(Links(x))
    {
      hide ChainsOk, And, AppLinked, Distinct, UniqueKeys, SplitUpTo, Accounted, Pushed, LinkedAs, LinksOf;
      hide IsPlace, Inserted, Links, BktOf, Expanded;
      ghost var o, ch := order, chains;
      ghost var links := Snapshot();
      k := Insert(cmp, e);
      ok := FinishAdd(e, granted, k, o);
      if !ok {
        Compare(links, o, ch);
      }
    }

    // HASH_FIND
    method Find(key: Key) returns (out: Item?<V>)
      requires Valid()
      ensures out != null ==> out in order && out.key == key
      ensures out == null ==> forall x | x in order :: x.key != key
    {
      out := null;
      if head != null {
        var hashv := hash(key);
        var j := BktOf(hashv, numBuckets);
        out := FindInBkt(j, key, hashv);
        forall x | x in order && x.key == key ensures x in chains[j] {
          assert x in Elems(order);
        }
      }
    }

    // HASH_FIND_IN_BKT
    method FindInBkt(j: nat, key: Key, hashv: nat) returns (out: Item?<V>)
      requires Valid() && order != [] && hashv == hash(key) && j < |buckets|
      ensures out != null ==> out in order && out.key == key
      ensures out == null ==> forall x | x in chains[j] :: x.key != key
    {
      ghost var c, i := chains[j], 0;
      assert BucketOk(buckets[j], c);
      assert forall i | 0 <= i < |c| :: c[i] in Elems(order);
      out := buckets[j].hhHead;
      while out != null
        invariant i <= |c| && out == At(c, i)
        invariant forall x | x in c[..i] :: x.key != key
        decreases |c| - i
      {
        if out.hashv == hashv && |out.key| == |key| {
          if out.key == key {
            break;
          }
        }
        out := out.hhNext;
        i := i + 1;
      }
    }

    // HASH_REPLACE
    method Replace(e: Item<V>, tableGranted: bool, expandGranted: bool)
      returns (replaced: Item?<V>, ok: bool, ghost k: nat)
      requires Valid() && |order| + 1 < TWO_TO_THE_32
      modifies this, e`next, e`prev, e`hhNext, e`hhPrev, e`hashv
      modifies order`next, order`prev, order`hhNext, order`hhPrev
      ensures Valid()
      ensures replaced == null ==> forall x | x in old(order) :: x.key != e.key
      ensures replaced != null ==> k < |old(order)| && old(order)[k] == replaced && replaced.key == e.key
      ensures order == (if replaced == null then old(order) else Without(old(order), k)) + if ok then [e] else []
    {
      hide ChainsOk, And, AppLinked, Distinct, SplitUpTo, Accounted, Pushed, Links, BktOf, BktsOk;
      replaced := Find(e.key);
      k := 0;
      if replaced != null {
        k := Delete(replaced);
        OthersKeys(old(order), k);
      }
      ok := Add(e, tableGranted, expandGranted);
    }

    lemma OthersKeys(s: seq<Item<V>>, k: nat)
      requires k < |s| && UniqueKeys(s)
      ensures forall x | x in Without(s, k) :: x in s && x.key != s[k].key
    {
      forall x | x in Without(s, k) ensures x in s && x.key != s[k].key {
        var i :| 0 <= i < |s| - 1 && Without(s, k)[i] == x;
        assert x == s[if i < k then i else i + 1];
      }
    }

    // The sorted order after some passes of HASH_SRT.
    ghost predicate Sorting(cmp: (Item<V>, Item<V>) -> int, o: seq<Item<V>>, l: seq<Item<V>>, list: Item?<V>,
                            insize: nat)
      reads l`next
    {
      && insize > 0 && o != [] && |l| == |o| && Distinct(l) && Intact(l, 0, |l|) && list == l[0]
      && multiset(l) == multiset(o)
      && (TotalPreorder(Le(cmp), o) ==> Runs(Le(cmp), o, l, insize, o))
    }

    lemma SortStarts(cmp: (Item<V>, Item<V>) -> int)
      requires AppOk() && order != []
      ensures SortState(cmp, order, order, head, null, 1, true)
    {
      RunsOfOne(Le(cmp), order, order);
    }

    lemma SortContinues(cmp: (Item<V>, Item<V>) -> int, o: seq<Item<V>>, l: seq<Item<V>>, insize: nat,
                        out: seq<Item<V>>)
      requires insize > 0 && |l| == |o| && o != [] && multiset(l) == multiset(o) && out == Pass(Le(cmp), l, insize)
      requires TotalPreorder(Le(cmp), o) ==> Runs(Le(cmp), o, l, insize, o)
      ensures multiset(out) == multiset(o) && |out| == |o| && Elems(out) == Elems(o) == Elems(l)
      ensures TotalPreorder(Le(cmp), o) ==> Runs(Le(cmp), o, out, 2 * insize, o)
      ensures TotalPreorder(Le(cmp), o) && |l| <= 2 * insize ==> StablySorts(Le(cmp), o, out, o)
    {
      PassMultiset(Le(cmp), l, insize);
      SameElements(out, o);
      SameElements(l, o);
      if TotalPreorder(Le(cmp), o) {
        PassDoublesRuns(Le(cmp), o, l, insize, o);
      }
    }

    // What the last pass has produced.
    ghost predicate SortedOut(cmp: (Item<V>, Item<V>) -> int, o: seq<Item<V>>, out: seq<Item<V>>,
                              list: Item?<V>, last: Item?<V>)
      reads out`next, out`prev
    {
      && list == At(out, 0) && last == At(out, |out| - 1) && AppLinked(out) && Distinct(out)
      && |out| == |o| && multiset(out) == multiset(o) && Elems(out) == Elems(o)
      && (TotalPreorder(Le(cmp), o) ==> StablySorts(Le(cmp), o, out, o))
    }

    // The state of the outer loop of HASH_SRT.
    ghost predicate SortState(cmp: (Item<V>, Item<V>) -> int, o: seq<Item<V>>, out: seq<Item<V>>,
                              list: Item?<V>, last: Item?<V>, insize: nat, looping: bool)
      reads out`next, out`prev
    {
      && Elems(out) == Elems(o)
      && (looping ==> Sorting(cmp, o, out, list, insize) && (insize == 1 || insize < |o|))
      && (!looping ==> SortedOut(cmp, o, out, list, last))
    }

    // One turn of that loop. The unsigned run length can wrap only after the last pass.
    method SortStep(cmp: (Item<V>, Item<V>) -> int, first: Item?<V>, last0: Item?<V>, insize0: nat,
                    ghost o: seq<Item<V>>, ghost l: seq<Item<V>>)
      returns (list: Item?<V>, last: Item?<V>, insize: nat, looping: bool, ghost out: seq<Item<V>>)
      requires SortState(cmp, o, l, first, last0, insize0, true) && |o| < TWO_TO_THE_32
      modifies Elems(o)`next, Elems(o)`prev
      ensures SortState(cmp, o, out, list, last, insize, looping)
      ensures looping ==> insize0 < insize < |o|
    {
      hide Runs, Pass, StablySorts, TotalPreorder;
      var nmerges;
      list, last, nmerges, out := SortPass(cmp, first, insize0, l);
      SortContinues(cmp, o, l, insize0, out);
      looping := true;
      if nmerges <= 1 {
        looping := false;
      }
      insize := insize0 * 2 % TWO_TO_THE_32;
    }

    // The outer loop of HASH_SRT.
    method SortList(cmp: (Item<V>, Item<V>) -> int, first: Item<V>, ghost o: seq<Item<V>>)
      returns (list: Item?<V>, last: Item?<V>, ghost out: seq<Item<V>>)
      requires SortState(cmp, o, o, first, null, 1, true) && |o| < TWO_TO_THE_32
      modifies Elems(o)`next, Elems(o)`prev
      ensures SortState(cmp, o, out, list, last, 0, false)
    {
      var insize, looping := 1, true;
      list, last, out := first, null, o;
      while looping
        invariant SortState(cmp, o, out, list, last, insize, looping)
        decreases looping, |o| - insize
      {
        list, last, insize, looping, out := SortStep(cmp, list, last, insize, o, out);
      }
    }

    // HASH_SRT
    method Sort(cmp: (Item<V>, Item<V>) -> int)
      requires Valid()
      modifies `head, `tail, `order, order`next, order`prev
      ensures Valid() && multiset(order) == multiset(old(order))
      ensures TotalPreorder(Le(cmp), old(order)) ==> StablySorts(Le(cmp), old(order), order, old(order))
    {
      hide ChainsOk, And, Runs, Pass, AppLinked, Distinct, StablySorts, TotalPreorder, Sorting, UniqueKeys;
      hide BktsOk, SortState;
      if head != null {
        ghost var o := order;
        SortStarts(cmp);
        head, tail, order := SortList(cmp, head, order);
        SortDone(cmp, o);
      } else {
        NothingToSort(cmp);
      }
    }

    lemma SortDone(cmp: (Item<V>, Item<V>) -> int, o: seq<Item<V>>)
      requires SortState(cmp, o, order, head, tail, 0, false)
      requires o != [] && |o| < TWO_TO_THE_32 && numItems == |o| && UniqueKeys(o) && BktsOk(Elems(o))
      ensures Valid() && multiset(order) == multiset(o)
      ensures TotalPreorder(Le(cmp), o) ==> StablySorts(Le(cmp), o, order, o)
    {
      hide ChainsOk, And, Runs, Pass, AppLinked, StablySorts, TotalPreorder, Sorting;
      SortedKeys(o, order);
    }

    lemma NothingToSort(cmp: (Item<V>, Item<V>) -> int)
      ensures StablySorts(Le(cmp), [], [], [])
    {
    }

    lemma SortedKeys(o: seq<Item<V>>, t: seq<Item<V>>)
      requires UniqueKeys(o) && multiset(t) == multiset(o) && Distinct(t)
      ensures UniqueKeys(t)
    {
      SameElements(t, o);
      forall i, j | 0 <= i < j < |t| ensures t[i].key != t[j].key {
        assert t[i] in o && t[j] in o;
      }
    }
  }

  // Adding in order puts e before the first element that compares above it.
  ghost predicate IsPlace<V>(cmp: (Item<V>, Item<V>) -> int, order: seq<Item<V>>, e: Item<V>, k: nat) {
    && k <= |order|
    && (forall i | 0 <= i < k :: cmp(order[i], e) <= 0)
    && (k < |order| ==> cmp(order[k], e) > 0)
  }

  lemma UniqueInserted<V>(s: seq<Item<V>>, k: nat, e: Item<V>)
    requires k <= |s| && UniqueKeys(s) && forall x | x in s :: x.key != e.key
    ensures UniqueKeys(Inserted(s, k, e))
  {
    var t := Inserted(s, k, e);
    forall i, j | 0 <= i < j < |t| ensures t[i].key != t[j].key {
      if i == k {
        assert t[j] == s[j - 1] && s[j - 1] in s;
      } else if j == k {
        assert t[i] == s[i] && s[i] in s;
      } else {
        assert t[i] == s[if i < k then i else i - 1] && t[j] == s[if j < k then j else j - 1];
      }
    }
  }

  lemma ShrByOne(n: nat)
    ensures Shr(n, 1) == n / 2
  {
  }

  // The shift and mask of HASH_EXPAND_BUCKETS compute the ceiling for the doubled bucket count.
  lemma IdealIsCeil(n: nat, lb: nat)
    requires n > 0
    ensures var b := Pow2(lb);
      Shr(n, lb + 1) + (if And(n, b * 2 - 1) != 0 then 1 else 0) == CeilDiv(n, 2 * b) > 0
  {
    assert Pow2(lb + 1) == 2 * Pow2(lb);
    ShiftAndMaskIsCeil(n, lb + 1);
    CeilDivBounds(n, 2 * Pow2(lb));
  }

  ghost predicate UniqueKeys<V>(s: seq<Item<V>>) {
    forall i, j | 0 <= i < j < |s| :: s[i].key != s[j].key
  }
}
