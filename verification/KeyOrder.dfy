// Ordering hashed elements by their string keys, as final_kv_cmp and sort_func do.
module KeyOrder {
  import opened Bytes
  import opened StableSort
  import opened UtHash

  // final_kv_cmp and sort_func
  function ByKey<V>(a: Item<V>, b: Item<V>): int {
    StrCmp(a.key, b.key)
  }

  lemma LeByKey<V>(a: Item<V>, b: Item<V>)
    ensures Le(ByKey<V>)(a, b) <==> StrCmp(a.key, b.key) <= 0
  {
    LeMeans(ByKey<V>, a, b);
  }

  lemma KeysAreOrdered<V>(o: seq<Item<V>>)
    ensures TotalPreorder(Le(ByKey<V>), o)
  {
    forall a, b | a in o && b in o ensures Le(ByKey<V>)(a, b) || Le(ByKey<V>)(b, a) {
      StrCmpFlips(a.key, b.key);
      LeByKey(a, b);
      LeByKey(b, a);
    }
    forall a, b, c | a in o && b in o && c in o && Le(ByKey<V>)(a, b) && Le(ByKey<V>)(b, c)
      ensures Le(ByKey<V>)(a, c)
    {
      LeByKey(a, b);
      LeByKey(b, c);
      LeByKey(a, c);
      StrCmpChains(a.key, b.key, c.key);
    }
  }

  // Sorted by key, and no key twice: strictly ascending.
  lemma SortedAscends<V>(o: seq<Item<V>>)
    requires Sorted(Le(ByKey<V>), o) && forall i, j | 0 <= i < j < |o| :: o[i].key != o[j].key
    ensures forall i, j | 0 <= i < j < |o| :: StrCmp(o[i].key, o[j].key) < 0
  {
    forall i, j | 0 <= i < j < |o| ensures StrCmp(o[i].key, o[j].key) < 0 {
      StrCmpIsEquality(o[i].key, o[j].key);
      LeByKey(o[i], o[j]);
    }
  }
}
