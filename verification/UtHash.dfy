// lecture/test3/src/uthash.h: an intrusive hash table. Every element sits in two doubly linked
// lists at once, the application-order list (prev, next) and the chain of its bucket
// (hhPrev, hhNext).
module UtHash {
  import opened Bits
  import opened Bytes
  import opened Seqs
  import opened StableSort

  const HASH_INITIAL_NUM_BUCKETS: nat := 32
  const HASH_INITIAL_NUM_BUCKETS_LOG2: nat := 5
  const HASH_BKT_CAPACITY_THRESH: nat := 10

  type Key = Str

  // An application structure with its embedded UT_hash_handle. The back-pointer to the table
  // is the receiver of the table's methods.
  class Item<V> {
    const key: Key
    var value: V
    var hashv: nat
    var prev: Item?<V>
    var next: Item?<V>
    var hhPrev: Item?<V>
    var hhNext: Item?<V>

    constructor (key: Key, value: V)
      ensures this.key == key && this.value == value
    {
      this.key, this.value := key, value;
      hashv, prev, next, hhPrev, hhNext := 0, null, null, null, null;
    }
  }

  datatype Bucket<V> = Bucket(hhHead: Item?<V>, count: nat, expandMult: nat)

  // ---------- the two linked lists ----------

  // The element at index i, or null off either end.
  ghost function At<V>(s: seq<Item<V>>, i: int): Item?<V> {
    if 0 <= i < |s| then s[i] else null
  }

  ghost predicate AppLinked<V>(s: seq<Item<V>>)
    reads s`next, s`prev
  {
    && (forall i {:trigger s[i].next} | 0 <= i < |s| :: s[i].next == At(s, i + 1))
    && (forall i {:trigger s[i].prev} | 0 <= i < |s| :: s[i].prev == At(s, i - 1))
  }

  ghost predicate ChainLinked<V>(s: seq<Item<V>>)
    reads s`hhNext, s`hhPrev
  {
    && (forall i {:trigger s[i].hhNext} | 0 <= i < |s| :: s[i].hhNext == At(s, i + 1))
    && (forall i {:trigger s[i].hhPrev} | 0 <= i < |s| :: s[i].hhPrev == At(s, i - 1))
  }

  // HASH_TO_BKT
  function BktOf(hashv: nat, numBuckets: nat): (b: nat)
    requires numBuckets > 0
    ensures b < numBuckets
  {
    And(hashv, numBuckets - 1)
  }

  ghost predicate BucketOk<V>(bkt: Bucket<V>, c: seq<Item<V>>)
    reads c`hhNext, c`hhPrev
  {
    bkt.hhHead == At(c, 0) && bkt.count == |c| && ChainLinked(c) && Distinct(c)
  }

  // The bucket array bkts holds exactly the elements of members: ch lists each bucket's chain,
  // and an element is on the chain its hash value selects.
  ghost predicate ChainsOk<V>(hash: Key -> nat, bkts: seq<Bucket<V>>, ch: seq<seq<Item<V>>>, members: set<Item<V>>)
    reads members`hhNext, members`hhPrev
  {
    && |bkts| == |ch| > 0
    && Placed(hash, ch, members)
    && (forall b | 0 <= b < |ch| :: BucketOk(bkts[b], ch[b]))
  }

  ghost predicate Placed<V>(hash: Key -> nat, ch: seq<seq<Item<V>>>, members: set<Item<V>>)
    requires |ch| > 0
  {
    && (forall b, k | 0 <= b < |ch| && 0 <= k < |ch[b]| ::
          ch[b][k] in members && BktOf(hash(ch[b][k].key), |ch|) == b)
    && (forall e | e in members :: e in ch[BktOf(hash(e.key), |ch|)])
  }

  ghost function Opt<V>(x: Item?<V>): set<Item<V>> {
    if x == null then {} else {x}
  }

  // Put e in front of the chain c, whose first element is first.
  method LinkFront<V>(first: Item?<V>, e: Item<V>, ghost c: seq<Item<V>>)
    requires ChainLinked(c) && Distinct(c) && first == At(c, 0) && e !in c
    modifies e`hhNext, e`hhPrev, Opt(first)`hhPrev
    ensures ChainLinked([e] + c) && Distinct([e] + c)
    ensures e.hhPrev == null && e.hhNext == first
  {
    e.hhNext := first;
    e.hhPrev := null;
    if first != null {
      first.hhPrev := e;
    }
  }

  // Both HASH_ADD_TO_BKT and the inner loop of HASH_EXPAND_BUCKETS put an element in front of
  // a chain and count it.
  method PushFront<V>(hash: Key -> nat, bkts: seq<Bucket<V>>, j: nat, e: Item<V>,
                      ghost ch: seq<seq<Item<V>>>, ghost members: set<Item<V>>)
    returns (r: seq<Bucket<V>>)
    requires ChainsOk(hash, bkts, ch, members)
    requires e !in members && j < |bkts| && BktOf(hash(e.key), |ch|) == j
    modifies e`hhNext, e`hhPrev, Opt(At(ch[j], 0))`hhPrev
    ensures r == bkts[j := Bucket(e, bkts[j].count + 1, bkts[j].expandMult)]
    ensures ChainsOk(hash, r, ch[j := [e] + ch[j]], members + {e})
    ensures e.hhPrev == null && e.hhNext == At(ch[j], 0)
  {
    assert BucketOk(bkts[j], ch[j]);
    LinkFront(bkts[j].hhHead, e, ch[j]);
    r := bkts[j := bkts[j].(hhHead := e, count := bkts[j].count + 1)];
    ghost var ch' := ch[j := [e] + ch[j]];
    forall b | 0 <= b < |ch| ensures BucketOk(r[b], ch'[b]) {
      if b != j {
        assert old(BucketOk(bkts[b], ch[b]));
        assert forall k | 0 <= k < |ch[b]| :: ch[b][k] != e && BktOf(hash(ch[b][k].key), |ch|) == b;
      }
    }
    forall x | x in members + {e} ensures x in ch'[BktOf(hash(x.key), |ch|)] {
    }
  }

  // HASH_DEL_IN_BKT. Either e is the k-th element of its chain, or k is -1 and e is a
  // detached element that bucket j only counts, as HASH_ROLLBACK_BKT leaves it.
  method DelInBkt<V>(hash: Key -> nat, bkts: seq<Bucket<V>>, j: nat, e: Item<V>,
                     ghost k: int, ghost ch: seq<seq<Item<V>>>, ghost members: set<Item<V>>)
    returns (r: seq<Bucket<V>>)
    requires j < |bkts| == |ch| && bkts[j].count > 0
    requires k >= 0 ==> ChainsOk(hash, bkts, ch, members) && k < |ch[j]| && ch[j][k] == e
    requires k < 0 ==> e.hhPrev == null && e.hhNext == null && bkts[j].hhHead != e
    requires k < 0 ==> ChainsOk(hash, bkts[j := bkts[j].(count := bkts[j].count - 1)], ch, members)
    modifies Opt(e.hhPrev)`hhNext, Opt(e.hhNext)`hhPrev
    ensures k >= 0 ==> ChainsOk(hash, r, ch[j := Without(ch[j], k)], members - {e})
    ensures k < 0 ==> r == bkts[j := bkts[j].(count := bkts[j].count - 1)]
    ensures k >= 0 ==> r == bkts[j := Bucket(At(Without(ch[j], k), 0), bkts[j].count - 1, bkts[j].expandMult)]
  {
    hide Placed;
    assert k >= 0 ==> BucketOk(bkts[j], ch[j]);
    r := bkts[j := bkts[j].(count := bkts[j].count - 1)];
    if r[j].hhHead == e {
      r := r[j := r[j].(hhHead := e.hhNext)];
    }
    UnlinkChain(e, k, ch[j]);
    if k >= 0 {
      ghost var ch' := ch[j := Without(ch[j], k)];
      forall b | 0 <= b < |ch| ensures BucketOk(r[b], ch'[b]) {
        if b != j {
          assert old(BucketOk(bkts[b], ch[b]));
          ChainsApart(hash, ch, members, b, j);
        }
      }
      PlacedWithout(hash, ch, members, j, k);
    }
  }

  lemma ChainsApart<V>(hash: Key -> nat, ch: seq<seq<Item<V>>>, members: set<Item<V>>, b: nat, j: nat)
    requires |ch| > 0 && Placed(hash, ch, members)
    requires b < |ch| && j < |ch| && b != j
    ensures forall i, k | 0 <= i < |ch[b]| && 0 <= k < |ch[j]| :: ch[b][i] != ch[j][k]
  {
    assert forall i | 0 <= i < |ch[b]| :: BktOf(hash(ch[b][i].key), |ch|) == b;
  }

  lemma PlacedWithout<V>(hash: Key -> nat, ch: seq<seq<Item<V>>>, members: set<Item<V>>, j: nat, k: nat)
    requires |ch| > 0 && Placed(hash, ch, members)
    requires j < |ch| && k < |ch[j]| && Distinct(ch[j])
    ensures Placed(hash, ch[j := Without(ch[j], k)], members - {ch[j][k]})
  {
    WithoutElements(ch[j], k);
    var ch', e := ch[j := Without(ch[j], k)], ch[j][k];
    forall b, i | 0 <= b < |ch'| && 0 <= i < |ch'[b]|
      ensures ch'[b][i] in members - {e} && BktOf(hash(ch'[b][i].key), |ch|) == b
    {
      if b == j {
        assert ch'[j][i] == ch[j][if i < k then i else i + 1];
      }
    }
    forall x | x in members - {e} ensures x in ch'[BktOf(hash(x.key), |ch|)] {
      assert x in ch[BktOf(hash(x.key), |ch|)];
    }
  }

  method UnlinkChain<V>(e: Item<V>, ghost k: int, ghost c: seq<Item<V>>)
    requires k >= 0 ==> ChainLinked(c) && Distinct(c) && k < |c| && c[k] == e
    modifies Opt(e.hhPrev)`hhNext, Opt(e.hhNext)`hhPrev
    ensures k >= 0 ==> ChainLinked(Without(c, k)) && Distinct(Without(c, k))
  {
    if e.hhPrev != null {
      e.hhPrev.hhNext := e.hhNext;
    }
    if e.hhNext != null {
      e.hhNext.hhPrev := e.hhPrev;
    }
  }

  lemma WithoutElements<T>(c: seq<T>, k: nat)
    requires k < |c| && Distinct(c)
    ensures forall i | 0 <= i < |c| && i != k :: c[i] in Without(c, k)
    ensures c[k] !in Without(c, k)
  {
    forall i | 0 <= i < |c| && i != k ensures c[i] in Without(c, k) {
      assert c[i] == Without(c, k)[if i < k then i else i - 1];
    }
  }

  // HASH_APPEND_LIST: put e behind the last element of s.
  method LinkLast<V>(last: Item<V>, e: Item<V>, ghost s: seq<Item<V>>)
    requires AppLinked(s) && Distinct(s) && s != [] && last == s[|s| - 1] && e !in s
    modifies e`next, e`prev, last`next
    ensures AppLinked(s + [e]) && Distinct(s + [e])
  {
    e.next := null;
    e.prev := last;
    last.next := e;
  }

  // The relinking of HASH_ADD_KEYPTR_BYHASHVALUE_INORDER: put e before iter.
  method LinkBefore<V>(iter: Item<V>, e: Item<V>, ghost k: nat, ghost s: seq<Item<V>>)
    requires AppLinked(s) && Distinct(s) && k < |s| && s[k] == iter && e !in s
    modifies e`next, e`prev, iter`prev, Opt(At(s, k - 1))`next
    ensures AppLinked(Inserted(s, k, e)) && Distinct(Inserted(s, k, e))
    ensures e.prev == At(s, k - 1)
  {
    e.next := iter;
    e.prev := iter.prev;
    if e.prev != null {
      e.prev.next := e;
    }
    iter.prev := e;
  }

  // The application-order half of HASH_DELETE_HH.
  method UnlinkApp<V>(e: Item<V>, ghost k: nat, ghost s: seq<Item<V>>)
    requires AppLinked(s) && Distinct(s) && k < |s| && s[k] == e
    modifies Opt(At(s, k - 1))`next, Opt(At(s, k + 1))`prev
    ensures AppLinked(Without(s, k)) && Distinct(Without(s, k))
  {
    if e.prev != null {
      e.prev.next := e.next;
    }
    if e.next != null {
      e.next.prev := e.prev;
    }
  }

  // ---------- bucket expansion ----------

  // The elements of chain c that hash to bucket j of n, last first: each was put in front.
  ghost function Arrivals<V>(hash: Key -> nat, c: seq<Item<V>>, n: nat, j: nat): (r: seq<Item<V>>)
    requires n > 0
    ensures forall x | x in r :: x in c
  {
    if c == [] then []
    else
      var last := c[|c| - 1];
      (if BktOf(hash(last.key), n) == j then [last] else []) + Arrivals(hash, c[..|c| - 1], n, j)
  }

  // How far a chain of the given length runs past the ideal.
  function Excess(count: nat, ideal: nat): nat {
    if count > ideal then count - ideal else 0
  }

  ghost function Nonideal<V>(ch: seq<seq<Item<V>>>, ideal: nat): nat {
    if ch == [] then 0 else Excess(|ch[0]|, ideal) + Nonideal(ch[1..], ideal)
  }

  // expand_mult of a bucket that has received count elements.
  function Mult(count: nat, ideal: nat): nat
    requires ideal > 0
  {
    var e, c := Excess(count, ideal), CeilDiv(count, ideal);
    if e < c then e else c
  }

  // CeilDiv(n, d) is the least c with c * d >= n.
  lemma {:induction false} CeilDivBounds(n: nat, d: nat)
    requires d > 0
    ensures CeilDiv(n, d) * d >= n
    ensures n > 0 ==> (CeilDiv(n, d) - 1) * d < n
  {
    if n > d {
      CeilDivBounds(n - d, d);
      var c := CeilDiv(n - d, d);
      assert CeilDiv(n, d) == c + 1;
      assert (c + 1) * d == c * d + d;
      assert c * d == (c - 1) * d + d;
    } else if n > 0 {
      assert CeilDiv(n, d) == 1;
    }
  }

  lemma {:induction false} CeilDivNext(k: nat, d: nat)
    requires d > 0
    ensures CeilDiv(k + 1, d) == CeilDiv(k, d) + (if k + 1 > CeilDiv(k, d) * d then 1 else 0)
  {
    if k >= d {
      CeilDivNext(k - d, d);
      var c := CeilDiv(k - d, d);
      assert CeilDiv(k, d) == c + 1;
      assert (c + 1) * d == c * d + d;
    } else if k > 0 {
      assert CeilDiv(k, d) == 1;
    }
  }

  // The per-element test of HASH_EXPAND_BUCKETS maintains the closed form Mult.
  lemma MultStep(k: nat, ideal: nat)
    requires ideal > 0
    ensures k + 1 <= ideal ==> Mult(k + 1, ideal) == Mult(k, ideal) == 0
    ensures k + 1 > ideal ==>
      Mult(k + 1, ideal) == Mult(k, ideal) + (if k + 1 > Mult(k, ideal) * ideal then 1 else 0)
  {
    var c := CeilDiv(k, ideal);
    CeilDivBounds(k, ideal);
    CeilDivNext(k, ideal);
    if k + 1 > ideal {
      if k - ideal < c {
        // fewer than c elements beyond the ideal: the multiplier grows with every one
        MulLe(k - ideal, c - 1, ideal);
      }
    }
  }

  lemma MulLe(a: nat, b: nat, d: nat)
    requires a <= b
    ensures a * d <= b * d
  {
    if a < b { MulStep(a, b, d); }
  }

  lemma {:induction false} NonidealUpdate<V>(ch: seq<seq<Item<V>>>, j: nat, c: seq<Item<V>>, ideal: nat)
    requires j < |ch|
    ensures Nonideal(ch[j := c], ideal) == Nonideal(ch, ideal) - Excess(|ch[j]|, ideal) + Excess(|c|, ideal)
  {
    if j > 0 {
      NonidealUpdate(ch[1..], j - 1, c, ideal);
      assert ch[j := c][1..] == ch[1..][j - 1 := c];
    } else {
      assert ch[j := c][1..] == ch[1..];
    }
  }

  lemma {:induction false} NonidealEmpty<V>(ch: seq<seq<Item<V>>>, ideal: nat)
    requires forall j | 0 <= j < |ch| :: ch[j] == []
    ensures Nonideal(ch, ideal) == 0
  {
    if ch != [] {
      NonidealEmpty(ch[1..], ideal);
    }
  }

  // HASH_TO_BKT is the remainder, the number of buckets being a power of two.
  lemma BktOfIsRemainder(h: nat, k: nat)
    ensures BktOf(h, Pow2(k)) == h % Pow2(k)
  {
    MaskIsMod(h, k);
  }

  // Every element is on the chain numbered by its hash value modulo the number of chains, and
  // on no other.
  ghost predicate AtRemainders<V>(hash: Key -> nat, ch: seq<seq<Item<V>>>, members: set<Item<V>>) {
    && |ch| > 0
    && (forall e | e in members :: e in ch[hash(e.key) % |ch|])
    && (forall b, e | 0 <= b < |ch| && e in ch[b] :: e in members && hash(e.key) % |ch| == b)
  }

  lemma PlacedAtRemainders<V>(hash: Key -> nat, bkts: seq<Bucket<V>>, ch: seq<seq<Item<V>>>,
                              members: set<Item<V>>, k: nat)
    requires ChainsOk(hash, bkts, ch, members) && |ch| == Pow2(k)
    ensures AtRemainders(hash, ch, members)
  {
    forall e | e in members ensures e in ch[hash(e.key) % |ch|] {
      BktOfIsRemainder(hash(e.key), k);
    }
    forall b, e | 0 <= b < |ch| && e in ch[b] ensures e in members && hash(e.key) % |ch| == b {
      var i :| 0 <= i < |ch[b]| && ch[b][i] == e;
      BktOfIsRemainder(hash(e.key), k);
    }
  }

  // A bucket of B elements splits into buckets b and b + B of 2B, and no others.
  lemma BktOfDouble(h: nat, k: nat)
    ensures var b, n := Pow2(k), BktOf(h, 2 * Pow2(k));
      (n == BktOf(h, b) || n == BktOf(h, b) + b) && Low(n, b) == BktOf(h, b)
  {
    MaskIsMod(h, k);
    assert Pow2(k + 1) == 2 * Pow2(k);
    MaskIsMod(h, k + 1);
    DoublingSplits(h, Pow2(k));
  }

  // The old bucket that feeds new bucket j.
  function Low(j: nat, b: nat): nat {
    if j < b then j else j - b
  }

  // The accounting of an expansion: multipliers and the number of non-ideal elements.
  ghost predicate Accounted<V>(bkts: seq<Bucket<V>>, ch: seq<seq<Item<V>>>, nonideal: nat, ideal: nat)
    requires ideal > 0
  {
    && |bkts| == |ch|
    && (forall j | 0 <= j < |ch| :: bkts[j].expandMult == Mult(|ch[j]|, ideal))
    && nonideal == Nonideal(ch, ideal)
  }

  // One turn of the inner loop: count, account for and link one element.
  method MoveItem<V>(hash: Key -> nat, bkts: seq<Bucket<V>>, nonideal: nat, ideal: nat, e: Item<V>,
                     ghost ch: seq<seq<Item<V>>>, ghost members: set<Item<V>>)
    returns (r: seq<Bucket<V>>, nonideal': nat, j: nat)
    requires ideal > 0 && ChainsOk(hash, bkts, ch, members) && Accounted(bkts, ch, nonideal, ideal)
    requires e !in members && e.hashv == hash(e.key)
    modifies e`hhNext, e`hhPrev, members`hhPrev
    ensures j == BktOf(hash(e.key), |ch|) && |r| == |bkts|
    ensures ChainsOk(hash, r, ch[j := [e] + ch[j]], members + {e})
    ensures Accounted(r, ch[j := [e] + ch[j]], nonideal', ideal)
  {
    hide And;
    j := BktOf(e.hashv, |bkts|);
    FirstOfChain(hash, bkts, ch, members, j);
    r := PushFront(hash, bkts, j, e, ch, members);
    nonideal' := nonideal;
    ghost var ch' := ch[j := [e] + ch[j]];
    if r[j].count > ideal {
      nonideal' := nonideal' + 1;
      if r[j].count > r[j].expandMult * ideal {
        Remultiplied(hash, r, ch', members + {e}, j, r[j].expandMult + 1);
        r := r[j := r[j].(expandMult := r[j].expandMult + 1)];
      }
    }
    AccountStep(bkts, r, ch, nonideal, nonideal', ideal, j, e);
  }

  lemma FirstOfChain<V>(hash: Key -> nat, bkts: seq<Bucket<V>>, ch: seq<seq<Item<V>>>, members: set<Item<V>>, j: nat)
    requires ChainsOk(hash, bkts, ch, members) && j < |ch|
    ensures bkts[j].hhHead == At(ch[j], 0) && bkts[j].count == |ch[j]|
    ensures Opt(At(ch[j], 0)) <= members
  {
    assert BucketOk(bkts[j], ch[j]);
  }

  // The multiplier plays no part in the shape of the chains.
  lemma Remultiplied<V>(hash: Key -> nat, bkts: seq<Bucket<V>>, ch: seq<seq<Item<V>>>, members: set<Item<V>>,
                        j: nat, m: nat)
    requires ChainsOk(hash, bkts, ch, members) && j < |bkts|
    ensures ChainsOk(hash, bkts[j := bkts[j].(expandMult := m)], ch, members)
  {
    var r := bkts[j := bkts[j].(expandMult := m)];
    forall b | 0 <= b < |ch| ensures BucketOk(r[b], ch[b]) {
      assert BucketOk(bkts[b], ch[b]);
    }
  }

  // What counting one more element in bucket j does to the accounts.
  lemma AccountStep<V>(bkts: seq<Bucket<V>>, r: seq<Bucket<V>>, ch: seq<seq<Item<V>>>,
                       nonideal: nat, nonideal': nat, ideal: nat, j: nat, e: Item<V>)
    requires ideal > 0 && Accounted(bkts, ch, nonideal, ideal) && j < |ch| && |r| == |bkts|
    requires forall b | 0 <= b < |r| && b != j :: r[b].expandMult == bkts[b].expandMult
    requires var c, m := |ch[j]| + 1, bkts[j].expandMult;
      && r[j].expandMult == m + (if c > ideal && c > m * ideal then 1 else 0)
      && nonideal' == nonideal + (if c > ideal then 1 else 0)
    ensures Accounted(r, ch[j := [e] + ch[j]], nonideal', ideal)
  {
    MultStep(|ch[j]|, ideal);
    NonidealUpdate(ch, j, [e] + ch[j], ideal);
  }

  // The first t elements of c have been put in front of the chains ch, giving ch'.
  ghost predicate Arrived<V>(hash: Key -> nat, c: seq<Item<V>>, t: nat,
                             ch: seq<seq<Item<V>>>, ch': seq<seq<Item<V>>>)
  {
    && t <= |c| && |ch'| == |ch| > 0
    && forall j | 0 <= j < |ch| :: ch'[j] == Arrivals(hash, c[..t], |ch|, j) + ch[j]
  }

  lemma ArrivedStep<V>(hash: Key -> nat, c: seq<Item<V>>, t: nat, ch: seq<seq<Item<V>>>, ch': seq<seq<Item<V>>>)
    requires t < |c| && Arrived(hash, c, t, ch, ch')
    ensures var j := BktOf(hash(c[t].key), |ch|);
      Arrived(hash, c, t + 1, ch, ch'[j := [c[t]] + ch'[j]])
  {
    assert c[..t + 1][..t] == c[..t];
  }

  // Chain c with its first t elements already moved: the rest still hang together.
  ghost predicate Pending<V>(hash: Key -> nat, c: seq<Item<V>>, t: nat)
    reads c`hhNext, c`hashv
  {
    && t <= |c| && Distinct(c)
    && (forall k {:trigger c[k].hhNext} | t <= k < |c| :: c[k].hhNext == At(c, k + 1))
    && (forall k {:trigger c[k].hashv} | 0 <= k < |c| :: c[k].hashv == hash(c[k].key))
  }

  method MoveNext<V>(hash: Key -> nat, thh: Item<V>, bkts: seq<Bucket<V>>, nonideal: nat, ideal: nat,
                     ghost c: seq<Item<V>>, ghost t: nat, ghost ch: seq<seq<Item<V>>>,
                     ghost ch1: seq<seq<Item<V>>>, ghost members: set<Item<V>>)
    returns (nxt: Item?<V>, r: seq<Bucket<V>>, nonideal': nat, ghost ch2: seq<seq<Item<V>>>)
    requires Pending(hash, c, t) && thh == At(c, t)
    requires forall x | x in c :: x !in members
    requires Arrived(hash, c, t, ch, ch1) && |ch1| == |ch|
    requires ideal > 0 && Accounted(bkts, ch1, nonideal, ideal)
    requires ChainsOk(hash, bkts, ch1, members + Elems(c[..t]))
    modifies thh`hhNext, thh`hhPrev, members`hhPrev, Elems(c[..t])`hhPrev
    ensures Pending(hash, c, t + 1) && nxt == At(c, t + 1) && |r| == |bkts|
    ensures Arrived(hash, c, t + 1, ch, ch2) && |ch2| == |ch|
    ensures Accounted(r, ch2, nonideal', ideal)
    ensures ChainsOk(hash, r, ch2, members + Elems(c[..t + 1]))
  {
    hide ChainsOk, Accounted, Arrived;
    nxt := thh.hhNext;
    ghost var moved := members + Elems(c[..t]);
    ArrivedStep(hash, c, t, ch, ch1);
    assert moved + {thh} == members + Elems(c[..t + 1]) by { assert c[..t + 1] == c[..t] + [thh]; }
    var j;
    r, nonideal', j := MoveItem(hash, bkts, nonideal, ideal, thh, ch1, moved);
    ch2 := ch1[j := [thh] + ch1[j]];
  }

  // The inner loop of HASH_EXPAND_BUCKETS: move one old chain c into the new buckets.
  method MoveChain<V>(hash: Key -> nat, first: Item?<V>, bkts: seq<Bucket<V>>, nonideal: nat, ideal: nat,
                      ghost c: seq<Item<V>>, ghost ch: seq<seq<Item<V>>>, ghost members: set<Item<V>>)
    returns (r: seq<Bucket<V>>, nonideal': nat, ghost ch': seq<seq<Item<V>>>)
    requires Pending(hash, c, 0) && first == At(c, 0)
    requires forall x | x in c :: x !in members
    requires ideal > 0 && Accounted(bkts, ch, nonideal, ideal)
    requires ChainsOk(hash, bkts, ch, members)
    modifies c`hhNext, c`hhPrev, members`hhPrev
    ensures Arrived(hash, c, |c|, ch, ch') && |r| == |bkts| && |ch'| == |ch|
    ensures Accounted(r, ch', nonideal', ideal)
    ensures ChainsOk(hash, r, ch', members + Elems(c))
  {
    r, nonideal', ch' := bkts, nonideal, ch;
    var thh := first;
    ghost var t := 0;
    NothingMoved(hash, c, ch, members);
    while thh != null
      invariant Pending(hash, c, t) && thh == At(c, t) && |r| == |bkts|
      invariant Arrived(hash, c, t, ch, ch') && |ch'| == |ch|
      invariant Accounted(r, ch', nonideal', ideal)
      invariant ChainsOk(hash, r, ch', members + Elems(c[..t]))
      decreases |c| - t
    {
      thh, r, nonideal', ch' := MoveNext(hash, thh, r, nonideal', ideal, c, t, ch, ch', members);
      t := t + 1;
    }
    AllMoved(c);
  }

  lemma NothingMoved<V>(hash: Key -> nat, c: seq<Item<V>>, ch: seq<seq<Item<V>>>, members: set<Item<V>>)
    requires |ch| > 0
    ensures members + Elems(c[..0]) == members
    ensures Arrived(hash, c, 0, ch, ch)
  {
  }

  lemma AllMoved<T>(c: seq<T>)
    ensures Elems(c[..|c|]) == Elems(c)
  {
    assert c[..|c|] == c;
  }

  // Those of members whose bucket among b is below i.
  ghost function Below<V>(hash: Key -> nat, members: set<Item<V>>, b: nat, i: nat): (r: set<Item<V>>)
    requires b > 0
    ensures r <= members
  {
    set e | e in members && BktOf(hash(e.key), b) < i
  }

  // new chain j is what old chain Low(j) sends there, for the old chains below i.
  ghost predicate SplitUpTo<V>(hash: Key -> nat, ch: seq<seq<Item<V>>>, i: nat, nch: seq<seq<Item<V>>>) {
    && |nch| == 2 * |ch| > 0
    && forall j | 0 <= j < |nch| ::
         nch[j] == if Low(j, |ch|) < i then Arrivals(hash, ch[Low(j, |ch|)], |nch|, j) else []
  }

  lemma {:induction false} NoArrivals<V>(hash: Key -> nat, c: seq<Item<V>>, n: nat, j: nat)
    requires n > 0 && forall x | x in c :: BktOf(hash(x.key), n) != j
    ensures Arrivals(hash, c, n, j) == []
  {
    if c != [] {
      NoArrivals(hash, c[..|c| - 1], n, j);
    }
  }

  // Moving old chain i touches only the new chains it feeds.
  lemma SplitStep<V>(hash: Key -> nat, ch: seq<seq<Item<V>>>, members: set<Item<V>>, k: nat, i: nat,
                     nch: seq<seq<Item<V>>>, nch': seq<seq<Item<V>>>)
    requires |ch| == Pow2(k) && Placed(hash, ch, members) && i < |ch|
    requires SplitUpTo(hash, ch, i, nch) && Arrived(hash, ch[i], |ch[i]|, nch, nch')
    ensures SplitUpTo(hash, ch, i + 1, nch')
  {
    var n := |nch|;
    assert ch[i][..|ch[i]|] == ch[i];
    forall j | 0 <= j < n
      ensures nch'[j] == if Low(j, |ch|) < i + 1 then Arrivals(hash, ch[Low(j, |ch|)], n, j) else []
    {
      if Low(j, |ch|) != i {
        forall x | x in ch[i] ensures BktOf(hash(x.key), n) != j {
          var t :| 0 <= t < |ch[i]| && ch[i][t] == x;
          assert BktOf(hash(x.key), |ch|) == i;
          BktOfDouble(hash(x.key), k);
        }
        NoArrivals(hash, ch[i], n, j);
      }
    }
  }

  lemma BelowStep<V>(hash: Key -> nat, ch: seq<seq<Item<V>>>, members: set<Item<V>>, i: nat)
    requires |ch| > 0 && Placed(hash, ch, members) && i < |ch|
    ensures Below(hash, members, |ch|, i) + Elems(ch[i]) == Below(hash, members, |ch|, i + 1)
    ensures forall x | x in ch[i] :: x !in Below(hash, members, |ch|, i) && x in members
  {
    forall x | x in ch[i] ensures x in members && BktOf(hash(x.key), |ch|) == i {
      var t :| 0 <= t < |ch[i]| && ch[i][t] == x;
    }
  }

  // The old chains from bucket i on, not yet touched.
  ghost predicate Left<V>(hash: Key -> nat, bkts: seq<Bucket<V>>, ch: seq<seq<Item<V>>>, members: set<Item<V>>, i: nat)
    reads members`hhNext, members`hashv
  {
    && |bkts| == |ch| > 0 && Placed(hash, ch, members)
    && (forall b | i <= b < |ch| :: bkts[b].hhHead == At(ch[b], 0))
    && (forall b | i <= b < |ch| :: Pending(hash, ch[b], 0))
  }

  // Between two turns of the outer loop of HASH_EXPAND_BUCKETS.
  ghost predicate Rehashing<V>(hash: Key -> nat, bkts: seq<Bucket<V>>, i: nat, r: seq<Bucket<V>>,
                               nonideal: nat, ideal: nat,
                               k: nat, ch: seq<seq<Item<V>>>, members: set<Item<V>>, nch: seq<seq<Item<V>>>)
    reads members`hhNext, members`hhPrev, members`hashv
  {
    && ideal > 0 && |bkts| == |ch| == Pow2(k) && |r| == |nch| == 2 * |ch|
    && Left(hash, bkts, ch, members, i)
    && SplitUpTo(hash, ch, i, nch)
    && Accounted(r, nch, nonideal, ideal)
    && ChainsOk(hash, r, nch, Below(hash, members, |ch|, i))
  }

  // One turn of the outer loop of HASH_EXPAND_BUCKETS.
  method MoveBucket<V>(hash: Key -> nat, bkts: seq<Bucket<V>>, i: nat,
                       r0: seq<Bucket<V>>, nonideal0: nat, ideal: nat, ghost k: nat,
                       ghost ch: seq<seq<Item<V>>>, ghost members: set<Item<V>>, ghost nch0: seq<seq<Item<V>>>)
    returns (r: seq<Bucket<V>>, nonideal: nat, ghost nch: seq<seq<Item<V>>>)
    requires Rehashing(hash, bkts, i, r0, nonideal0, ideal, k, ch, members, nch0) && i < |ch|
    modifies members`hhNext, members`hhPrev
    ensures Rehashing(hash, bkts, i + 1, r, nonideal, ideal, k, ch, members, nch)
  {
    hide ChainsOk, Accounted, Arrived, SplitUpTo, Placed, And, Below;
    ghost var moved := Below(hash, members, |ch|, i);
    BelowStep(hash, ch, members, i);
    r, nonideal, nch := MoveChain(hash, bkts[i].hhHead, r0, nonideal0, ideal, ch[i], nch0, moved);
    SplitStep(hash, ch, members, k, i, nch0, nch);
    forall b | i + 1 <= b < |ch| ensures Pending(hash, ch[b], 0) {
      assert old(Pending(hash, ch[b], 0));
      StillApart(hash, ch, members, i, b);
      assert forall t | 0 <= t < |ch[b]| :: ch[b][t].hhNext == old(ch[b][t].hhNext);
    }
  }

  lemma StillApart<V>(hash: Key -> nat, ch: seq<seq<Item<V>>>, members: set<Item<V>>, i: nat, b: nat)
    requires |ch| > 0 && Placed(hash, ch, members) && i < b < |ch|
    ensures forall t | 0 <= t < |ch[b]| :: ch[b][t] !in Below(hash, members, |ch|, i) && ch[b][t] !in ch[i]
  {
    BelowStep(hash, ch, members, i);
    ChainsApart(hash, ch, members, b, i);
    forall t | 0 <= t < |ch[b]| ensures ch[b][t] !in Below(hash, members, |ch|, i) && ch[b][t] !in ch[i] {
      assert BktOf(hash(ch[b][t].key), |ch|) == b;
    }
  }

  // The two nested loops of HASH_EXPAND_BUCKETS, from zeroed buckets.
  method Redistribute<V>(hash: Key -> nat, bkts: seq<Bucket<V>>, ideal: nat,
                         ghost k: nat, ghost ch: seq<seq<Item<V>>>, ghost members: set<Item<V>>)
    returns (r: seq<Bucket<V>>, nonideal: nat, ghost nch: seq<seq<Item<V>>>)
    requires ChainsOk(hash, bkts, ch, members) && |bkts| == Pow2(k) && ideal > 0
    requires forall e | e in members :: e.hashv == hash(e.key)
    modifies members`hhNext, members`hhPrev
    ensures SplitUpTo(hash, ch, |ch|, nch) && |r| == |nch| == 2 * |bkts| == 2 * |ch|
    ensures ChainsOk(hash, r, nch, members)
    ensures AtRemainders(hash, nch, members)
    ensures Accounted(r, nch, nonideal, ideal)
  {
    hide ChainsOk, Accounted, SplitUpTo, Left, AtRemainders;
    var zeroed: seq<Bucket<V>> := seq(2 * |bkts|, _ => Bucket(null, 0, 0));
    ghost var none: seq<seq<Item<V>>> := seq(2 * |bkts|, _ => []);
    ChainsLeft(hash, bkts, ch, members);
    ZeroedBuckets(hash, zeroed, ideal, ch, members, none);
    r, nonideal, nch := RedistributeLoop(hash, bkts, zeroed, ideal, k, ch, members, none);
    AllBelow(hash, members, |ch|);
    assert |nch| == Pow2(k + 1);
    PlacedAtRemainders(hash, r, nch, members, k + 1);
  }

  method RedistributeLoop<V>(hash: Key -> nat, bkts: seq<Bucket<V>>, zeroed: seq<Bucket<V>>, ideal: nat, ghost k: nat,
                             ghost ch: seq<seq<Item<V>>>, ghost members: set<Item<V>>, ghost none: seq<seq<Item<V>>>)
    returns (r: seq<Bucket<V>>, nonideal: nat, ghost nch: seq<seq<Item<V>>>)
    requires Rehashing(hash, bkts, 0, zeroed, 0, ideal, k, ch, members, none)
    modifies members`hhNext, members`hhPrev
    ensures Rehashing(hash, bkts, |ch|, r, nonideal, ideal, k, ch, members, nch)
  {
    r, nonideal, nch := zeroed, 0, none;
    for i := 0 to |bkts|
      invariant Rehashing(hash, bkts, i, r, nonideal, ideal, k, ch, members, nch)
    {
      r, nonideal, nch := MoveBucket(hash, bkts, i, r, nonideal, ideal, k, ch, members, nch);
    }
  }

  lemma AllBelow<V>(hash: Key -> nat, members: set<Item<V>>, b: nat)
    requires b > 0
    ensures Below(hash, members, b, b) == members
  {
  }

  lemma ZeroedBuckets<V>(hash: Key -> nat, r: seq<Bucket<V>>, ideal: nat, ch: seq<seq<Item<V>>>,
                         members: set<Item<V>>, nch: seq<seq<Item<V>>>)
    requires ideal > 0 && |r| == |nch| == 2 * |ch| > 0
    requires forall b | 0 <= b < |r| :: r[b] == Bucket(null, 0, 0)
    requires forall b | 0 <= b < |nch| :: nch[b] == []
    ensures SplitUpTo(hash, ch, 0, nch)
    ensures Accounted(r, nch, 0, ideal)
    ensures ChainsOk(hash, r, nch, Below(hash, members, |ch|, 0))
  {
    NonidealEmpty(nch, ideal);
    assert Mult(0, ideal) == 0;
    assert Below(hash, members, |ch|, 0) == {};
  }

  lemma ChainsLeft<V>(hash: Key -> nat, bkts: seq<Bucket<V>>, ch: seq<seq<Item<V>>>, members: set<Item<V>>)
    requires ChainsOk(hash, bkts, ch, members)
    requires forall e | e in members :: e.hashv == hash(e.key)
    ensures Left(hash, bkts, ch, members, 0) && |bkts| == |ch|
  {
    forall b | 0 <= b < |ch| ensures Pending(hash, ch[b], 0) {
      assert BucketOk(bkts[b], ch[b]);
    }
  }

  // ---------- HASH_SRT: bottom-up merge sort of the application-order list ----------

  // Elements a up to b of the list l, still linked forward as they were.
  ghost predicate Intact<V>(l: seq<Item<V>>, a: int, b: int)
    reads l`next
  {
    0 <= a <= b <= |l| && forall j {:trigger l[j].next} | a <= j < b :: l[j].next == At(l, j + 1)
  }

  // The list built so far; the next field of its last element is still to be set.
  ghost predicate Built<V>(out: seq<Item<V>>, list: Item?<V>, tail: Item?<V>)
    reads out`next, out`prev
  {
    && list == At(out, 0) && tail == At(out, |out| - 1) && Distinct(out)
    && (forall i {:trigger out[i].next} | 0 <= i < |out| - 1 :: out[i].next == out[i + 1])
    && (forall i {:trigger out[i].prev} | 0 <= i < |out| :: out[i].prev == At(out, i - 1))
  }

  // out is built from the elements of l before i.
  ghost predicate BuiltFrom<V>(l: seq<Item<V>>, i: int, out: seq<Item<V>>, list: Item?<V>, tail: Item?<V>)
    requires 0 <= i <= |l|
    reads out`next, out`prev
  {
    Built(out, list, tail) && forall x | x in out :: x in l && x !in l[i..]
  }

  // The end of a pass: the last element points nowhere.
  method Terminate<V>(tail: Item?<V>, ghost list: Item?<V>, ghost out: seq<Item<V>>, ghost l: seq<Item<V>>)
    requires BuiltFrom(l, |l|, out, list, tail)
    modifies Opt(tail)`next
    ensures AppLinked(out) && Distinct(out) && list == At(out, 0) && tail == At(out, |out| - 1)
  {
    if tail != null {
      tail.next := null;
    }
  }

  method Emit<V>(e: Item<V>, list0: Item?<V>, tail0: Item?<V>, ghost out: seq<Item<V>>)
    returns (list: Item?<V>, tail: Item?<V>)
    requires Built(out, list0, tail0) && e !in out
    modifies Opt(tail0)`next, e`prev
    ensures Built(out + [e], list, tail)
  {
    list := list0;
    if tail0 != null {
      tail0.next := e;
    } else {
      list := e;
    }
    e.prev := tail0;
    tail := e;
  }

  // Between two steps of a merge of l[pi..pe] with l[qi..qe] onto out.
  ghost predicate Merging<V>(cmp: (Item<V>, Item<V>) -> int, l: seq<Item<V>>,
                             pi: int, pe: int, qi: int, qe: int, out: seq<Item<V>>, target: seq<Item<V>>)
    reads l`next
  {
    && Distinct(l) && Intact(l, pi, pe) && Intact(l, qi, |l|) && pe <= qi <= qe <= |l|
    && (forall x | x in out :: x !in l[pi..pe] && x !in l[qi..])
    && (forall x | x in out :: x in l)
    && out + Merge(Le(cmp), l[pi..pe], l[qi..qe]) == target
  }

  method AdvanceRun<V>(p: Item<V>, insize: nat, ghost l: seq<Item<V>>, ghost i: nat)
    returns (q: Item?<V>, psize: nat)
    requires Intact(l, i, |l|) && i < |l| && p == l[i] && insize > 0
    ensures psize == if i + insize < |l| then insize else |l| - i
    ensures q == At(l, i + psize)
  {
    q, psize := p, 0;
    for k := 0 to insize
      invariant psize == k && i + k < |l| && q == l[i + k]
    {
      psize := psize + 1;
      q := q.next;
      if q == null {
        break;
      }
    }
  }

  // The bounds of the two runs, as the pointers and counters of the C code show them.
  ghost predicate Cursors<V>(l: seq<Item<V>>, pi: int, pe: int, qi: int, qe: int,
                             p: Item?<V>, psize: nat, q: Item?<V>, qsize: nat)
  {
    && 0 <= pi <= pe <= qi <= qe <= |l|
    && p == At(l, pi) && psize == pe - pi
    && q == At(l, qi) && qe == if qi + qsize < |l| then qi + qsize else |l|
  }

  lemma TakeLeft<V>(cmp: (Item<V>, Item<V>) -> int, l: seq<Item<V>>, pi: int, pe: int, qi: int, qe: int,
                    out: seq<Item<V>>, target: seq<Item<V>>)
    requires Merging(cmp, l, pi, pe, qi, qe, out, target) && pi < pe
    requires qi == qe || Le(cmp)(l[pi], l[qi])
    ensures Merging(cmp, l, pi + 1, pe, qi, qe, out + [l[pi]], target)
    ensures l[pi] !in out && l[pi] in l && l[pi].next == At(l, pi + 1)
    ensures forall j | (pi < j < pe || qi <= j < |l|) :: l[j] !in out
  {
    var p, q := l[pi..pe], l[qi..qe];
    assert l[pi + 1..pe] == p[1..] && p[0] == l[pi];
    assert Merge(Le(cmp), p, q) == [l[pi]] + Merge(Le(cmp), p[1..], q);
    assert out + [l[pi]] + Merge(Le(cmp), p[1..], q) == target;
    RestApart(l, pi, pe, qi, out);
  }

  lemma TakeRight<V>(cmp: (Item<V>, Item<V>) -> int, l: seq<Item<V>>, pi: int, pe: int, qi: int, qe: int,
                     out: seq<Item<V>>, target: seq<Item<V>>)
    requires Merging(cmp, l, pi, pe, qi, qe, out, target) && qi < qe
    requires pi == pe || !Le(cmp)(l[pi], l[qi])
    ensures Merging(cmp, l, pi, pe, qi + 1, qe, out + [l[qi]], target)
    ensures l[qi] !in out && l[qi] in l && l[qi].next == At(l, qi + 1)
    ensures forall j | (pi <= j < pe || qi < j < |l|) :: l[j] !in out
  {
    var p, q := l[pi..pe], l[qi..qe];
    assert l[qi + 1..qe] == q[1..] && q[0] == l[qi];
    assert Merge(Le(cmp), p, q) == [l[qi]] + Merge(Le(cmp), p, q[1..]);
    assert out + [l[qi]] + Merge(Le(cmp), p, q[1..]) == target;
    RestApart(l, pi, pe, qi, out);
  }

  lemma RestApart<V>(l: seq<Item<V>>, pi: int, pe: int, qi: int, out: seq<Item<V>>)
    requires 0 <= pi <= pe <= qi <= |l|
    requires forall x | x in out :: x !in l[pi..pe] && x !in l[qi..]
    ensures forall j | pi <= j < pe || qi <= j < |l| :: l[j] !in out
  {
    forall j | pi <= j < pe || qi <= j < |l| ensures l[j] !in out {
      if j < pe {
        assert l[pi..pe][j - pi] == l[j];
      } else {
        assert l[qi..][j - qi] == l[j];
      }
    }
  }

  // One turn of the innermost loop of HASH_SRT.
  method MergeOne<V>(cmp: (Item<V>, Item<V>) -> int, p0: Item?<V>, psize0: nat, q0: Item?<V>, qsize0: nat,
                     list0: Item?<V>, tail0: Item?<V>, ghost l: seq<Item<V>>,
                     ghost pi0: int, ghost pe: int, ghost qi0: int, ghost qe: int,
                     ghost out0: seq<Item<V>>, ghost target: seq<Item<V>>)
    returns (p: Item?<V>, psize: nat, q: Item?<V>, qsize: nat, list: Item?<V>, tail: Item?<V>,
             ghost pi: int, ghost qi: int, ghost out: seq<Item<V>>)
    requires Merging(cmp, l, pi0, pe, qi0, qe, out0, target) && Built(out0, list0, tail0)
    requires Cursors(l, pi0, pe, qi0, qe, p0, psize0, q0, qsize0)
    requires psize0 != 0 || (qsize0 != 0 && q0 != null)
    modifies Elems(l)`next, Elems(l)`prev
    ensures Merging(cmp, l, pi, pe, qi, qe, out, target) && Built(out, list, tail)
    ensures Cursors(l, pi, pe, qi, qe, p, psize, q, qsize)
    ensures pe - pi + qe - qi == pe - pi0 + qe - qi0 - 1
  {
    hide Merging, Built;
    p, psize, q, qsize, pi, qi := p0, psize0, q0, qsize0, pi0, qi0;
    var e;
    if psize == 0 {
      TakeRight(cmp, l, pi0, pe, qi0, qe, out0, target);
      e := q;
      q := q.next;
      qsize := qsize - 1;
      qi := qi + 1;
    } else if qsize == 0 || q == null {
      TakeLeft(cmp, l, pi0, pe, qi0, qe, out0, target);
      e := p;
      p := p.next;
      psize := psize - 1;
      pi := pi + 1;
    } else if cmp(p, q) <= 0 {
      TakeLeft(cmp, l, pi0, pe, qi0, qe, out0, target);
      e := p;
      p := p.next;
      psize := psize - 1;
      pi := pi + 1;
    } else {
      TakeRight(cmp, l, pi0, pe, qi0, qe, out0, target);
      e := q;
      q := q.next;
      qsize := qsize - 1;
      qi := qi + 1;
    }
    out := out0 + [e];
    list, tail := EmitMerging(cmp, e, list0, tail0, l, pi, pe, qi, qe, out0, target);
  }

  // Emit changes nothing that the rest of the merge depends on.
  method EmitMerging<V>(cmp: (Item<V>, Item<V>) -> int, e: Item<V>, list0: Item?<V>, tail0: Item?<V>,
                        ghost l: seq<Item<V>>, ghost pi: int, ghost pe: int, ghost qi: int, ghost qe: int,
                        ghost out0: seq<Item<V>>, ghost target: seq<Item<V>>)
    returns (list: Item?<V>, tail: Item?<V>)
    requires Built(out0, list0, tail0) && e !in out0 && e in l
    requires Merging(cmp, l, pi, pe, qi, qe, out0 + [e], target)
    requires forall j | (pi <= j < pe || qi <= j < |l|) :: l[j] !in out0
    modifies Elems(l)`next, Elems(l)`prev
    ensures Built(out0 + [e], list, tail)
    ensures Merging(cmp, l, pi, pe, qi, qe, out0 + [e], target)
  {
    hide Merge;
    assert tail0 != null ==> tail0 in out0 && tail0 in out0 + [e];
    list, tail := Emit(e, list0, tail0, out0);
  }

  lemma StartMerge<V>(cmp: (Item<V>, Item<V>) -> int, l: seq<Item<V>>, i: nat, insize: nat,
                      out: seq<Item<V>>, list: Item?<V>, tail: Item?<V>)
    requires insize > 0 && i < |l| && Distinct(l) && Intact(l, i, |l|) && BuiltFrom(l, i, out, list, tail)
    ensures var m := if i + insize < |l| then i + insize else |l|;
      var e := if i + 2 * insize < |l| then i + 2 * insize else |l|;
      Merging(cmp, l, i, m, m, e, out,
              out + Merge(Le(cmp), FirstRun(l[i..], insize), SecondRun(l[i..], insize)))
  {
    RunsAre(l, i, insize);
    StartApart(l, i, if i + insize < |l| then i + insize else |l|, out);
  }

  lemma EndMerge<V>(cmp: (Item<V>, Item<V>) -> int, l: seq<Item<V>>, pe: int, qe: int,
                    out: seq<Item<V>>, target: seq<Item<V>>)
    requires Merging(cmp, l, pe, pe, qe, qe, out, target)
    ensures out == target && forall x | x in out :: x in l && x !in l[qe..]
  {
    assert Merge(Le(cmp), l[pe..pe], l[qe..qe]) == [];
  }

  // The innermost loop of HASH_SRT.
  method MergeLoop<V>(cmp: (Item<V>, Item<V>) -> int, p0: Item<V>, psize0: nat, q0: Item?<V>, insize: nat,
                      list0: Item?<V>, tail0: Item?<V>, ghost l: seq<Item<V>>,
                      ghost i: int, ghost m: int, ghost e: int,
                      ghost out0: seq<Item<V>>, ghost target: seq<Item<V>>)
    returns (q: Item?<V>, list: Item?<V>, tail: Item?<V>, ghost out: seq<Item<V>>)
    requires Merging(cmp, l, i, m, m, e, out0, target) && Built(out0, list0, tail0)
    requires Cursors(l, i, m, m, e, p0, psize0, q0, insize)
    modifies Elems(l)`next, Elems(l)`prev
    ensures Merging(cmp, l, m, m, e, e, out, target) && Built(out, list, tail)
    ensures q == At(l, e)
  {
    var p: Item?<V>, psize: nat, qsize: nat := p0, psize0, insize;
    q, list, tail, out := q0, list0, tail0, out0;
    ghost var pi, qi := i, m;
    while psize != 0 || (qsize != 0 && q != null)
      invariant Merging(cmp, l, pi, m, qi, e, out, target)
      invariant Built(out, list, tail)
      invariant Cursors(l, pi, m, qi, e, p, psize, q, qsize)
      decreases m - pi + e - qi
    {
      p, psize, q, qsize, list, tail, pi, qi, out :=
        MergeOne(cmp, p, psize, q, qsize, list, tail, l, pi, m, qi, e, out, target);
    }
  }

  // The merge of two adjacent runs, the first starting at p.
  method MergeRuns<V>(cmp: (Item<V>, Item<V>) -> int, p0: Item<V>, insize: nat, list0: Item?<V>, tail0: Item?<V>,
                      ghost l: seq<Item<V>>, ghost i: nat, ghost out0: seq<Item<V>>)
    returns (q: Item?<V>, list: Item?<V>, tail: Item?<V>, ghost i': nat, ghost out: seq<Item<V>>)
    requires insize > 0 && i < |l| && p0 == l[i] && Distinct(l) && Intact(l, i, |l|)
    requires BuiltFrom(l, i, out0, list0, tail0)
    modifies Elems(l)`next, Elems(l)`prev
    ensures i < i' <= |l| && Intact(l, i', |l|) && q == At(l, i')
    ensures i' == if i + 2 * insize < |l| then i + 2 * insize else |l|
    ensures BuiltFrom(l, i', out, list, tail)
    ensures out == out0 + Merge(Le(cmp), FirstRun(l[i..], insize), SecondRun(l[i..], insize))
  {
    var psize;
    q, psize := AdvanceRun(p0, insize, l, i);
    StartMerge(cmp, l, i, insize, out0, list0, tail0);
    ghost var m := if i + insize < |l| then i + insize else |l|;
    ghost var e := if i + 2 * insize < |l| then i + 2 * insize else |l|;
    ghost var target := out0 + Merge(Le(cmp), FirstRun(l[i..], insize), SecondRun(l[i..], insize));
    q, list, tail, out := MergeLoop(cmp, p0, psize, q, insize, list0, tail0, l, i, m, e, out0, target);
    i' := e;
    EndMerge(cmp, l, m, e, out, target);
  }

  ghost function FirstRun<T>(s: seq<T>, n: nat): seq<T> {
    if |s| <= n then s else s[..n]
  }

  ghost function SecondRun<T>(s: seq<T>, n: nat): seq<T> {
    if |s| <= n then [] else if |s| <= 2 * n then s[n..] else s[n..2 * n]
  }

  lemma RunsAre<T>(l: seq<T>, i: nat, n: nat)
    requires i < |l|
    ensures var m, e := if i + n < |l| then i + n else |l|, if i + 2 * n < |l| then i + 2 * n else |l|;
      FirstRun(l[i..], n) == l[i..m] && SecondRun(l[i..], n) == l[m..e]
  {
    var m, e := if i + n < |l| then i + n else |l|, if i + 2 * n < |l| then i + 2 * n else |l|;
    if i + n < |l| {
      SliceOfDrop(l, i, 0, n);
      SliceOfDrop(l, i, n, e - i);
    }
  }

  lemma SliceOfDrop<T>(l: seq<T>, i: nat, a: nat, b: nat)
    requires a <= b <= |l| - i && i <= |l|
    ensures l[i..][a..b] == l[i + a..i + b]
  {
  }

  lemma StartApart<V>(l: seq<Item<V>>, a: nat, b: nat, out: seq<Item<V>>)
    requires a <= b <= |l| && forall x | x in out :: x !in l[a..]
    ensures forall x | x in out :: x !in l[a..b] && x !in l[b..]
  {
    assert l[a..b] == l[a..][..b - a] && l[b..] == l[a..][b - a..];
  }

  // After nmerges merges of a pass over l: the elements before i are on out, in order.
  ghost predicate Passing<V>(cmp: (Item<V>, Item<V>) -> int, l: seq<Item<V>>, insize: nat,
                             i: nat, nmerges: nat, out: seq<Item<V>>)
  {
    && insize > 0 && i <= |l|
    && out + Pass(Le(cmp), l[i..], insize) == Pass(Le(cmp), l, insize)
    && (nmerges == 0 ==> i == 0)
    && (nmerges == 1 ==> i == if 2 * insize < |l| then 2 * insize else |l|)
    && (nmerges >= 2 ==> |l| > 2 * insize)
  }

  lemma PassStep<V>(cmp: (Item<V>, Item<V>) -> int, l: seq<Item<V>>, insize: nat,
                    i: nat, nmerges: nat, out: seq<Item<V>>, i': nat)
    requires Passing(cmp, l, insize, i, nmerges, out) && i < |l|
    requires i' == if i + 2 * insize < |l| then i + 2 * insize else |l|
    ensures Passing(cmp, l, insize, i', nmerges + 1,
                    out + Merge(Le(cmp), FirstRun(l[i..], insize), SecondRun(l[i..], insize)))
  {
    var s, le := l[i..], Le(cmp);
    var m := Merge(le, FirstRun(s, insize), SecondRun(s, insize));
    assert l[i'..] == if |s| <= 2 * insize then [] else s[2 * insize..];
    assert Pass(le, s, insize) == m + Pass(le, l[i'..], insize);
    assert out + (m + Pass(le, l[i'..], insize)) == (out + m) + Pass(le, l[i'..], insize);
  }

  lemma StartPass<V>(cmp: (Item<V>, Item<V>) -> int, l: seq<Item<V>>, insize: nat)
    requires insize > 0
    ensures Passing(cmp, l, insize, 0, 0, [])
    ensures BuiltFrom(l, 0, [], null, null)
  {
    assert l[0..] == l;
    assert [] + Pass(Le(cmp), l, insize) == Pass(Le(cmp), l, insize);
  }

  lemma EndPass<V>(cmp: (Item<V>, Item<V>) -> int, l: seq<Item<V>>, insize: nat, nmerges: nat, out: seq<Item<V>>)
    requires Passing(cmp, l, insize, |l|, nmerges, out) && l != []
    ensures out == Pass(Le(cmp), l, insize)
    ensures nmerges <= 1 <==> |l| <= 2 * insize
  {
    assert l[|l|..] == [];
  }

  lemma TailIsOurs<V>(l: seq<Item<V>>, i: nat, out: seq<Item<V>>, list: Item?<V>, tail: Item?<V>)
    requires i <= |l| && BuiltFrom(l, i, out, list, tail)
    ensures tail != null ==> tail in l
  {
    assert tail != null ==> tail in out;
  }

  // One merge of a pass: MergeRuns, with its place in the pass.
  method PassMerge<V>(cmp: (Item<V>, Item<V>) -> int, p: Item<V>, insize: nat, list0: Item?<V>, tail0: Item?<V>,
                      nmerges: nat, ghost l: seq<Item<V>>, ghost i: nat, ghost out0: seq<Item<V>>)
    returns (q: Item?<V>, list: Item?<V>, tail: Item?<V>, ghost i': nat, ghost out: seq<Item<V>>)
    requires Passing(cmp, l, insize, i, nmerges, out0) && i < |l| && p == l[i]
    requires Distinct(l) && Intact(l, i, |l|)
    requires BuiltFrom(l, i, out0, list0, tail0)
    modifies Elems(l)`next, Elems(l)`prev
    ensures Passing(cmp, l, insize, i', nmerges + 1, out)
    ensures i < i' && q == At(l, i') && Intact(l, i', |l|)
    ensures BuiltFrom(l, i', out, list, tail)
  {
    q, list, tail, i', out := MergeRuns(cmp, p, insize, list0, tail0, l, i, out0);
    PassStep(cmp, l, insize, i, nmerges, out0, i');
  }

  // The middle loop of HASH_SRT.
  method PassLoop<V>(cmp: (Item<V>, Item<V>) -> int, first: Item<V>, insize: nat, ghost l: seq<Item<V>>)
    returns (list: Item?<V>, tail: Item?<V>, nmerges: nat, ghost out: seq<Item<V>>)
    requires insize > 0 && l != [] && first == l[0] && Distinct(l) && Intact(l, 0, |l|)
    modifies Elems(l)`next, Elems(l)`prev
    ensures Passing(cmp, l, insize, |l|, nmerges, out)
    ensures BuiltFrom(l, |l|, out, list, tail)
  {
    var p: Item?<V> := first;
    list, tail, nmerges, out := null, null, 0, [];
    ghost var i: nat := 0;
    StartPass(cmp, l, insize);
    while p != null
      invariant i <= |l| && p == At(l, i)
      invariant Passing(cmp, l, insize, i, nmerges, out)
      invariant Intact(l, i, |l|)
      invariant BuiltFrom(l, i, out, list, tail)
      decreases |l| - i
    {
      p, list, tail, i, out := PassMerge(cmp, p, insize, list, tail, nmerges, l, i, out);
      nmerges := nmerges + 1;
    }
  }

  // One pass of HASH_SRT over the list l, which starts at first.
  method SortPass<V>(cmp: (Item<V>, Item<V>) -> int, first: Item<V>, insize: nat, ghost l: seq<Item<V>>)
    returns (list: Item?<V>, tail: Item?<V>, nmerges: nat, ghost out: seq<Item<V>>)
    requires insize > 0 && l != [] && first == l[0] && Distinct(l) && Intact(l, 0, |l|)
    modifies Elems(l)`next, Elems(l)`prev
    ensures out == Pass(Le(cmp), l, insize)
    ensures list == At(out, 0) && tail == At(out, |out| - 1) && AppLinked(out) && Distinct(out)
    ensures nmerges <= 1 <==> |l| <= 2 * insize
  {
    hide Passing, Pass, BuiltFrom, Intact, AppLinked;
    list, tail, nmerges, out := PassLoop(cmp, first, insize, l);
    EndPass(cmp, l, insize, nmerges, out);
    TailIsOurs(l, |l|, out, list, tail);
    Terminate(tail, list, out, l);
  }
}
