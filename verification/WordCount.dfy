// Counting words two ways: sequentially into a hash table (lab/lab8.c), and with the map-reduce
// job of lecture/test3/src/map_and_reduce.c. Both come to the same list.
module WordCount {
  import opened Bits
  import opened Bytes
  import opened StableSort
  import opened UtHash
  import opened HashTables
  import opened KeyOrder
  import opened Workers
  import opened Groups
  import opened StoreSteps
  import HashRuns
  import Mapping
  import opened MapReduce

  datatype Count = Count(word: Str, n: nat)

  // What a word count is: the words that occur, ascending, each with its number of occurrences.
  ghost predicate IsWordCount(words: seq<Str>, cs: seq<Count>) {
    && (forall i, j | 0 <= i < j < |cs| :: StrCmp(cs[i].word, cs[j].word) < 0)
    && (forall i | 0 <= i < |cs| :: cs[i].n == multiset(words)[cs[i].word] > 0)
    && (forall i | 0 <= i < |words| :: HasWord(cs, words[i]))
  }

  ghost predicate HasWord(cs: seq<Count>, w: Str) {
    exists i :: 0 <= i < |cs| && cs[i].word == w
  }

  function WordsOf(cs: seq<Count>): (ws: seq<Str>)
    ensures |ws| == |cs| && forall i | 0 <= i < |cs| :: ws[i] == cs[i].word
  {
    seq(|cs|, i requires 0 <= i < |cs| => cs[i].word)
  }

  // There is only one.
  lemma WordCountUnique(words: seq<Str>, a: seq<Count>, b: seq<Count>)
    requires IsWordCount(words, a) && IsWordCount(words, b)
    ensures a == b
  {
    SameWords(words, a, b);
    SameWords(words, b, a);
    AscendingUnique(WordsOf(a), WordsOf(b));
    forall i | 0 <= i < |a| ensures a[i] == b[i] {
      assert WordsOf(a)[i] == WordsOf(b)[i];
    }
  }

  lemma SameWords(words: seq<Str>, a: seq<Count>, b: seq<Count>)
    requires IsWordCount(words, a) && IsWordCount(words, b)
    ensures forall x | x in WordsOf(a) :: x in WordsOf(b)
  {
    forall i | 0 <= i < |a| ensures WordsOf(a)[i] in WordsOf(b) {
      var w := a[i].word;
      assert w in multiset(words);
      var k: nat :| k < |words| && words[k] == w;
      assert HasWord(b, words[k]);
      var j :| 0 <= j < |b| && b[j].word == w;
      assert WordsOf(b)[j] == w;
    }
  }

  // ---------- lab/lab8.c ----------

  type CountMap = HashTable<nat>

  ghost function CountsIn(o: seq<Item<nat>>): (cs: seq<Count>)
    reads o`value
    ensures |cs| == |o| && forall i | 0 <= i < |o| :: cs[i] == Count(o[i].key, o[i].value)
  {
    if o == [] then [] else CountsIn(o[..|o| - 1]) + [Count(o[|o| - 1].key, o[|o| - 1].value)]
  }

  // The counts are those of the words, in some order.
  ghost predicate Tallies(words: seq<Str>, cs: seq<Count>) {
    && (forall i | 0 <= i < |cs| :: cs[i].n == multiset(words)[cs[i].word] > 0)
    && (forall i | 0 <= i < |words| :: HasWord(cs, words[i]))
  }

  lemma TallyAgain(words: seq<Str>, cs: seq<Count>, i: nat)
    requires Tallies(words, cs) && i < |cs| && forall j | 0 <= j < |cs| && j != i :: cs[j].word != cs[i].word
    ensures Tallies(words + [cs[i].word], cs[i := Count(cs[i].word, cs[i].n + 1)])
  {
    var w := cs[i].word;
    var ws, ds := words + [w], cs[i := Count(w, cs[i].n + 1)];
    assert multiset(ws) == multiset(words) + multiset{w};
    forall k | 0 <= k < |ws| ensures HasWord(ds, ws[k]) {
      assert ds[i].word == w;
      if k < |words| {
        assert HasWord(cs, words[k]);
        var j :| 0 <= j < |cs| && cs[j].word == words[k];
        assert ds[j].word == words[k];
      }
    }
  }

  lemma TallyNew(words: seq<Str>, cs: seq<Count>, w: Str)
    requires Tallies(words, cs) && forall j | 0 <= j < |cs| :: cs[j].word != w
    ensures Tallies(words + [w], cs + [Count(w, 1)])
  {
    var ws, ds := words + [w], cs + [Count(w, 1)];
    assert multiset(ws) == multiset(words) + multiset{w};
    assert w in words ==> HasWord(cs, w);
    assert multiset(words)[w] == 0;
    forall k | 0 <= k < |ws| ensures HasWord(ds, ws[k]) {
      assert ds[|cs|].word == w;
      if k < |words| {
        assert HasWord(cs, words[k]);
        var j :| 0 <= j < |cs| && cs[j].word == words[k];
        assert ds[j].word == words[k];
      }
    }
  }

  // One turn of the loop of add_word_counts_in_chunk, with no lock.
  method CountWord(map_: CountMap, w: Str, ghost before: seq<Str>) returns (dead: bool)
    requires map_.Valid() && |map_.order| + 1 < TWO_TO_THE_32 && Tallies(before, CountsIn(map_.order))
    modifies map_, map_.order
    ensures forall x | x in map_.order && x !in old(map_.order) :: fresh(x)
    ensures map_.Valid() && |map_.order| <= |old(map_.order)| + 1
    ensures if dead then OutOfBuckets(map_) else Tallies(before + [w], CountsIn(map_.order))
  {
    hide Tallies;
    var found := map_.Find(w);
    if found != null {
      dead := false;
      CountAgain(map_, found, before);
    } else {
      TallyNew(before, CountsIn(map_.order), w);
      dead := NewWord(map_, w);
    }
  }

  // w->count++
  method CountAgain(map_: CountMap, e: Item<nat>, ghost before: seq<Str>)
    requires map_.Valid() && e in map_.order && Tallies(before, CountsIn(map_.order))
    modifies e`value
    ensures map_.Valid() && Tallies(before + [e.key], CountsIn(map_.order))
  {
    hide Tallies, map_.BktsOk, map_.AppOk;
    ghost var o, cs := map_.order, CountsIn(map_.order);
    ghost var i: nat :| i < |o| && o[i] == e;
    OnlyOne(map_, i);
    TallyAgain(before, cs, i);
    e.value := e.value + 1;
    assert CountsIn(o) == cs[i := Count(e.key, cs[i].n + 1)];
  }

  lemma OnlyOne(map_: CountMap, i: nat)
    requires map_.Valid() && i < |map_.order|
    ensures forall j | 0 <= j < |map_.order| && j != i :: map_.order[j] != map_.order[i]
    ensures forall j | 0 <= j < |map_.order| && j != i :: map_.order[j].key != map_.order[i].key
  {
    hide map_.BktsOk;
  }

  method NewWord(map_: CountMap, w: Str) returns (dead: bool)
    requires map_.Valid() && |map_.order| + 1 < TWO_TO_THE_32 && forall x | x in map_.order :: x.key != w
    modifies map_, map_.order
    ensures forall x | x in map_.order && x !in old(map_.order) :: fresh(x)
    ensures map_.Valid() && |map_.order| <= |old(map_.order)| + 1
    ensures dead ==> OutOfBuckets(map_)
    ensures !dead ==> CountsIn(map_.order) == old(CountsIn(map_.order)) + [Count(w, 1)]
  {
    hide map_.Pushed, map_.AsBefore, map_.Links, map_.LinksOf, map_.WantsExpand, map_.BktsOk, map_.AppOk;
    hide UniqueKeys, CountsIn;
    var e := new Item(w, 1);
    ghost var o := map_.order;
    var ok := map_.Add(e, true, true);
    dead := !ok;
    if ok {
      CountsAppended(o, e);
    }
  }

  lemma CountsAppended(o: seq<Item<nat>>, e: Item<nat>)
    ensures CountsIn(o + [e]) == CountsIn(o) + [Count(e.key, e.value)]
  {
  }

  // add_word_counts_in_chunk with no lock, on a map that counts the words before.
  method AddWordCountsInChunk(map_: CountMap, words: seq<Str>, ghost before: seq<Str>) returns (dead: bool)
    requires map_.Valid() && |map_.order| + |words| < TWO_TO_THE_32 && Tallies(before, CountsIn(map_.order))
    modifies map_, map_.order
    ensures forall x | x in map_.order && x !in old(map_.order) :: fresh(x)
    ensures map_.Valid()
    ensures if dead then OutOfBuckets(map_) else Tallies(before + words, CountsIn(map_.order))
  {
    hide Tallies;
    assert before + words[..0] == before;
    ghost var n;
    dead, n := CountAll(map_, words, before);
    assert words[..|words|] == words;
  }

  // Its loop.
  method CountAll(map_: CountMap, words: seq<Str>, ghost before: seq<Str>) returns (dead: bool, ghost n: nat)
    requires Counting(map_, words, 0, before, false)
    modifies map_, map_.order
    ensures forall x | x in map_.order && x !in old(map_.order) :: fresh(x)
    ensures Counting(map_, words, n, before, dead) && (dead || n == |words|)
  {
    dead := false;
    var i: nat := 0;
    while i < |words| && !dead
      invariant Counting(map_, words, i, before, dead)
      invariant forall x | x in map_.order && x !in old(map_.order) :: fresh(x)
      decreases |words| - i
    {
      i, dead := CountNext(map_, words, i, before);
    }
    n := i;
  }

  ghost predicate Counting(map_: CountMap, words: seq<Str>, i: nat, before: seq<Str>, dead: bool)
    reads map_, map_.order
  {
    && i <= |words| && map_.Valid() && |map_.order| + |words| - i < TWO_TO_THE_32
    && if dead then OutOfBuckets(map_) else Tallies(before + words[..i], CountsIn(map_.order))
  }

  method CountNext(map_: CountMap, words: seq<Str>, i: nat, ghost before: seq<Str>)
    returns (next: nat, dead: bool)
    requires i < |words| && Counting(map_, words, i, before, false)
    modifies map_, map_.order
    ensures forall x | x in map_.order && x !in old(map_.order) :: fresh(x)
    ensures next == i + 1 && Counting(map_, words, next, before, dead)
  {
    hide Tallies, map_.BktsOk, map_.AppOk;
    assert before + words[..i] + [words[i]] == before + words[..i + 1];
    dead := CountWord(map_, words[i], before + words[..i]);
    next := i + 1;
  }

  lemma SortedWordCount(words: seq<Str>, o: seq<Item<nat>>)
    requires UniqueKeys(o) && Sorted(Le(ByKey<nat>), o) && Tallies(words, CountsIn(o))
    ensures IsWordCount(words, CountsIn(o))
  {
    SortedAscends(o);
  }

  lemma ReorderedTally(words: seq<Str>, o: seq<Item<nat>>, p: seq<Item<nat>>)
    requires multiset(o) == multiset(p) && Tallies(words, CountsIn(o))
    ensures Tallies(words, CountsIn(p))
  {
    SameElements(o, p);
    var cs, ds := CountsIn(o), CountsIn(p);
    forall i | 0 <= i < |p| ensures ds[i].n == multiset(words)[ds[i].word] > 0 {
      assert p[i] in o;
      var j: nat :| j < |o| && o[j] == p[i];
      assert cs[j] == ds[i];
    }
    forall k | 0 <= k < |words| ensures HasWord(ds, words[k]) {
      assert HasWord(cs, words[k]);
      var j :| 0 <= j < |cs| && cs[j].word == words[k];
      assert o[j] in p;
      var i: nat :| i < |p| && p[i] == o[j];
      assert ds[i].word == words[k];
    }
  }

  // HASH_SORT by sort_func.
  method SortByWord(map_: CountMap, ghost words: seq<Str>)
    requires map_.Valid() && Tallies(words, CountsIn(map_.order))
    modifies map_, map_.order
    ensures forall x | x in map_.order :: x in old(map_.order)
    ensures map_.Valid() && IsWordCount(words, CountsIn(map_.order))
  {
    hide map_.BktsOk, map_.AppOk, TotalPreorder, UniqueKeys, Tallies, IsWordCount;
    ghost var o, cs := map_.order, CountsIn(map_.order);
    KeysAreOrdered(o);
    map_.Sort(ByKey<nat>);
    assert CountsIn(o) == cs;
    SameElements(o, map_.order);
    ReorderedTally(words, o, map_.order);
    SortedWordCount(words, map_.order);
  }

  // The loop of print_counts, with a list to take the lines.
  method ListCounts(map_: CountMap) returns (cs: seq<Count>)
    requires map_.Valid()
    ensures cs == CountsIn(map_.order)
  {
    hide map_.BktsOk;
    cs := [];
    ghost var i := 0;
    var current: Item?<nat> := map_.head;
    while current != null
      invariant i <= |map_.order| && current == At(map_.order, i)
      invariant cs == CountsIn(map_.order)[..i]
      decreases |map_.order| - i
    {
      cs := cs + [Count(current.key, current.value)];
      current := current.next;
      i := i + 1;
    }
  }

  // count_words_seq, then HASH_SORT.
  method CountWordsSeq(hash: Str -> nat, words: seq<Str>) returns (dead: bool, map_: CountMap, cs: seq<Count>)
    requires |words| < TWO_TO_THE_32
    ensures fresh(map_) && map_.Valid() && forall x | x in map_.order :: fresh(x)
    ensures if dead then OutOfBuckets(map_) else IsWordCount(words, cs) && cs == CountsIn(map_.order)
  {
    hide IsWordCount;
    map_ := new HashTable(hash);
    dead, cs := CountAndSort(map_, words);
  }

  method CountAndSort(map_: CountMap, words: seq<Str>) returns (dead: bool, cs: seq<Count>)
    requires map_.Valid() && map_.order == [] && |words| < TWO_TO_THE_32
    modifies map_
    ensures map_.Valid() && forall x | x in map_.order :: fresh(x)
    ensures if dead then OutOfBuckets(map_) else IsWordCount(words, cs) && cs == CountsIn(map_.order)
  {
    hide Tallies, IsWordCount, OutOfBuckets, CountsIn;
    NothingTallied(map_);
    dead := AddWordCountsInChunk(map_, words, []);
    assert [] + words == words;
    cs := ListUnlessDead(map_, words, dead);
  }

  method ListUnlessDead(map_: CountMap, ghost words: seq<Str>, dead: bool) returns (cs: seq<Count>)
    requires map_.Valid() && if dead then OutOfBuckets(map_) else Tallies(words, CountsIn(map_.order))
    modifies map_, map_.order
    ensures map_.Valid() && forall x | x in map_.order :: x in old(map_.order)
    ensures if dead then OutOfBuckets(map_) else IsWordCount(words, cs) && cs == CountsIn(map_.order)
  {
    hide Tallies, IsWordCount;
    cs := [];
    if !dead {
      cs := SortAndList(map_, words);
    }
  }

  method SortAndList(map_: CountMap, ghost words: seq<Str>) returns (cs: seq<Count>)
    requires map_.Valid() && Tallies(words, CountsIn(map_.order))
    modifies map_, map_.order
    ensures forall x | x in map_.order :: x in old(map_.order)
    ensures map_.Valid() && IsWordCount(words, cs) && cs == CountsIn(map_.order)
  {
    hide Tallies, IsWordCount;
    SortByWord(map_, words);
    cs := ListCounts(map_);
  }

  // The program of lab8.c: count, sort, list, delete.
  method RunLab8(hash: Str -> nat, words: seq<Str>) returns (dead: bool, map_: CountMap, cs: seq<Count>)
    requires |words| < TWO_TO_THE_32
    ensures if dead then OutOfBuckets(map_) else IsWordCount(words, cs) && map_.Valid() && map_.order == []
  {
    hide IsWordCount;
    dead, map_, cs := CountWordsSeq(hash, words);
    if !dead {
      HashRuns.DeleteAll(map_);
    }
  }

  lemma NothingTallied(map_: CountMap)
    requires map_.order == []
    ensures Tallies([], CountsIn(map_.order))
  {
  }

  // ---------- amr_map and amr_reduce ----------

  // struct mr_in_kv
  datatype InKv = InKv(key: Str, value: Str)

  const ONE: Str := [49]

  function AmrMap(kv: InKv): seq<Pair> {
    [Pair(kv.value, ONE)]
  }

  // How many of the values are "1".
  function CountOnes(values: seq<Str>): (n: nat)
    ensures n == multiset(values)[ONE]
  {
    if values == [] then 0
    else
      var n := |values| - 1;
      assert values == values[..n] + [values[n]];
      CountOnes(values[..n]) + if values[n] == ONE then 1 else 0
  }

  // %zu
  function Decimal(n: nat): (s: Str)
    ensures s != [] && 0 !in s
  {
    if n < 10 then [48 + n] else Decimal(n / 10) + [48 + n % 10]
  }

  function Pow10(k: nat): (p: nat)
    ensures p > 0
  {
    if k == 0 then 1 else 10 * Pow10(k - 1)
  }

  // Positional notation: the digits of n from the highest to the lowest, without a leading zero.
  lemma {:induction false} DecimalIsPositional(n: nat)
    ensures var s := Decimal(n);
      && n < Pow10(|s|) && (s[0] == 48 ==> n == 0 && |s| == 1)
      && forall i | 0 <= i < |s| :: 48 <= s[i] <= 57 && s[i] - 48 == n / Pow10(|s| - 1 - i) % 10
  {
    var s := Decimal(n);
    if n >= 10 {
      var t := Decimal(n / 10);
      DecimalIsPositional(n / 10);
      hide Decimal;
      forall i | 0 <= i < |s| ensures 48 <= s[i] <= 57 && s[i] - 48 == n / Pow10(|s| - 1 - i) % 10 {
        if i < |t| {
          assert s[i] == t[i] && Pow10(|s| - 1 - i) == 10 * Pow10(|t| - 1 - i);
          DivByTenths(n, Pow10(|t| - 1 - i));
        }
      }
    }
  }

  lemma DivByTenths(n: nat, p: nat)
    requires p > 0
    ensures n / (10 * p) == n / 10 / p
  {
    var q, r := n / 10 / p, n / 10 % p;
    assert n == 10 * (q * p + r) + n % 10;
    assert n == q * (10 * p) + (10 * r + n % 10);
    DivModUnique(n, 10 * p, q, 10 * r + n % 10);
  }

  // The text determines the number.
  lemma {:induction false} DecimalInjective(m: nat, n: nat)
    requires Decimal(m) == Decimal(n)
    ensures m == n
  {
    if m >= 10 && n >= 10 {
      var x, y := Decimal(m), Decimal(n);
      assert x[..|x| - 1] == Decimal(m / 10) && y[..|y| - 1] == Decimal(n / 10);
      assert x[|x| - 1] == 48 + m % 10 && y[|y| - 1] == 48 + n % 10;
      DecimalInjective(m / 10, n / 10);
    }
  }

  // snprintf into a buffer of the given size.
  function Clipped(s: Str, size: nat): Str
    requires size > 0
  {
    if |s| < size then s else s[..size - 1]
  }

  function AmrReduce(g: Group): seq<Pair> {
    [Pair(g.key, Clipped(Decimal(CountOnes(g.values)), MAX_VALUE_SIZE))]
  }

  // The body of amr_reduce: what it emits.
  method RunAmrReduce(g: Group) returns (emitted: seq<Pair>)
    ensures emitted == AmrReduce(g)
  {
    var cnt := 0;
    var i := 0;
    while i < |g.values|
      invariant 0 <= i <= |g.values| && cnt == CountOnes(g.values[..i])
    {
      assert g.values[..i + 1][..i] == g.values[..i];
      if StrCmp(g.values[i], ONE) == 0 {
        cnt := cnt + 1;
      }
      StrCmpIsEquality(g.values[i], ONE);
      i := i + 1;
    }
    assert g.values[..|g.values|] == g.values;
    emitted := [Pair(g.key, Clipped(Decimal(cnt), MAX_VALUE_SIZE))];
  }

  lemma AmrReduceInsensitive()
    ensures OrderInsensitive(AmrReduce)
  {
  }

  // ---------- the parallel count ----------

  function ValuesOf(input: seq<InKv>): (words: seq<Str>)
    ensures |words| == |input| && forall i | 0 <= i < |input| :: words[i] == input[i].value
  {
    seq(|input|, i requires 0 <= i < |input| => input[i].value)
  }

  // What the engine has room for: short words, not too many of them, none too often.
  ghost predicate WordsFit(words: seq<Str>) {
    && (forall i | 0 <= i < |words| :: Fits(words[i]))
    && |set i | 0 <= i < |words| :: words[i]| <= MAX_INTERMEDIATE
    && forall w: Str :: multiset(words)[w] <= MAX_VALUES_PER_KEY
  }

  // The word count as the engine's output.
  function AsOutput(cs: seq<Count>): (gs: seq<Group>)
    ensures |gs| == |cs| && forall i | 0 <= i < |cs| :: gs[i] == Group(cs[i].word, [Decimal(cs[i].n)])
  {
    seq(|cs|, i requires 0 <= i < |cs| => Group(cs[i].word, [Decimal(cs[i].n)]))
  }

  function Ones(words: seq<Str>): (r: seq<Pair>)
    ensures |r| == |words| && forall i | 0 <= i < |r| :: r[i] == Pair(words[i], ONE)
  {
    seq(|words|, i requires 0 <= i < |words| => Pair(words[i], ONE))
  }

  lemma {:induction false} MapEmitsOnes(input: seq<InKv>)
    ensures Concat(EmitAll(AmrMap, input)) == Ones(ValuesOf(input))
  {
    if input != [] {
      var n := |input| - 1;
      MapEmitsOnes(input[..n]);
      assert EmitAll(AmrMap, input)[..n] == EmitAll(AmrMap, input[..n]);
      assert Ones(ValuesOf(input)) == Ones(ValuesOf(input[..n])) + AmrMap(input[n]);
    }
  }

  lemma {:induction false} OnesBag(words: seq<Str>, x: Pair)
    ensures multiset(Ones(words))[x] == if x.value == ONE then multiset(words)[x.key] else 0
  {
    if words != [] {
      var n := |words| - 1;
      OnesBag(words[..n], x);
      assert Ones(words) == Ones(words[..n]) + [Pair(words[n], ONE)];
      assert words == words[..n] + [words[n]];
    }
  }

  lemma {:induction false} OnesKeyed(words: seq<Str>, w: Str)
    ensures |Keyed(Ones(words), w)| == multiset(words)[w]
  {
    if words != [] {
      var n := |words| - 1;
      KeyedLast(words, w);
      hide Keyed, Ones;
      OnesKeyed(words[..n], w);
      assert words == words[..n] + [words[n]];
    }
  }

  lemma KeyedLast(words: seq<Str>, w: Str)
    requires words != []
    ensures var n := |words| - 1;
      |Keyed(Ones(words), w)| == |Keyed(Ones(words[..n]), w)| + if words[n] == w then 1 else 0
  {
    assert Ones(words)[..|words| - 1] == Ones(words[..|words| - 1]);
  }

  lemma OnesFit(words: seq<Str>)
    requires WordsFit(words)
    ensures Mapping.WithinCapacity(Ones(words))
  {
    forall key ensures |Keyed(Ones(words), key)| <= MAX_VALUES_PER_KEY {
      OnesKeyed(words, key);
    }
    assert KeySet(Ones(words)) == set i | 0 <= i < |words| :: words[i];
  }

  // Groups of ones that count the words.
  ghost predicate CountsGroups(words: seq<Str>, gs: seq<Group>) {
    && DistinctKeys(gs)
    && (forall i | 0 <= i < |gs| :: CountOnes(gs[i].values) == multiset(words)[gs[i].key] > 0)
    && (forall k | 0 <= k < |words| :: IndexOf(gs, words[k]) < |gs|)
  }

  lemma GroupedOnes(words: seq<Str>)
    ensures CountsGroups(words, GroupInTurn(Ones(words)))
  {
    hide AllPairs, IndexOf, GroupInTurn, CountOnes;
    var gs := GroupInTurn(Ones(words));
    GroupInTurnGroups(Ones(words));
    forall i | 0 <= i < |gs| ensures CountOnes(gs[i].values) == multiset(words)[gs[i].key] > 0 {
      OnesOfGroup(words, gs, i);
    }
    forall k | 0 <= k < |words| ensures IndexOf(gs, words[k]) < |gs| {
      GroupBag(gs, Pair(words[k], ONE));
      OnesBag(words, Pair(words[k], ONE));
      assert words[k] in multiset(words);
    }
  }

  lemma OnesOfGroup(words: seq<Str>, gs: seq<Group>, i: nat)
    requires IsGrouping(gs, multiset(Ones(words))) && i < |gs|
    ensures CountOnes(gs[i].values) == multiset(words)[gs[i].key] > 0
  {
    hide AllPairs, IndexOf;
    var key, v := gs[i].key, gs[i].values[0];
    IndexIs(gs, key, i);
    GroupBag(gs, Pair(key, ONE));
    OnesBag(words, Pair(key, ONE));
    GroupBag(gs, Pair(key, v));
    OnesBag(words, Pair(key, v));
    assert v in multiset(gs[i].values);
  }

  // What reducing emits, as groups of one value.
  function Reduced(gs: seq<Group>): (r: seq<Group>)
    ensures |r| == |gs|
    ensures forall i | 0 <= i < |gs| ::
      r[i] == Group(gs[i].key, [Clipped(Decimal(CountOnes(gs[i].values)), MAX_VALUE_SIZE)])
  {
    seq(|gs|, i requires 0 <= i < |gs| =>
      Group(gs[i].key, [Clipped(Decimal(CountOnes(gs[i].values)), MAX_VALUE_SIZE)]))
  }

  lemma {:induction false} ReducedPairs(gs: seq<Group>)
    ensures AllPairs(Reduced(gs)) == Concat(EmitAll(AmrReduce, gs))
  {
    if gs != [] {
      var n := |gs| - 1;
      ReducedPairs(gs[..n]);
      assert Reduced(gs)[..n] == Reduced(gs[..n]);
      assert EmitAll(AmrReduce, gs)[..n] == EmitAll(AmrReduce, gs[..n]);
      assert PairsOf(Reduced(gs)[n]) == AmrReduce(gs[n]);
    }
  }

  lemma SmallDecimal(n: nat)
    requires n <= MAX_VALUES_PER_KEY
    ensures |Decimal(n)| <= 3 && Clipped(Decimal(n), MAX_VALUE_SIZE) == Decimal(n)
  {
    assert n / 10 / 10 < 10;
    assert n >= 10 ==> |Decimal(n)| == |Decimal(n / 10)| + 1;
    assert n / 10 >= 10 ==> |Decimal(n / 10)| == |Decimal(n / 10 / 10)| + 1;
  }

  lemma ReducedIsCount(words: seq<Str>, gs: seq<Group>, i: nat)
    requires WordsFit(words) && CountsGroups(words, gs) && i < |gs|
    ensures Reduced(gs)[i] == Group(gs[i].key, [Decimal(multiset(words)[gs[i].key])])
    ensures gs[i].key in words && Fits(gs[i].key) && Fits(Decimal(multiset(words)[gs[i].key]))
  {
    SmallDecimal(multiset(words)[gs[i].key]);
    assert gs[i].key in multiset(words);
  }

  // The reducers' output fits the final table.
  lemma ReducedFits(words: seq<Str>, gs: seq<Group>)
    requires WordsFit(words) && CountsGroups(words, gs)
    ensures FinalCapacity(AllPairs(Reduced(gs)))
  {
    hide Keyed, AllPairs, WordsFit, CountsGroups, KeySet, AllFit;
    var all := AllPairs(Reduced(gs));
    ReducedPairsFit(words, gs);
    FewKeys(words, all);
    forall key ensures |Keyed(all, key)| <= MAX_VALUES_PER_KEY {
      DistinctKeyed(all, key);
    }
  }

  lemma ReducedPairsFit(words: seq<Str>, gs: seq<Group>)
    requires WordsFit(words) && CountsGroups(words, gs)
    ensures var all := AllPairs(Reduced(gs));
      && AllFit(all) && (forall i | 0 <= i < |all| :: all[i].key in words)
      && (forall i, j | 0 <= i < j < |all| :: all[i].key != all[j].key)
  {
    hide AllPairs, WordsFit, Decimal, CountOnes, Clipped, Fits;
    var all := AllPairs(Reduced(gs));
    SinglePairs(Reduced(gs));
    forall i | 0 <= i < |all| ensures Fits(all[i].key) && Fits(all[i].value) && all[i].key in words {
      ReducedIsCount(words, gs, i);
    }
  }

  lemma FewKeys(words: seq<Str>, all: seq<Pair>)
    requires WordsFit(words) && forall i | 0 <= i < |all| :: all[i].key in words
    ensures |KeySet(all)| <= MAX_INTERMEDIATE
  {
    var keys := set i | 0 <= i < |words| :: words[i];
    forall i | 0 <= i < |all| ensures all[i].key in keys {
      var k: nat :| k < |words| && words[k] == all[i].key;
    }
    assert KeySet(all) <= keys;
    assert keys == KeySet(all) + (keys - KeySet(all));
  }

  lemma {:induction false} SinglePairs(gs: seq<Group>)
    requires forall i | 0 <= i < |gs| :: |gs[i].values| == 1
    ensures |AllPairs(gs)| == |gs|
    ensures forall i | 0 <= i < |gs| :: AllPairs(gs)[i] == Pair(gs[i].key, gs[i].values[0])
  {
    if gs != [] {
      SinglePairs(gs[..|gs| - 1]);
    }
  }

  lemma {:induction false} DistinctKeyed(all: seq<Pair>, key: Str)
    requires forall i, j | 0 <= i < j < |all| :: all[i].key != all[j].key
    ensures |Keyed(all, key)| <= 1
    ensures (forall i | 0 <= i < |all| :: all[i].key != key) ==> Keyed(all, key) == []
  {
    if all != [] {
      DistinctKeyed(all[..|all| - 1], key);
    }
  }

  // The output has the same pairs as the reduced groups, and so it is the word count.
  lemma OutputIsCount(words: seq<Str>, gs: seq<Group>, output: seq<Group>) returns (cs: seq<Count>)
    requires WordsFit(words) && CountsGroups(words, gs)
    requires Ascending(output) && NoneEmpty(output) && multiset(AllPairs(output)) == multiset(AllPairs(Reduced(gs)))
    ensures IsWordCount(words, cs) && output == AsOutput(cs)
  {
    hide AllPairs, IndexOf, CountsGroups, WordsFit, Reduced, Decimal;
    cs := seq(|output|, i requires 0 <= i < |output| => Count(output[i].key, multiset(words)[output[i].key]));
    forall i | 0 <= i < |output| ensures output[i] == AsOutput(cs)[i] && cs[i].n > 0 {
      OutputGroup(words, gs, output, i);
    }
    forall k | 0 <= k < |words| ensures HasWord(cs, words[k]) {
      var i := WordInOutput(words, gs, output, k);
      assert cs[i].word == words[k];
    }
  }

  lemma OutputGroup(words: seq<Str>, gs: seq<Group>, output: seq<Group>, i: nat)
    requires WordsFit(words) && CountsGroups(words, gs) && i < |output|
    requires Ascending(output) && NoneEmpty(output) && multiset(AllPairs(output)) == multiset(AllPairs(Reduced(gs)))
    ensures var n := multiset(words)[output[i].key];
      output[i] == Group(output[i].key, [Decimal(n)]) && n > 0
  {
    hide AllPairs, IndexOf, CountOnes, Decimal, WordsFit;
    AscendingDistinct(output);
    SameGroup(output, Reduced(gs), i);
    var j := IndexOf(Reduced(gs), output[i].key);
    ReducedIsCount(words, gs, j);
    Singleton(output[i].values, Reduced(gs)[j].values[0]);
  }

  lemma WordInOutput(words: seq<Str>, gs: seq<Group>, output: seq<Group>, k: nat) returns (i: nat)
    requires CountsGroups(words, gs) && k < |words|
    requires Ascending(output) && NoneEmpty(output) && multiset(AllPairs(output)) == multiset(AllPairs(Reduced(gs)))
    ensures i < |output| && output[i].key == words[k]
  {
    hide AllPairs, IndexOf, CountOnes, Decimal;
    AscendingDistinct(output);
    SameGroup(Reduced(gs), output, IndexOf(gs, words[k]));
    i := IndexOf(output, words[k]);
  }

  lemma Singleton(s: seq<Str>, v: Str)
    requires multiset(s) == multiset([v])
    ensures s == [v]
  {
    assert |multiset(s)| == |s|;
    assert v in multiset(s);
  }

  // mr_exec with amr_map and amr_reduce, from an empty final table: for every input the engine has
  // room for, all positive thread counts and every schedule, the output is the word count.
  method CountWordsMapReduce(hash: Str -> nat, input: seq<InKv>, mapperCount: nat, reducerCount: nat)
    returns (r: int, table: FinalTable, output: seq<Group>, ghost cs: seq<Count>)
    requires WordsFit(ValuesOf(input)) && mapperCount > 0 && reducerCount > 0
    ensures r == 0 || (r == -1 && OutOfBuckets(table))
    ensures r == 0 ==> IsWordCount(ValuesOf(input), cs) && output == AsOutput(cs)
  {
    hide WordsFit, CountsGroups, AllPairs, GroupInTurn, IsWordCount, FinalCapacity, Concat, AmrMap, AmrReduce;
    table := new HashTable(hash);
    var st := new Mapping.Intermediate();
    ghost var words := ValuesOf(input);
    ghost var gs := GroupInTurn(Ones(words));
    EngineFits(input, gs);
    r, output := MrExec(st, table, AmrMap, AmrReduce, input, mapperCount, reducerCount);
    cs := [];
    if r == 0 {
      NothingBefore(multiset(AllPairs(Reduced(gs))));
      cs := OutputIsCount(words, gs, output);
    }
  }

  lemma EngineFits(input: seq<InKv>, gs: seq<Group>)
    requires WordsFit(ValuesOf(input)) && gs == GroupInTurn(Ones(ValuesOf(input)))
    ensures OrderInsensitive(AmrReduce) && Mapping.WithinCapacity(Concat(EmitAll(AmrMap, input)))
    ensures CountsGroups(ValuesOf(input), gs)
    ensures InTurn(AmrMap, AmrReduce, input) == AllPairs(Reduced(gs))
    ensures FinalCapacity(AllPairs([]) + InTurn(AmrMap, AmrReduce, input))
  {
    hide WordsFit, CountsGroups, FinalCapacity, OrderInsensitive, Mapping.WithinCapacity, GroupInTurn, Concat;
    AmrReduceInsensitive();
    MapEmitsOnes(input);
    OnesFit(ValuesOf(input));
    GroupedOnes(ValuesOf(input));
    ReducedPairs(gs);
    ReducedFits(ValuesOf(input), gs);
    assert AllPairs([]) + AllPairs(Reduced(gs)) == AllPairs(Reduced(gs));
  }

  lemma NothingBefore(bag: multiset<Pair>)
    ensures multiset(AllPairs([])) + bag == bag
  {
  }

  // Equal outputs come from equal word counts.
  lemma OutputDetermines(a: seq<Count>, b: seq<Count>)
    requires AsOutput(a) == AsOutput(b)
    ensures a == b
  {
    assert |a| == |b|;
    forall i | 0 <= i < |a| ensures a[i] == b[i] {
      assert AsOutput(a)[i] == AsOutput(b)[i];
      assert AsOutput(a)[i].values[0] == AsOutput(b)[i].values[0];
      DecimalInjective(a[i].n, b[i].n);
    }
  }

  // The parallel count refines the sequential one: same words, same counts, same order.
  method BothWays(hash: Str -> nat, input: seq<InKv>, mapperCount: nat, reducerCount: nat)
    returns (r: int, table: FinalTable, output: seq<Group>, dead: bool, map_: CountMap, cs: seq<Count>)
    requires WordsFit(ValuesOf(input)) && |input| < TWO_TO_THE_32 && mapperCount > 0 && reducerCount > 0
    ensures r == 0 || OutOfBuckets(table)
    ensures dead ==> OutOfBuckets(map_)
    ensures r == 0 && !dead ==> output == AsOutput(cs) && IsWordCount(ValuesOf(input), cs)
  {
    hide WordsFit, IsWordCount;
    ghost var ds;
    r, table, output, ds := CountWordsMapReduce(hash, input, mapperCount, reducerCount);
    dead, map_, cs := CountWordsSeq(hash, ValuesOf(input));
    if r == 0 && !dead {
      WordCountUnique(ValuesOf(input), cs, ds);
    }
  }
}
