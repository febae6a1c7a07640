// mr_exec of lecture/test3/src/interface.c: the mappers, the reducers storing into a hash table,
// and the sorted output, for every schedule of the threads.
module MapReduce {
  import opened Bits
  import opened Bytes
  import opened Seqs
  import opened StableSort
  import opened UtHash
  import opened HashTables
  import opened KeyOrder
  import opened Workers
  import opened Groups
  import opened StoreSteps
  import opened Mapping

  // struct final_kv
  type Entry = Item<seq<Str>>
  type FinalTable = HashTable<seq<Str>>

  // The entries as groups, in application order.
  ghost function Contents(o: seq<Entry>): (gs: seq<Group>)
    reads o`value
    ensures |gs| == |o| && forall i | 0 <= i < |o| :: gs[i] == Group(o[i].key, o[i].value)
  {
    if o == [] then [] else Contents(o[..|o| - 1]) + [Group(o[|o| - 1].key, o[|o| - 1].value)]
  }

  // ---------- mr_emit_f ----------

  // The first half: HASH_FIND_STR, and HASH_ADD_STR of a new entry if there is none.
  method FindOrAddEntry(table: FinalTable, key: Str) returns (entry: Entry, dead: bool)
    requires table.Valid() && |table.order| + 1 < TWO_TO_THE_32
    modifies table, table.order`next, table.order`prev, table.order`hhNext, table.order`hhPrev
    ensures table.Valid() && old(table.order) <= table.order
    ensures forall x | x in table.order && x !in old(table.order) :: fresh(x)
    ensures dead ==> OutOfBuckets(table) && table.order == old(table.order)
    ensures !dead ==> Contents(table.order) == FindOrAdd(old(Contents(table.order)), key)
    ensures !dead ==> At(table.order, IndexOf(old(Contents(table.order)), key)) == entry
  {
    hide table.Valid, IndexOf, FindOrAdd;
    var found := table.Find(key);
    if found == null {
      NotThere(Contents(table.order), key);
      entry, dead := AddEntry(table, key);
    } else {
      entry, dead := found, false;
      WhereFound(table, entry);
    }
  }

  lemma NotThere(gs: seq<Group>, key: Str)
    requires forall i | 0 <= i < |gs| :: gs[i].key != key
    ensures IndexOf(gs, key) == |gs| && FindOrAdd(gs, key) == gs + [Group(key, [])]
  {
    IndexIs(gs, key, |gs|);
  }

  method AddEntry(table: FinalTable, key: Str) returns (entry: Entry, dead: bool)
    requires table.Valid() && |table.order| + 1 < TWO_TO_THE_32 && forall x | x in table.order :: x.key != key
    modifies table, table.order`next, table.order`prev, table.order`hhNext, table.order`hhPrev
    ensures table.Valid() && fresh(entry)
    ensures dead ==> OutOfBuckets(table) && table.order == old(table.order)
    ensures !dead ==> table.order == old(table.order) + [entry]
    ensures !dead ==> Contents(table.order) == old(Contents(table.order)) + [Group(key, [])]
  {
    hide table.Valid, table.Pushed, table.AsBefore, table.Links, table.LinksOf, table.WantsExpand;
    entry := new Item(key, []);
    ghost var gs := Contents(table.order);
    var ok := table.Add(entry, true, true);
    dead := !ok;
    if ok {
      assert |Contents(table.order)| == |gs| + 1;
    }
  }

  lemma WhereFound(table: FinalTable, entry: Entry)
    requires table.Valid() && entry in table.order
    ensures At(table.order, IndexOf(Contents(table.order), entry.key)) == entry
    ensures FindOrAdd(Contents(table.order), entry.key) == Contents(table.order)
  {
    hide table.BktsOk, table.AppOk, IndexOf;
    var i: nat :| i < |table.order| && table.order[i] == entry;
    IndexIs(Contents(table.order), entry.key, i);
  }

  // The second half: strcpy into the entry's next slot.
  method AppendValue(entry: Entry, value: Str, ghost o: seq<Entry>, ghost i: nat)
    requires Distinct(o) && i < |o| && o[i] == entry
    requires |entry.value| < MAX_VALUES_PER_KEY && Fits(value)
    modifies entry`value
    ensures Contents(o) == StoreAt(old(Contents(o)), i, value)
  {
    entry.value := entry.value + [value];
  }

  // ---------- the reduce phase ----------

  ghost predicate ReducingOk(table: FinalTable, all: seq<Pair>, jobs: seq<seq<Pair>>, ws: seq<Worker>, m: Mutex,
                             entries: seq<Item?<seq<Str>>>, slots: seq<nat>)
    reads table, table.order
  {
    && table.Valid() && StoreInv(all, Contents(table.order), jobs, ws, m, slots)
    && EntriesOk(table.order, ws, entries, slots)
  }

  ghost predicate EntriesOk(o: seq<Entry>, ws: seq<Worker>, entries: seq<Item?<seq<Str>>>, slots: seq<nat>) {
    && |entries| == |slots| == |ws|
    && forall t | 0 <= t < |ws| && ws[t].pc.Found? :: slots[t] < |o| && o[slots[t]] == entries[t]
  }

  // What the entries are big enough for, and the table can count.
  ghost predicate FinalCapacity(all: seq<Pair>) {
    |KeySet(all)| + 1 < TWO_TO_THE_32 && FewValues(all) && AllFit(all)
  }

  // One step of reducer t; entries[t] is its local variable entry, slots[t] where that stands.
  method ReduceStep(table: FinalTable, ghost all: seq<Pair>, jobs: seq<seq<Pair>>, ws: seq<Worker>, m: Mutex,
                    entries: seq<Item?<seq<Str>>>, ghost slots: seq<nat>, t: nat)
    returns (ws': seq<Worker>, m': Mutex, entries': seq<Item?<seq<Str>>>, ghost slots': seq<nat>, dead: bool)
    requires ReducingOk(table, all, jobs, ws, m, entries, slots) && FinalCapacity(all)
    requires t < |ws| && CanStep(jobs, ws[t], m)
    modifies table, table.order
    ensures forall x | x in table.order && x !in old(table.order) :: fresh(x)
    ensures table.Valid() && (dead ==> OutOfBuckets(table))
    ensures !dead ==> ReducingOk(table, all, jobs, ws', m', entries', slots')
    ensures ws' == ws[t := Advance(jobs, ws[t])] && m' == Grab(jobs, ws[t], m, t)
  {
    hide StoreInv, Advance, Grab, KeySet, FewValues, AllFit, CanStep, table.Valid;
    ws', m', entries', slots', dead := ws[t := Advance(jobs, ws[t])], Grab(jobs, ws[t], m, t), entries, slots, false;
    if ws[t].pc.Locked? {
      entries', slots', dead := ReduceFind(table, all, jobs, ws, m, entries, slots, t);
    } else if ws[t].pc.Found? {
      ReduceStore(table, all, jobs, ws, m, entries, slots, t);
    } else {
      AdvancePc(jobs, ws[t]);
      OtherStep(all, Contents(table.order), jobs, ws, m, slots, t);
    }
  }

  method ReduceFind(table: FinalTable, ghost all: seq<Pair>, jobs: seq<seq<Pair>>, ws: seq<Worker>, ghost m: Mutex,
                    entries: seq<Item?<seq<Str>>>, ghost slots: seq<nat>, t: nat)
    returns (entries': seq<Item?<seq<Str>>>, ghost slots': seq<nat>, dead: bool)
    requires ReducingOk(table, all, jobs, ws, m, entries, slots) && FinalCapacity(all)
    requires t < |ws| && ws[t].pc.Locked?
    modifies table, table.order
    ensures forall x | x in table.order && x !in old(table.order) :: fresh(x)
    ensures table.Valid() && (dead ==> OutOfBuckets(table))
    ensures !dead ==>
      ReducingOk(table, all, jobs, ws[t := Advance(jobs, ws[t])], Grab(jobs, ws[t], m, t), entries', slots')
  {
    hide StoreInv, Advance, Grab, KeySet, FewValues, AllFit, table.Valid, IndexOf;
    ghost var gs, o := Contents(table.order), table.order;
    AdvancePc(jobs, ws[t]);
    FindStep(all, gs, jobs, ws, m, slots, t);
    Room(all, gs, jobs, ws, m, slots, t);
    var key := jobs[ws[t].next][ws[t].sub].key;
    var entry;
    entry, dead := FindOrAddEntry(table, key);
    entries', slots' := entries[t := entry], slots[t := IndexOf(gs, key)];
    if !dead {
      EntriesKept(o, table.order, ws, entries, slots, t, Advance(jobs, ws[t]), entry, IndexOf(gs, key));
    }
  }

  // New entries go to the end, so the others' local variables still point where they did.
  lemma EntriesKept(o: seq<Entry>, o': seq<Entry>, ws: seq<Worker>, entries: seq<Item?<seq<Str>>>, slots: seq<nat>,
                    t: nat, w: Worker, entry: Entry, i: nat)
    requires EntriesOk(o, ws, entries, slots) && o <= o' && t < |ws| && At(o', i) == entry
    ensures EntriesOk(o', ws[t := w], entries[t := entry], slots[t := i])
  {
  }

  method ReduceStore(table: FinalTable, ghost all: seq<Pair>, jobs: seq<seq<Pair>>, ws: seq<Worker>, ghost m: Mutex,
                     entries: seq<Item?<seq<Str>>>, ghost slots: seq<nat>, t: nat)
    requires ReducingOk(table, all, jobs, ws, m, entries, slots) && FinalCapacity(all)
    requires t < |ws| && ws[t].pc.Found?
    modifies table.order`value
    ensures table.Valid()
    ensures ReducingOk(table, all, jobs, ws[t := Advance(jobs, ws[t])], Grab(jobs, ws[t], m, t), entries, slots)
  {
    hide StoreInv, Advance, Grab, KeySet, FewValues, AllFit, table.Valid;
    ghost var gs := Contents(table.order);
    AdvancePc(jobs, ws[t]);
    StoreStep(all, gs, jobs, ws, m, slots, t);
    Room(all, gs, jobs, ws, m, slots, t);
    ValidDistinct(table);
    AppendValue(entries[t], jobs[ws[t].next][ws[t].sub].value, table.order, slots[t]);
  }

  lemma AdvancePc(jobs: seq<seq<Pair>>, w: Worker)
    ensures Advance(jobs, w).pc.Found? <==> w.pc.Locked?
  {
  }

  lemma ValidDistinct(table: FinalTable)
    requires table.Valid()
    ensures Distinct(table.order)
  {
  }

  // The reducers from their creation to the last join. jobs[i] is what reduce emits for group i.
  method ReducePhase(table: FinalTable, jobs: seq<seq<Pair>>, reducerCount: nat) returns (dead: bool)
    requires table.Valid() && reducerCount > 0
    requires NoneEmpty(Contents(table.order)) && FinalCapacity(AllPairs(Contents(table.order)) + Concat(jobs))
    modifies table, table.order
    ensures forall x | x in table.order && x !in old(table.order) :: fresh(x)
    ensures table.Valid() && (dead ==> OutOfBuckets(table))
    ensures !dead ==>
      IsGrouping(Contents(table.order), old(multiset(AllPairs(Contents(table.order)))) + multiset(Concat(jobs)))
  {
    hide FinalCapacity, IsGrouping, AllPairs, Concat, PartSize, PhaseOk;
    ghost var all := AllPairs(Contents(table.order)) + Concat(jobs);
    var ws := Parts(|jobs|, PartSize(|jobs|, reducerCount), reducerCount);
    var entries: seq<Item?<seq<Str>>> := seq(reducerCount, _ => null);
    ghost var slots := seq(reducerCount, _ => 0);
    ReduceStart(table, all, jobs, reducerCount, entries, slots);
    dead := ReduceLoop(table, all, jobs, ws, entries, slots);
    assert multiset(all) == old(multiset(AllPairs(Contents(table.order)))) + multiset(Concat(jobs));
  }

  method ReduceLoop(table: FinalTable, ghost all: seq<Pair>, jobs: seq<seq<Pair>>, ws0: seq<Worker>,
                    entries0: seq<Item?<seq<Str>>>, ghost slots0: seq<nat>) returns (dead: bool)
    requires PhaseOk(table, all, jobs, ws0, Free, entries0, slots0, false) && FinalCapacity(all)
    modifies table, table.order
    ensures forall x | x in table.order && x !in old(table.order) :: fresh(x)
    ensures table.Valid() && if dead then OutOfBuckets(table) else IsGrouping(Contents(table.order), multiset(all))
  {
    var ws, entries := ws0, entries0;
    var m: Mutex := Free;
    ghost var slots := slots0;
    dead := false;
    while !dead && !AllFinished(ws)
      invariant PhaseOk(table, all, jobs, ws, m, entries, slots, dead)
      invariant forall x | x in table.order && x !in old(table.order) :: fresh(x)
      decreases AllStepsLeft(jobs, ws)
    {
      ws, m, entries, slots, dead := ReduceTurn(table, all, jobs, ws, m, entries, slots);
    }
    if !dead {
      PhaseEnd(table, all, jobs, ws, m, entries, slots);
    }
  }

  ghost predicate PhaseOk(table: FinalTable, all: seq<Pair>, jobs: seq<seq<Pair>>, ws: seq<Worker>, m: Mutex,
                          entries: seq<Item?<seq<Str>>>, slots: seq<nat>, dead: bool)
    reads table, table.order
  {
    && table.Valid() && WorkersOk(jobs, ws, m)
    && if dead then OutOfBuckets(table) else ReducingOk(table, all, jobs, ws, m, entries, slots)
  }

  method ReduceTurn(table: FinalTable, ghost all: seq<Pair>, jobs: seq<seq<Pair>>, ws: seq<Worker>, m: Mutex,
                    entries: seq<Item?<seq<Str>>>, ghost slots: seq<nat>)
    returns (ws': seq<Worker>, m': Mutex, entries': seq<Item?<seq<Str>>>, ghost slots': seq<nat>, dead: bool)
    requires PhaseOk(table, all, jobs, ws, m, entries, slots, false) && FinalCapacity(all) && !AllFinished(ws)
    modifies table, table.order
    ensures forall x | x in table.order && x !in old(table.order) :: fresh(x)
    ensures PhaseOk(table, all, jobs, ws', m', entries', slots', dead)
    ensures AllStepsLeft(jobs, ws') < AllStepsLeft(jobs, ws)
  {
    hide StoreInv, Advance, Grab, KeySet, FewValues, AllFit, CanStep, table.Valid, AllStepsLeft, AllFinished;
    var t := Pick(jobs, ws, m);
    StepsRunOut(jobs, ws, m, t);
    ws', m', entries', slots', dead := ReduceStep(table, all, jobs, ws, m, entries, slots, t);
  }

  lemma PhaseEnd(table: FinalTable, all: seq<Pair>, jobs: seq<seq<Pair>>, ws: seq<Worker>, m: Mutex,
                 entries: seq<Item?<seq<Str>>>, slots: seq<nat>)
    requires PhaseOk(table, all, jobs, ws, m, entries, slots, false) && AllFinished(ws)
    ensures IsGrouping(Contents(table.order), multiset(all))
  {
    hide StoreInv, table.Valid;
    StoreEnd(all, Contents(table.order), jobs, ws, m, slots);
  }

  lemma ReduceStart(table: FinalTable, all: seq<Pair>, jobs: seq<seq<Pair>>, count: nat,
                    entries: seq<Item?<seq<Str>>>, slots: seq<nat>)
    requires table.Valid() && count > 0 && |entries| == |slots| == count
    requires NoneEmpty(Contents(table.order)) && all == AllPairs(Contents(table.order)) + Concat(jobs)
    ensures PhaseOk(table, all, jobs, Parts(|jobs|, PartSize(|jobs|, count), count), Free, entries, slots, false)
  {
    hide AllPairs, Concat, PartSize, table.AppOk, table.BktsOk;
    StoreStart(all, Contents(table.order), jobs, count, slots);
  }

  // ---------- the output ----------

  lemma SortedAscending(o: seq<Entry>)
    requires UniqueKeys(o) && Sorted(Le(ByKey<seq<Str>>), o)
    ensures Ascending(Contents(o))
  {
    SortedAscends(o);
  }

  // Reordering the entries leaves the bag of pairs as it is.
  lemma ReorderedPairs(o: seq<Entry>, p: seq<Entry>)
    requires UniqueKeys(o) && UniqueKeys(p) && multiset(o) == multiset(p)
    ensures multiset(AllPairs(Contents(o))) == multiset(AllPairs(Contents(p)))
    ensures NoneEmpty(Contents(o)) ==> NoneEmpty(Contents(p))
  {
    hide AllPairs, IndexOf;
    SameElements(o, p);
    forall x ensures multiset(AllPairs(Contents(o)))[x] == multiset(AllPairs(Contents(p)))[x] {
      GroupBag(Contents(o), x);
      GroupBag(Contents(p), x);
      SameCount(o, p, x);
    }
    forall i | 0 <= i < |p| && NoneEmpty(Contents(o)) ensures Contents(p)[i].values != [] {
      assert p[i] in o;
      var j: nat :| j < |o| && o[j] == p[i];
      assert Contents(o)[j].values != [];
    }
  }

  lemma SameCount(o: seq<Entry>, p: seq<Entry>, x: Pair)
    requires UniqueKeys(o) && UniqueKeys(p) && forall e :: e in o <==> e in p
    ensures ValueCount(Contents(o), IndexOf(Contents(o), x.key), x.value)
         == ValueCount(Contents(p), IndexOf(Contents(p), x.key), x.value)
  {
    hide IndexOf;
    var i, j := IndexOf(Contents(o), x.key), IndexOf(Contents(p), x.key);
    if i < |o| {
      assert o[i] in p;
      var k: nat :| k < |p| && p[k] == o[i];
      IndexIs(Contents(p), x.key, k);
    } else {
      forall k | 0 <= k < |p| ensures p[k].key != x.key {
        assert p[k] in o;
        var l: nat :| l < |o| && o[l] == p[k];
        assert Contents(o)[l].key != x.key;
      }
    }
  }

  // The copying loop: HASH_ITER in application order.
  method CopyOut(table: FinalTable) returns (output: seq<Group>)
    requires table.Valid()
    ensures output == Contents(table.order)
  {
    hide table.BktsOk;
    output := [];
    ghost var i := 0;
    var entry: Item?<seq<Str>> := table.head;
    while entry != null
      invariant i <= |table.order| && entry == At(table.order, i)
      invariant output == Contents(table.order)[..i]
      decreases |table.order| - i
    {
      output := output + [Group(entry.key, entry.value)];
      entry := entry.next;
      i := i + 1;
    }
  }

  // HASH_SORT and the copy.
  method WriteOutput(table: FinalTable) returns (output: seq<Group>)
    requires table.Valid() && NoneEmpty(Contents(table.order))
    modifies table, table.order
    ensures table.Valid() && output == Contents(table.order)
    ensures Ascending(output) && NoneEmpty(output)
    ensures multiset(AllPairs(output)) == old(multiset(AllPairs(Contents(table.order))))
  {
    hide AllPairs, Ascending, NoneEmpty, table.AppOk, table.BktsOk;
    SortByKey(table);
    output := CopyOut(table);
  }

  method SortByKey(table: FinalTable)
    requires table.Valid() && NoneEmpty(Contents(table.order))
    modifies table, table.order`next, table.order`prev
    ensures table.Valid() && Ascending(Contents(table.order)) && NoneEmpty(Contents(table.order))
    ensures multiset(AllPairs(Contents(table.order))) == old(multiset(AllPairs(Contents(table.order))))
  {
    hide table.AppOk, table.BktsOk, AllPairs, UniqueKeys, TotalPreorder;
    ghost var o, gs := table.order, Contents(table.order);
    KeysAreOrdered(o);
    table.Sort(ByKey<seq<Str>>);
    assert Contents(o) == gs;
    ReorderedPairs(o, table.order);
    SortedAscending(table.order);
  }

  // ---------- mr_exec ----------

  // The same job done by one thread, in turn: map every input, group the pairs as they come,
  // reduce every group.
  function InTurn<In>(map_: In -> seq<Pair>, reduce: Group -> seq<Pair>, input: seq<In>): seq<Pair> {
    Concat(EmitAll(reduce, GroupInTurn(Concat(EmitAll(map_, input)))))
  }

  // mr_exec, for any thread counts and any schedule. It returns 0, unless the table has asked for
  // more buckets than there can be and the program has exited (-1).
  method MrExec<In>(st: Intermediate, table: FinalTable, map_: In -> seq<Pair>, reduce: Group -> seq<Pair>,
                    input: seq<In>, mapperCount: nat, reducerCount: nat) returns (r: int, output: seq<Group>)
    requires st.Valid() && table.Valid() && NoneEmpty(Contents(table.order))
    requires mapperCount > 0 && reducerCount > 0 && OrderInsensitive(reduce)
    requires WithinCapacity(Concat(EmitAll(map_, input)))
    requires FinalCapacity(AllPairs(Contents(table.order)) + InTurn(map_, reduce, input))
    modifies st, st.slots, table, table.order
    ensures st.Valid() && table.Valid()
    ensures r == 0 || (r == -1 && OutOfBuckets(table))
    ensures r == 0 ==> output == Contents(table.order) && Ascending(output) && NoneEmpty(output)
    ensures r == 0 ==>
      multiset(AllPairs(output)) ==
        old(multiset(AllPairs(Contents(table.order)))) + multiset(InTurn(map_, reduce, input))
  {
    hide WithinCapacity, FinalCapacity, OrderInsensitive, IsGrouping, AllPairs, table.Valid, GroupInTurn, Concat;
    var jobs := EmitAll(map_, input);
    MapPhase(st, jobs, mapperCount);
    r, output := ReduceAndWrite(table, reduce, st.Groups(), Concat(jobs), reducerCount);
  }

  // The second half of mr_exec, given the groups the mappers have left.
  method ReduceAndWrite(table: FinalTable, reduce: Group -> seq<Pair>, gs: seq<Group>, ghost pairs: seq<Pair>,
                        reducerCount: nat) returns (r: int, output: seq<Group>)
    requires table.Valid() && NoneEmpty(Contents(table.order))
    requires reducerCount > 0 && OrderInsensitive(reduce) && IsGrouping(gs, multiset(pairs))
    requires FinalCapacity(AllPairs(Contents(table.order)) + Concat(EmitAll(reduce, GroupInTurn(pairs))))
    modifies table, table.order
    ensures table.Valid()
    ensures r == 0 || (r == -1 && OutOfBuckets(table))
    ensures r == 0 ==> output == Contents(table.order) && Ascending(output) && NoneEmpty(output)
    ensures r == 0 ==>
      multiset(AllPairs(output)) ==
        old(multiset(AllPairs(Contents(table.order)))) + multiset(Concat(EmitAll(reduce, GroupInTurn(pairs))))
  {
    hide FinalCapacity, OrderInsensitive, IsGrouping, AllPairs, GroupInTurn, Concat, OutOfBuckets;
    var jobs := EmitAll(reduce, gs);
    SameReductions(reduce, gs, pairs);
    EnoughRoom(AllPairs(Contents(table.order)), Concat(EmitAll(reduce, GroupInTurn(pairs))), Concat(jobs));
    var dead := ReducePhase(table, jobs, reducerCount);
    if dead {
      return -1, [];
    }
    GroupingParts(Contents(table.order), old(multiset(AllPairs(Contents(table.order)))) + multiset(Concat(jobs)));
    output := WriteOutput(table);
    r := 0;
  }

  lemma SameReductions(reduce: Group -> seq<Pair>, gs: seq<Group>, pairs: seq<Pair>)
    requires OrderInsensitive(reduce) && IsGrouping(gs, multiset(pairs))
    ensures multiset(Concat(EmitAll(reduce, gs))) == multiset(Concat(EmitAll(reduce, GroupInTurn(pairs))))
  {
    hide OrderInsensitive, AllPairs, GroupInTurn;
    GroupInTurnGroups(pairs);
    ReduceAgrees(reduce, gs, GroupInTurn(pairs));
  }

  lemma GroupingParts(gs: seq<Group>, bag: multiset<Pair>)
    requires IsGrouping(gs, bag)
    ensures NoneEmpty(gs) && multiset(AllPairs(gs)) == bag
  {
  }

  // Capacity is a matter of the bag of pairs, not of their order.
  lemma EnoughRoom(base: seq<Pair>, a: seq<Pair>, b: seq<Pair>)
    requires FinalCapacity(base + a) && multiset(a) == multiset(b)
    ensures FinalCapacity(base + b)
  {
    var x, y := base + a, base + b;
    assert multiset(x) == multiset(base) + multiset(a);
    assert multiset(y) == multiset(base) + multiset(b);
    SameElements(x, y);
    forall key ensures |Keyed(y, key)| <= MAX_VALUES_PER_KEY {
      KeyedWithin(y, x, key);
    }
    forall i | 0 <= i < |y| ensures Fits(y[i].key) && Fits(y[i].value) && y[i].key in KeySet(x) {
      assert y[i] in x;
      var j: nat :| j < |x| && x[j] == y[i];
    }
    assert KeySet(y) <= KeySet(x);
    assert KeySet(x) == KeySet(y) + (KeySet(x) - KeySet(y));
  }

  // The outputs of any two executions on the same input agree on the keys, their order and the
  // values under each.
  lemma ScheduleDoesNotShow<In>(map_: In -> seq<Pair>, reduce: Group -> seq<Pair>, input: seq<In>,
                                a: seq<Group>, b: seq<Group>)
    requires Ascending(a) && NoneEmpty(a) && multiset(AllPairs(a)) == multiset(InTurn(map_, reduce, input))
    requires Ascending(b) && NoneEmpty(b) && multiset(AllPairs(b)) == multiset(InTurn(map_, reduce, input))
    ensures SameOutput(a, b)
  {
    OutputsAgree(a, b);
  }

  // Equal but for the order of the values under a key.
  ghost predicate SameOutput(a: seq<Group>, b: seq<Group>) {
    && |a| == |b|
    && forall i | 0 <= i < |a| :: a[i].key == b[i].key && multiset(a[i].values) == multiset(b[i].values)
  }

  // The schedule does not show: mr_exec run twice on the same input, each time from an empty final
  // table and with thread counts and a schedule of its own, gives the same output.
  method MrExecTwice<In>(hash: Str -> nat, map_: In -> seq<Pair>, reduce: Group -> seq<Pair>, input: seq<In>,
                         mappers: (nat, nat), reducers: (nat, nat))
    returns (r: int, a: seq<Group>, s: int, b: seq<Group>, ghost t: FinalTable, ghost u: FinalTable)
    requires mappers.0 > 0 && mappers.1 > 0 && reducers.0 > 0 && reducers.1 > 0 && OrderInsensitive(reduce)
    requires WithinCapacity(Concat(EmitAll(map_, input))) && FinalCapacity(InTurn(map_, reduce, input))
    ensures r == 0 && s == 0 ==> SameOutput(a, b)
    ensures (r == 0 || (r == -1 && OutOfBuckets(t))) && (s == 0 || (s == -1 && OutOfBuckets(u)))
  {
    hide WithinCapacity, FinalCapacity, OrderInsensitive, InTurn, SameOutput, Ascending, NoneEmpty;
    r, a, t := MrExecOnce(hash, map_, reduce, input, mappers.0, reducers.0);
    s, b, u := MrExecOnce(hash, map_, reduce, input, mappers.1, reducers.1);
    if r == 0 && s == 0 {
      ScheduleDoesNotShow(map_, reduce, input, a, b);
    }
  }

  // mr_exec from an empty final table.
  method MrExecOnce<In>(hash: Str -> nat, map_: In -> seq<Pair>, reduce: Group -> seq<Pair>, input: seq<In>,
                        mapperCount: nat, reducerCount: nat)
    returns (r: int, output: seq<Group>, ghost table: FinalTable)
    requires mapperCount > 0 && reducerCount > 0 && OrderInsensitive(reduce)
    requires WithinCapacity(Concat(EmitAll(map_, input))) && FinalCapacity(InTurn(map_, reduce, input))
    ensures fresh(table) && table.Valid() && (r == 0 || (r == -1 && OutOfBuckets(table)))
    ensures r == 0 ==> Ascending(output) && NoneEmpty(output)
    ensures r == 0 ==> multiset(AllPairs(output)) == multiset(InTurn(map_, reduce, input))
  {
    hide WithinCapacity, FinalCapacity, OrderInsensitive, InTurn, Ascending;
    var final := new HashTable(hash);
    table := final;
    var st := new Intermediate();
    NothingYet(final, InTurn(map_, reduce, input));
    r, output := MrExec(st, final, map_, reduce, input, mapperCount, reducerCount);
  }

  lemma NothingYet(table: FinalTable, pairs: seq<Pair>)
    requires table.order == []
    ensures AllPairs(Contents(table.order)) == [] && AllPairs(Contents(table.order)) + pairs == pairs
    ensures multiset(AllPairs(Contents(table.order))) + multiset(pairs) == multiset(pairs)
  {
  }
}
