// What every step of every thread keeps while pairs are stored under a mutex: the part of the
// reasoning that the map phase and the reduce phase of mr_exec share.
module StoreSteps {
  import opened Bytes
  import opened Workers
  import opened Groups

  const MAX_INTERMEDIATE: nat := 1024
  const MAX_VALUES_PER_KEY: nat := 256
  const MAX_KEY_SIZE: nat := 16
  const MAX_VALUE_SIZE: nat := 16

  // Fits a char[16] with its terminator.
  predicate Fits(s: Str) {
    |s| < MAX_KEY_SIZE == MAX_VALUE_SIZE && 0 !in s
  }

  predicate AllFit(pairs: seq<Pair>) {
    forall i | 0 <= i < |pairs| :: Fits(pairs[i].key) && Fits(pairs[i].value)
  }

  ghost function KeySet(all: seq<Pair>): set<Str> {
    set i | 0 <= i < |all| :: all[i].key
  }

  // The pairs of one key.
  function Keyed(all: seq<Pair>, key: Str): seq<Pair> {
    if all == [] then []
    else Keyed(all[..|all| - 1], key) + if all[|all| - 1].key == key then [all[|all| - 1]] else []
  }

  // No key has more values than its buffer has room for.
  ghost predicate FewValues(all: seq<Pair>) {
    forall key: Str :: |Keyed(all, key)| <= MAX_VALUES_PER_KEY
  }

  lemma {:induction false} KeyedBag(all: seq<Pair>, key: Str, x: Pair)
    ensures multiset(Keyed(all, key))[x] == if x.key == key then multiset(all)[x] else 0
  {
    if all != [] {
      var front := all[..|all| - 1];
      KeyedBag(front, key, x);
      assert all == front + [all[|all| - 1]];
    }
  }

  // Counting by key is a matter of the bag alone.
  lemma KeyedWithin(some: seq<Pair>, all: seq<Pair>, key: Str)
    requires multiset(some) <= multiset(all)
    ensures |Keyed(some, key)| <= |Keyed(all, key)|
  {
    var a, b := multiset(Keyed(some, key)), multiset(Keyed(all, key));
    forall x ensures a[x] <= b[x] {
      KeyedBag(some, key, x);
      KeyedBag(all, key, x);
    }
    assert b == a + (b - a);
  }

  lemma KeyedAll(some: seq<Pair>, key: Str)
    requires forall i | 0 <= i < |some| :: some[i].key == key
    ensures Keyed(some, key) == some
  {
    if some != [] {
      assert some == some[..|some| - 1] + [some[|some| - 1]];
    }
  }

  // ---------- the invariant ----------

  // The thread is about to store its item in the group it has found.
  predicate AtHand(gs: seq<Group>, jobs: seq<seq<Pair>>, w: Worker, slot: nat) {
    HasItem(jobs, w) && slot < |gs| && gs[slot].key == jobs[w.next][w.sub].key
  }

  // A group without values has just been created by the thread in the critical section.
  predicate Awaited(ws: seq<Worker>, m: Mutex, slots: seq<nat>, i: nat) {
    m.HeldBy? && m.t < |ws| && m.t < |slots| && ws[m.t].pc.Found? && slots[m.t] == i
  }

  // all is what the groups will hold in the end.
  ghost predicate StoreInv(all: seq<Pair>, gs: seq<Group>, jobs: seq<seq<Pair>>, ws: seq<Worker>, m: Mutex,
                           slots: seq<nat>) {
    && WorkersOk(jobs, ws, m) && |slots| == |ws|
    && DistinctKeys(gs)
    && multiset(AllPairs(gs)) + multiset(Pending(jobs, ws)) == multiset(all)
    && (forall i | 0 <= i < |gs| :: gs[i].key in KeySet(all))
    && Hands(gs, jobs, ws, slots)
    && Awaits(gs, ws, m, slots)
  }

  predicate Hands(gs: seq<Group>, jobs: seq<seq<Pair>>, ws: seq<Worker>, slots: seq<nat>)
    requires |slots| == |ws|
  {
    forall t | 0 <= t < |ws| && ws[t].pc.Found? :: AtHand(gs, jobs, ws[t], slots[t])
  }

  predicate Awaits(gs: seq<Group>, ws: seq<Worker>, m: Mutex, slots: seq<nat>) {
    forall i | 0 <= i < |gs| && gs[i].values == [] :: Awaited(ws, m, slots, i)
  }

  lemma StoreStart(all: seq<Pair>, gs: seq<Group>, jobs: seq<seq<Pair>>, count: nat, slots: seq<nat>)
    requires count > 0 && |slots| == count && all == AllPairs(gs) + Concat(jobs)
    requires DistinctKeys(gs) && NoneEmpty(gs)
    ensures StoreInv(all, gs, jobs, Parts(|jobs|, PartSize(|jobs|, count), count), Free, slots)
  {
    hide WorkersOk, Pending, Concat, AllPairs, PartSize;
    EachJobOnce(jobs, count);
    forall i | 0 <= i < |gs| ensures gs[i].key in KeySet(all) {
      GroupKeyPresent(gs, i);
      var x := Pair(gs[i].key, gs[i].values[0]);
      var j: nat :| j < |AllPairs(gs)| && AllPairs(gs)[j] == x;
      assert all[j] == x;
    }
  }

  lemma GroupKeyPresent(gs: seq<Group>, i: nat)
    requires DistinctKeys(gs) && i < |gs| && gs[i].values != []
    ensures Pair(gs[i].key, gs[i].values[0]) in AllPairs(gs)
  {
    hide AllPairs, IndexOf;
    var x := Pair(gs[i].key, gs[i].values[0]);
    IndexIs(gs, x.key, i);
    GroupBag(gs, x);
    assert gs[i].values[0] in multiset(gs[i].values);
    assert x in multiset(AllPairs(gs));
  }

  // Once every thread is through, the groups hold all the pairs.
  lemma StoreEnd(all: seq<Pair>, gs: seq<Group>, jobs: seq<seq<Pair>>, ws: seq<Worker>, m: Mutex, slots: seq<nat>)
    requires StoreInv(all, gs, jobs, ws, m, slots)
    requires forall t | 0 <= t < |ws| :: Finished(ws[t])
    ensures IsGrouping(gs, multiset(all))
  {
    NothingPending(jobs, ws);
    assert multiset(AllPairs(gs)) == multiset(all);
  }

  // ---------- the item at hand ----------

  lemma {:induction false} RestIsPending<T>(jobs: seq<seq<T>>, ws: seq<Worker>, t: nat)
    requires t < |ws| && forall u | 0 <= u < |ws| :: WorkerOk(jobs, ws[u])
    ensures multiset(Rest(jobs, ws[t])) <= multiset(Pending(jobs, ws))
  {
    hide Rest, Pending, WorkerOk;
    PendingLast(jobs, ws);
    if t < |ws| - 1 {
      RestIsPending(jobs, ws[..|ws| - 1], t);
    }
  }

  // An item not yet stored is among all the pairs, over and above those stored already.
  lemma StillToStore(all: seq<Pair>, gs: seq<Group>, jobs: seq<seq<Pair>>, ws: seq<Worker>, m: Mutex,
                     slots: seq<nat>, t: nat)
    requires StoreInv(all, gs, jobs, ws, m, slots) && t < |ws| && HasItem(jobs, ws[t])
    ensures var x := jobs[ws[t].next][ws[t].sub];
      multiset(AllPairs(gs)) + multiset{x} <= multiset(all) && x.key in KeySet(all)
  {
    hide AllPairs, Pending;
    var w := ws[t];
    var x := jobs[w.next][w.sub];
    RestIsPending(jobs, ws, t);
    FirstOfRest(jobs, w);
    assert multiset{x} <= multiset(Pending(jobs, ws));
    assert x in multiset(all);
    var i: nat :| i < |all| && all[i] == x;
  }

  lemma FirstOfRest<T>(jobs: seq<seq<T>>, w: Worker)
    requires WorkerOk(jobs, w) && HasItem(jobs, w)
    ensures multiset{jobs[w.next][w.sub]} <= multiset(Rest(jobs, w))
  {
    StoringTakesOne(jobs[w.next], w.sub, Concat(jobs[w.next + 1..w.end]));
    hide Concat;
    var x := jobs[w.next][w.sub];
    assert x in Rest(jobs, w);
  }

  // ---------- room ----------

  // There is room for a group whenever one has to be created.
  lemma RoomForGroup(all: seq<Pair>, gs: seq<Group>, key: Str)
    requires DistinctKeys(gs) && key in KeySet(all) && forall i | 0 <= i < |gs| :: gs[i].key in KeySet(all)
    ensures |gs| <= |KeySet(all)|
    ensures IndexOf(gs, key) == |gs| ==> |gs| < |KeySet(all)|
  {
    hide KeySet, IndexOf;
    KeysCount(gs, KeySet(all));
    if IndexOf(gs, key) == |gs| {
      KeysCount(gs + [Group(key, [])], KeySet(all));
    }
  }

  lemma {:induction false} KeysCount(gs: seq<Group>, keys: set<Str>)
    requires DistinctKeys(gs) && forall i | 0 <= i < |gs| :: gs[i].key in keys
    ensures |gs| <= |keys|
  {
    if gs != [] {
      var n := |gs| - 1;
      KeysCount(gs[..n], keys - {gs[n].key});
    }
  }

  // There is room for a value whenever one has to be stored.
  lemma RoomForValue(all: seq<Pair>, gs: seq<Group>, slot: nat, value: Str)
    requires slot < |gs| && FewValues(all)
    requires multiset(AllPairs(gs)) + multiset{Pair(gs[slot].key, value)} <= multiset(all)
    ensures |gs[slot].values| < MAX_VALUES_PER_KEY
  {
    hide AllPairs, Keyed;
    var key := gs[slot].key;
    var some := PairsOf(gs[slot]) + [Pair(key, value)];
    PairsWithout(gs, slot);
    assert multiset(some) == multiset(PairsOf(gs[slot])) + multiset{Pair(key, value)};
    assert multiset(some) <= multiset(all);
    KeyedAll(some, key);
    KeyedWithin(some, all, key);
  }

  // The item at hand fits, there is room for its group, and in its group for its value.
  lemma Room(all: seq<Pair>, gs: seq<Group>, jobs: seq<seq<Pair>>, ws: seq<Worker>, m: Mutex, slots: seq<nat>, t: nat)
    requires StoreInv(all, gs, jobs, ws, m, slots) && FewValues(all) && AllFit(all)
    requires t < |ws| && HasItem(jobs, ws[t])
    ensures |slots| == |ws| && |gs| <= |KeySet(all)|
    ensures var x := jobs[ws[t].next][ws[t].sub];
      && Fits(x.key) && Fits(x.value)
      && IndexOf(gs, x.key) < |KeySet(all)|
      && (ws[t].pc.Found? ==> slots[t] < |gs| && |gs[slots[t]].values| < MAX_VALUES_PER_KEY)
  {
    hide Pending, AllPairs, KeySet, FewValues, IndexOf, Concat;
    var x := jobs[ws[t].next][ws[t].sub];
    StillToStore(all, gs, jobs, ws, m, slots, t);
    assert x in multiset(all);
    var i: nat :| i < |all| && all[i] == x;
    RoomForGroup(all, gs, x.key);
    if ws[t].pc.Found? {
      assert AtHand(gs, jobs, ws[t], slots[t]);
      RoomForValue(all, gs, slots[t], x.value);
    }
  }

  // ---------- the steps ----------

  // Taking or releasing the mutex, or going on to the next job.
  lemma OtherStep(all: seq<Pair>, gs: seq<Group>, jobs: seq<seq<Pair>>, ws: seq<Worker>, m: Mutex,
                  slots: seq<nat>, t: nat)
    requires StoreInv(all, gs, jobs, ws, m, slots) && t < |ws| && CanStep(jobs, ws[t], m)
    requires ws[t].pc.Idle? || ws[t].pc.Stored?
    ensures StoreInv(all, gs, jobs, ws[t := Advance(jobs, ws[t])], Grab(jobs, ws[t], m, t), slots)
  {
    hide Pending, AllPairs, KeySet, Advance, Grab, Hands, Awaits;
    PendingAfterStep(jobs, ws, m, t);
    OtherHands(gs, jobs, ws, m, slots, t);
    hide WorkersOk;
  }

  lemma OtherHands(gs: seq<Group>, jobs: seq<seq<Pair>>, ws: seq<Worker>, m: Mutex, slots: seq<nat>, t: nat)
    requires WorkersOk(jobs, ws, m) && |slots| == |ws| && Hands(gs, jobs, ws, slots) && Awaits(gs, ws, m, slots)
    requires t < |ws| && CanStep(jobs, ws[t], m) && (ws[t].pc.Idle? || ws[t].pc.Stored?)
    ensures var ws' := ws[t := Advance(jobs, ws[t])];
      Hands(gs, jobs, ws', slots) && Awaits(gs, ws', Grab(jobs, ws[t], m, t), slots)
  {
    assert forall i | 0 <= i < |gs| && gs[i].values == [] :: Awaited(ws, m, slots, i);
  }

  lemma FindStep(all: seq<Pair>, gs: seq<Group>, jobs: seq<seq<Pair>>, ws: seq<Worker>, m: Mutex,
                 slots: seq<nat>, t: nat)
    requires StoreInv(all, gs, jobs, ws, m, slots) && t < |ws| && ws[t].pc.Locked?
    ensures HasItem(jobs, ws[t])
    ensures var key := jobs[ws[t].next][ws[t].sub].key;
      StoreInv(all, FindOrAdd(gs, key), jobs, ws[t := Advance(jobs, ws[t])], Grab(jobs, ws[t], m, t),
               slots[t := IndexOf(gs, key)])
  {
    hide Pending, AllPairs, KeySet, IndexOf, Advance, Grab;
    ItemAtHand(jobs, ws, m, t);
    assert CanStep(jobs, ws[t], m);
    var key := jobs[ws[t].next][ws[t].sub].key;
    PendingAfterStep(jobs, ws, m, t);
    StillToStore(all, gs, jobs, ws, m, slots, t);
    FindKeepsKeys(gs, key);
    FindHands(gs, jobs, ws, m, slots, t);
    hide WorkersOk, Hands, Awaits;
  }

  // The thread in the critical section has found its group, or made it.
  lemma FindHands(gs: seq<Group>, jobs: seq<seq<Pair>>, ws: seq<Worker>, m: Mutex, slots: seq<nat>, t: nat)
    requires WorkersOk(jobs, ws, m) && |slots| == |ws| && Hands(gs, jobs, ws, slots) && Awaits(gs, ws, m, slots)
    requires t < |ws| && ws[t].pc.Locked? && HasItem(jobs, ws[t])
    ensures var key := jobs[ws[t].next][ws[t].sub].key;
      var ws', slots' := ws[t := Advance(jobs, ws[t])], slots[t := IndexOf(gs, key)];
      Hands(FindOrAdd(gs, key), jobs, ws', slots') && Awaits(FindOrAdd(gs, key), ws', Grab(jobs, ws[t], m, t), slots')
  {
    hide IndexOf;
    assert m == HeldBy(t);
    assert Awaits(gs, ws, m, slots) ==> forall i | 0 <= i < |gs| :: gs[i].values != [];
  }

  lemma StoreStep(all: seq<Pair>, gs: seq<Group>, jobs: seq<seq<Pair>>, ws: seq<Worker>, m: Mutex,
                  slots: seq<nat>, t: nat)
    requires StoreInv(all, gs, jobs, ws, m, slots) && t < |ws| && ws[t].pc.Found?
    ensures AtHand(gs, jobs, ws[t], slots[t])
    ensures StoreInv(all, StoreAt(gs, slots[t], jobs[ws[t].next][ws[t].sub].value), jobs,
                     ws[t := Advance(jobs, ws[t])], Grab(jobs, ws[t], m, t), slots)
  {
    hide Pending, AllPairs, KeySet, Advance, Grab;
    assert CanStep(jobs, ws[t], m);
    PendingAfterStep(jobs, ws, m, t);
    StoreAddsPair(gs, slots[t], jobs[ws[t].next][ws[t].sub].value);
    StoreHands(gs, jobs, ws, m, slots, t, jobs[ws[t].next][ws[t].sub].value);
    hide WorkersOk, Hands, Awaits;
  }

  lemma StoreHands(gs: seq<Group>, jobs: seq<seq<Pair>>, ws: seq<Worker>, m: Mutex, slots: seq<nat>, t: nat, value: Str)
    requires WorkersOk(jobs, ws, m) && |slots| == |ws| && Hands(gs, jobs, ws, slots) && Awaits(gs, ws, m, slots)
    requires t < |ws| && ws[t].pc.Found? && slots[t] < |gs|
    ensures var ws', gs' := ws[t := Advance(jobs, ws[t])], StoreAt(gs, slots[t], value);
      Hands(gs', jobs, ws', slots) && Awaits(gs', ws', Grab(jobs, ws[t], m, t), slots)
  {
    assert m == HeldBy(t);
    forall i | 0 <= i < |gs| && i != slots[t] ensures gs[i].values != [] {
      assert !Awaited(ws, m, slots, i);
    }
  }
}
