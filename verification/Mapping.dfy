// The map phase of lecture/test3/src/interface.c: the intermediate store and the mappers. The
// scheduler is demonic: at every turn any thread that is able to run may be the one that does.
module Mapping {
  import opened Bytes
  import opened Workers
  import opened Groups
  import opened StoreSteps

  // ---------- the intermediate store ----------

  class Intermediate {
    const slots: array<Group>
    var count: nat

    constructor ()
      ensures Valid() && fresh(slots)
    {
      slots := new Group[MAX_INTERMEDIATE](_ => Group([], []));
      count := 0;
    }

    ghost predicate Valid()
      reads this
    {
      slots.Length == MAX_INTERMEDIATE && count <= MAX_INTERMEDIATE
    }

    function Groups(): seq<Group>
      requires Valid()
      reads this, slots
    {
      slots[..count]
    }

    // init_intermediate, and the reset of the count
    method Init()
      requires Valid()
      modifies this, slots
      ensures Valid() && Groups() == []
    {
      for i := 0 to MAX_INTERMEDIATE
        invariant Valid()
      {
        slots[i] := Group([], []);
      }
      count := 0;
    }

    // find_or_create_intermediate; -1 stands for the null pointer.
    method FindOrCreate(key: Str) returns (slot: int)
      requires Valid() && Fits(key)
      modifies this, slots
      ensures Valid()
      ensures IndexOf(old(Groups()), key) == MAX_INTERMEDIATE ==> slot == -1 && Groups() == old(Groups())
      ensures IndexOf(old(Groups()), key) < MAX_INTERMEDIATE ==>
        slot == IndexOf(old(Groups()), key) && Groups() == FindOrAdd(old(Groups()), key)
    {
      var i := 0;
      while i < count
        invariant 0 <= i <= count
        invariant forall j | 0 <= j < i :: slots[j].key != key
      {
        if slots[i].key == key {
          IndexIs(Groups(), key, i);
          return i;
        }
        i := i + 1;
      }
      IndexIs(Groups(), key, count);
      if count >= MAX_INTERMEDIATE {
        return -1;
      }
      slot := count;
      slots[slot] := Group(key, []);
      count := count + 1;
      assert Groups() == old(Groups()) + [Group(key, [])];
    }

    // strcpy(kv->value[kv->count], value); kv->count++
    method Append(slot: nat, value: Str)
      requires Valid() && slot < count && |Groups()[slot].values| < MAX_VALUES_PER_KEY && Fits(value)
      modifies slots
      ensures Groups() == StoreAt(old(Groups()), slot, value)
    {
      slots[slot] := Group(slots[slot].key, slots[slot].values + [value]);
    }

    // mr_emit_i, with no other thread about: one more pair is grouped, unless its key is new and
    // the store is full.
    method EmitI(key: Str, value: Str) returns (r: int)
      requires Valid() && Fits(key) && Fits(value)
      requires forall i | 0 <= i < |Groups()| :: Groups()[i].key == key ==> |Groups()[i].values| < MAX_VALUES_PER_KEY
      requires IsGrouping(Groups(), multiset(AllPairs(Groups())))
      modifies this, slots
      ensures Valid()
      ensures r == -1 <==> IndexOf(old(Groups()), key) == MAX_INTERMEDIATE
      ensures r == -1 ==> Groups() == old(Groups())
      ensures r != -1 ==> r == 0 && IsGrouping(Groups(), old(multiset(AllPairs(Groups()))) + multiset{Pair(key, value)})
    {
      GroupOne(Groups(), multiset(AllPairs(Groups())), Pair(key, value));
      var slot := FindOrCreate(key);
      if slot < 0 {
        return -1;
      }
      Append(slot, value);
      return 0;
    }
  }

  // ---------- the map phase ----------

  ghost predicate MappingOk(st: Intermediate, jobs: seq<seq<Pair>>, ws: seq<Worker>, m: Mutex, slots: seq<nat>)
    reads st, st.slots
  {
    st.Valid() && StoreInv(Concat(jobs), st.Groups(), jobs, ws, m, slots)
  }

  // What the store is big enough for.
  ghost predicate WithinCapacity(all: seq<Pair>) {
    |KeySet(all)| <= MAX_INTERMEDIATE && FewValues(all) && AllFit(all)
  }

  // One step of mapper t; slots[t] is its local variable kv.
  method MapStep(st: Intermediate, jobs: seq<seq<Pair>>, ws: seq<Worker>, m: Mutex, slots: seq<nat>, t: nat)
    returns (ws': seq<Worker>, m': Mutex, slots': seq<nat>)
    requires MappingOk(st, jobs, ws, m, slots) && WithinCapacity(Concat(jobs))
    requires t < |ws| && CanStep(jobs, ws[t], m)
    modifies st, st.slots
    ensures MappingOk(st, jobs, ws', m', slots')
    ensures ws' == ws[t := Advance(jobs, ws[t])] && m' == Grab(jobs, ws[t], m, t)
  {
    hide StoreInv, Concat, Advance, Grab, KeySet, FewValues, CanStep;
    ghost var all, gs := Concat(jobs), st.Groups();
    var w := ws[t];
    ws', m', slots' := ws[t := Advance(jobs, w)], Grab(jobs, w, m, t), slots;
    if w.pc.Locked? {
      FindStep(all, gs, jobs, ws, m, slots, t);
      var key := jobs[w.next][w.sub].key;
      Room(all, gs, jobs, ws, m, slots, t);
      var slot := st.FindOrCreate(key);
      slots' := slots[t := slot];
    } else if w.pc.Found? {
      StoreStep(all, gs, jobs, ws, m, slots, t);
      Room(all, gs, jobs, ws, m, slots, t);
      st.Append(slots[t], jobs[w.next][w.sub].value);
    } else {
      OtherStep(all, gs, jobs, ws, m, slots, t);
    }
  }

  predicate AllFinished(ws: seq<Worker>) {
    forall t | 0 <= t < |ws| :: Finished(ws[t])
  }

  // The mappers from their creation to the last join. jobs[i] is what map emits for input i.
  method MapPhase(st: Intermediate, jobs: seq<seq<Pair>>, mapperCount: nat)
    requires st.Valid() && mapperCount > 0 && WithinCapacity(Concat(jobs))
    modifies st, st.slots
    ensures st.Valid() && IsGrouping(st.Groups(), multiset(Concat(jobs)))
  {
    st.Init();
    var ws := Parts(|jobs|, PartSize(|jobs|, mapperCount), mapperCount);
    var m: Mutex := Free;
    var slots := seq(mapperCount, _ => 0);
    assert AllPairs([]) + Concat(jobs) == Concat(jobs);
    StoreStart(Concat(jobs), [], jobs, mapperCount, slots);
    while !AllFinished(ws)
      invariant MappingOk(st, jobs, ws, m, slots)
      decreases AllStepsLeft(jobs, ws)
    {
      var t := Pick(jobs, ws, m);
      StepsRunOut(jobs, ws, m, t);
      ws, m, slots := MapStep(st, jobs, ws, m, slots, t);
    }
    StoreEnd(Concat(jobs), st.Groups(), jobs, ws, m, slots);
  }

  // The scheduler: any thread that is able to run. There always is one.
  method Pick(jobs: seq<seq<Pair>>, ws: seq<Worker>, m: Mutex) returns (t: nat)
    requires WorkersOk(jobs, ws, m) && !AllFinished(ws)
    ensures t < |ws| && CanStep(jobs, ws[t], m)
  {
    ghost var u: nat :| u < |ws| && !Finished(ws[u]);
    ghost var v := SomeoneCanStep(jobs, ws, m, u);
    t :| t < |ws| && CanStep(jobs, ws[t], m);
  }
}
