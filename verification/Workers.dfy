// Threads that work off contiguous ranges of jobs, each job being a list of items to store under
// one mutex: the skeleton of map_thread and reduce_thread of lecture/test3/src/interface.c. A
// step is what a thread does between two points at which another may run.
module Workers {
  import opened Seqs

  // Where a thread is in mr_emit_i or mr_emit_f, or outside (Idle).
  datatype Pc = Idle | Locked | Found | Stored

  // The next job, the end of the range, and how many items of the job have been stored.
  datatype Worker = Worker(next: nat, end: nat, sub: nat, pc: Pc)

  datatype Mutex = Free | HeldBy(t: nat)

  function Concat<T>(jobs: seq<seq<T>>): seq<T> {
    if jobs == [] then [] else Concat(jobs[..|jobs| - 1]) + jobs[|jobs| - 1]
  }

  // A job being worked on, with an item at hand.
  predicate HasItem<T>(jobs: seq<seq<T>>, w: Worker) {
    w.next < w.end <= |jobs| && w.sub < |jobs[w.next]|
  }

  predicate WorkerOk<T>(jobs: seq<seq<T>>, w: Worker) {
    && w.end <= |jobs|
    && (w.next < w.end ==> w.sub <= |jobs[w.next]|)
    && (w.pc.Locked? || w.pc.Found? ==> HasItem(jobs, w))
  }

  predicate WorkersOk<T>(jobs: seq<seq<T>>, ws: seq<Worker>, m: Mutex) {
    && (forall t | 0 <= t < |ws| :: WorkerOk(jobs, ws[t]))
    && (forall t | 0 <= t < |ws| :: !ws[t].pc.Idle? <==> m == HeldBy(t))
    && (m.HeldBy? ==> m.t < |ws|)
  }

  predicate Finished(w: Worker) {
    w.pc.Idle? && w.next >= w.end
  }

  predicate CanStep<T>(jobs: seq<seq<T>>, w: Worker, m: Mutex) {
    !Finished(w) && (w.pc.Idle? && HasItem(jobs, w) ==> m.Free?)
  }

  // The worker after its step; items are taken off when they are stored.
  function Advance<T>(jobs: seq<seq<T>>, w: Worker): Worker {
    match w.pc
    case Idle => if HasItem(jobs, w) then w.(pc := Locked) else w.(next := w.next + 1, sub := 0)
    case Locked => w.(pc := Found)
    case Found => w.(pc := Stored, sub := w.sub + 1)
    case Stored => w.(pc := Idle)
  }

  // lock and unlock
  function Grab<T>(jobs: seq<seq<T>>, w: Worker, m: Mutex, t: nat): Mutex {
    if w.pc.Idle? && HasItem(jobs, w) then HeldBy(t) else if w.pc.Stored? then Free else m
  }

  lemma StepOk<T>(jobs: seq<seq<T>>, ws: seq<Worker>, m: Mutex, t: nat)
    requires WorkersOk(jobs, ws, m) && t < |ws| && CanStep(jobs, ws[t], m)
    ensures WorkersOk(jobs, ws[t := Advance(jobs, ws[t])], Grab(jobs, ws[t], m, t))
  {
  }

  // There is always a thread that can go on: no deadlock.
  lemma SomeoneCanStep<T>(jobs: seq<seq<T>>, ws: seq<Worker>, m: Mutex, t: nat) returns (u: nat)
    requires WorkersOk(jobs, ws, m) && t < |ws| && !Finished(ws[t])
    ensures u < |ws| && CanStep(jobs, ws[u], m)
  {
    u := if m.HeldBy? then m.t else t;
  }

  // ---------- what is left to do ----------

  function Rest<T>(jobs: seq<seq<T>>, w: Worker): seq<T>
    requires WorkerOk(jobs, w)
  {
    if w.next >= w.end then [] else jobs[w.next][w.sub..] + Concat(jobs[w.next + 1..w.end])
  }

  function Pending<T>(jobs: seq<seq<T>>, ws: seq<Worker>): seq<T>
    requires forall t | 0 <= t < |ws| :: WorkerOk(jobs, ws[t])
  {
    if ws == [] then [] else Pending(jobs, ws[..|ws| - 1]) + Rest(jobs, ws[|ws| - 1])
  }

  lemma {:induction false} ConcatFirst<T>(jobs: seq<seq<T>>)
    requires jobs != []
    ensures Concat(jobs) == jobs[0] + Concat(jobs[1..])
  {
    var n := |jobs| - 1;
    if n == 0 {
      assert jobs[..0] == [] && jobs[1..] == [];
    } else {
      ConcatFirst(jobs[..n]);
      assert jobs[1..][..n - 1] == jobs[..n][1..];
      assert jobs[1..][n - 1] == jobs[n];
      Associative(jobs[0], Concat(jobs[..n][1..]), jobs[n]);
    }
  }

  lemma ConcatSplit<T>(jobs: seq<seq<T>>, k: nat, n: nat)
    requires k <= n <= |jobs|
    ensures Concat(jobs[..n]) == Concat(jobs[..k]) + Concat(jobs[k..n])
  {
    if k < n {
      ConcatSplit(jobs, k, n - 1);
      assert jobs[..n][..n - 1] == jobs[..n - 1];
      assert jobs[k..n][..n - 1 - k] == jobs[k..n - 1];
    } else {
      assert jobs[k..n] == [];
    }
  }

  lemma StoringTakesOne<T>(job: seq<T>, sub: nat, later: seq<T>)
    requires sub < |job|
    ensures job[sub..] + later == [job[sub]] + (job[sub + 1..] + later)
  {
  }

  // Moving on from a job of which nothing is left.
  lemma NextJob<T>(jobs: seq<seq<T>>, w: Worker)
    requires WorkerOk(jobs, w) && w.next < w.end && w.sub == |jobs[w.next]|
    requires WorkerOk(jobs, w.(next := w.next + 1, sub := 0))
    ensures Rest(jobs, w.(next := w.next + 1, sub := 0)) == Rest(jobs, w)
  {
    var later := jobs[w.next + 1..w.end];
    assert jobs[w.next][w.sub..] == [];
    if later != [] {
      ConcatFirst(later);
      assert later[1..] == jobs[w.next + 2..w.end];
      assert jobs[w.next + 1][0..] == later[0];
    }
  }

  // Only storing takes an item off what is left, and it is the item at hand.
  lemma RestAfterStep<T>(jobs: seq<seq<T>>, w: Worker)
    requires WorkerOk(jobs, w) && !Finished(w) && WorkerOk(jobs, Advance(jobs, w))
    ensures w.pc.Found? ==> Rest(jobs, w) == [jobs[w.next][w.sub]] + Rest(jobs, Advance(jobs, w))
    ensures !w.pc.Found? ==> Rest(jobs, Advance(jobs, w)) == Rest(jobs, w)
  {
    hide Concat;
    if w.pc.Found? {
      StoringTakesOne(jobs[w.next], w.sub, Concat(jobs[w.next + 1..w.end]));
    } else if w.pc.Idle? && !HasItem(jobs, w) {
      NextJob(jobs, w);
    }
  }

  lemma PendingLast<T>(jobs: seq<seq<T>>, ws: seq<Worker>)
    requires ws != [] && forall u | 0 <= u < |ws| :: WorkerOk(jobs, ws[u])
    ensures multiset(Pending(jobs, ws)) ==
      multiset(Pending(jobs, ws[..|ws| - 1])) + multiset(Rest(jobs, ws[|ws| - 1]))
  {
    hide Rest;
  }

  lemma {:induction false} PendingUpdate<T>(jobs: seq<seq<T>>, ws: seq<Worker>, t: nat, w: Worker)
    requires forall u | 0 <= u < |ws| :: WorkerOk(jobs, ws[u])
    requires t < |ws| && WorkerOk(jobs, w)
    ensures multiset(Pending(jobs, ws[t := w])) + multiset(Rest(jobs, ws[t]))
         == multiset(Pending(jobs, ws)) + multiset(Rest(jobs, w))
  {
    hide Rest, Pending, WorkerOk;
    var n := |ws| - 1;
    PendingLast(jobs, ws);
    PendingLast(jobs, ws[t := w]);
    if t < n {
      PendingUpdate(jobs, ws[..n], t, w);
      assert ws[t := w][..n] == ws[..n][t := w];
      AddBoth(multiset(Pending(jobs, ws[..n][t := w])), multiset(Rest(jobs, ws[t])),
              multiset(Pending(jobs, ws[..n])), multiset(Rest(jobs, w)), multiset(Rest(jobs, ws[n])));
    } else {
      assert ws[t := w][..n] == ws[..n];
    }
  }

  lemma AddBoth<T>(a: multiset<T>, b: multiset<T>, c: multiset<T>, d: multiset<T>, e: multiset<T>)
    requires a + b == c + d
    ensures a + e + b == c + e + d
  {
    assert a + e + b == (a + b) + e;
    assert c + e + d == (c + d) + e;
  }

  lemma TakeOff<T>(a: multiset<T>, b: multiset<T>, x: T, r: seq<T>)
    requires a + multiset([x] + r) == b + multiset(r)
    ensures b == a + multiset{x}
  {
    assert multiset([x] + r) == multiset{x} + multiset(r);
    assert (a + multiset{x}) + multiset(r) == b + multiset(r);
    Cancel(a + multiset{x}, b, multiset(r));
  }

  lemma Cancel<T>(a: multiset<T>, b: multiset<T>, c: multiset<T>)
    ensures a + c == b + c ==> a == b
  {
    if a + c == b + c {
      forall x ensures a[x] == b[x] {
        assert (a + c)[x] == (b + c)[x];
      }
    }
  }

  // A step takes the item at hand off what is pending if it stores it, and nothing otherwise.
  lemma PendingAfterStep<T>(jobs: seq<seq<T>>, ws: seq<Worker>, m: Mutex, t: nat)
    requires WorkersOk(jobs, ws, m) && t < |ws| && CanStep(jobs, ws[t], m)
    ensures var ws' := ws[t := Advance(jobs, ws[t])];
      && WorkersOk(jobs, ws', Grab(jobs, ws[t], m, t))
      && multiset(Pending(jobs, ws)) == multiset(Pending(jobs, ws'))
         + if ws[t].pc.Found? then multiset{jobs[ws[t].next][ws[t].sub]} else multiset{}
  {
    hide Advance, Grab, Pending, Rest, WorkerOk;
    StepOk(jobs, ws, m, t);
    var w := Advance(jobs, ws[t]);
    assert WorkerOk(jobs, ws[t := w][t]);
    RestAfterStep(jobs, ws[t]);
    PendingUpdate(jobs, ws, t, w);
    if ws[t].pc.Found? {
      assert HasItem(jobs, ws[t]) by {
        ItemAtHand(jobs, ws, m, t);
      }
      var x := jobs[ws[t].next][ws[t].sub];
      TakeOff(multiset(Pending(jobs, ws[t := w])), multiset(Pending(jobs, ws)), x, Rest(jobs, w));
    } else {
      Cancel(multiset(Pending(jobs, ws[t := w])), multiset(Pending(jobs, ws)), multiset(Rest(jobs, w)));
    }
  }

  lemma ItemAtHand<T>(jobs: seq<seq<T>>, ws: seq<Worker>, m: Mutex, t: nat)
    requires WorkersOk(jobs, ws, m) && t < |ws|
    ensures ws[t].pc.Locked? || ws[t].pc.Found? ==> HasItem(jobs, ws[t])
  {
  }

  lemma NothingPending<T>(jobs: seq<seq<T>>, ws: seq<Worker>)
    requires forall t | 0 <= t < |ws| :: WorkerOk(jobs, ws[t]) && Finished(ws[t])
    ensures Pending(jobs, ws) == []
  {
  }

  // ---------- the steps run out ----------

  function StepsLeft<T>(jobs: seq<seq<T>>, w: Worker): nat
    requires WorkerOk(jobs, w)
  {
    4 * |Rest(jobs, w)| + (if w.next < w.end then w.end - w.next else 0)
      + (match w.pc case Idle => 0 case Locked => -1 case Found => -2 case Stored => 1)
  }

  function AllStepsLeft<T>(jobs: seq<seq<T>>, ws: seq<Worker>): nat
    requires forall t | 0 <= t < |ws| :: WorkerOk(jobs, ws[t])
  {
    if ws == [] then 0 else AllStepsLeft(jobs, ws[..|ws| - 1]) + StepsLeft(jobs, ws[|ws| - 1])
  }

  lemma {:induction false} StepsUpdate<T>(jobs: seq<seq<T>>, ws: seq<Worker>, t: nat, w: Worker)
    requires forall u | 0 <= u < |ws| :: WorkerOk(jobs, ws[u])
    requires t < |ws| && WorkerOk(jobs, w)
    ensures AllStepsLeft(jobs, ws[t := w]) + StepsLeft(jobs, ws[t]) == AllStepsLeft(jobs, ws) + StepsLeft(jobs, w)
  {
    hide StepsLeft, WorkerOk;
    var n := |ws| - 1;
    if t < n {
      StepsUpdate(jobs, ws[..n], t, w);
      assert ws[t := w][..n] == ws[..n][t := w];
    } else {
      assert ws[t := w][..n] == ws[..n];
    }
  }

  // Every step of every thread brings the end nearer.
  lemma StepsRunOut<T>(jobs: seq<seq<T>>, ws: seq<Worker>, m: Mutex, t: nat)
    requires WorkersOk(jobs, ws, m) && t < |ws| && CanStep(jobs, ws[t], m)
    ensures var ws' := ws[t := Advance(jobs, ws[t])];
      WorkersOk(jobs, ws', Grab(jobs, ws[t], m, t)) && AllStepsLeft(jobs, ws') < AllStepsLeft(jobs, ws)
  {
    StepOk(jobs, ws, m, t);
    var w := Advance(jobs, ws[t]);
    assert WorkerOk(jobs, ws[t := w][t]);
    RestAfterStep(jobs, ws[t]);
    StepsUpdate(jobs, ws, t, w);
  }

  // ---------- splitting the jobs among the threads ----------

  // The worker for part t when n jobs are cut into parts of the given size.
  function PartOf(n: nat, size: nat, t: nat): Worker {
    Worker(t * size, Min((t + 1) * size, n), 0, Idle)
  }

  function Parts(n: nat, size: nat, count: nat): (ws: seq<Worker>)
    ensures |ws| == count && forall t | 0 <= t < count :: ws[t] == PartOf(n, size, t)
  {
    seq(count, t requires 0 <= t < count => PartOf(n, size, t))
  }

  lemma PartsOk<T>(jobs: seq<seq<T>>, size: nat, count: nat)
    ensures WorkersOk(jobs, Parts(|jobs|, size, count), Free)
  {
  }

  lemma {:induction false} PartsCover<T>(jobs: seq<seq<T>>, size: nat, count: nat)
    ensures WorkersOk(jobs, Parts(|jobs|, size, count), Free)
    ensures Pending(jobs, Parts(|jobs|, size, count)) == Concat(jobs[..Min(count * size, |jobs|)])
  {
    PartsOk(jobs, size, count);
    if count == 0 {
      assert jobs[..Min(count * size, |jobs|)] == [];
    } else {
      var k := count - 1;
      PartsCover(jobs, size, k);
      assert Parts(|jobs|, size, count)[..k] == Parts(|jobs|, size, k);
      OnePart(jobs, size, k);
    }
  }

  lemma OnePart<T>(jobs: seq<seq<T>>, size: nat, t: nat)
    ensures WorkerOk(jobs, PartOf(|jobs|, size, t))
    ensures Concat(jobs[..Min(t * size, |jobs|)]) + Rest(jobs, PartOf(|jobs|, size, t))
         == Concat(jobs[..Min((t + 1) * size, |jobs|)])
  {
    var a, b := t * size, Min((t + 1) * size, |jobs|);
    assert (t + 1) * size == a + size;
    if a < b {
      ConcatSplit(jobs, a, b);
      ConcatFirst(jobs[a..b]);
      assert jobs[a..b][1..] == jobs[a + 1..b];
      assert jobs[a][0..] == jobs[a];
    } else {
      assert Min(a, |jobs|) == b;
    }
  }

  // The part size the source computes.
  function PartSize(n: nat, count: nat): nat
    requires count > 0
  {
    (n + count - 1) / count
  }

  lemma AllParts<T>(jobs: seq<seq<T>>, size: nat, count: nat)
    requires count * size >= |jobs|
    ensures var ws := Parts(|jobs|, size, count);
      WorkersOk(jobs, ws, Free) && Pending(jobs, ws) == Concat(jobs)
  {
    hide WorkersOk, Pending, Concat;
    PartsCover(jobs, size, count);
    assert jobs[..|jobs|] == jobs;
  }

  // With the size the source computes every job is worked on exactly once.
  lemma EachJobOnce<T>(jobs: seq<seq<T>>, count: nat)
    requires count > 0
    ensures var ws := Parts(|jobs|, PartSize(|jobs|, count), count);
      WorkersOk(jobs, ws, Free) && Pending(jobs, ws) == Concat(jobs)
  {
    hide WorkersOk, Pending, Concat, Parts, PartSize;
    RoundedUp(|jobs|, count);
    AllParts(jobs, PartSize(|jobs|, count), count);
  }

  // It is the smallest that will do: no thread gets more than its share, rounded up.
  lemma RoundedUp(n: nat, count: nat)
    requires count > 0
    ensures count * PartSize(n, count) >= n
    ensures n > 0 ==> count * (PartSize(n, count) - 1) < n
  {
    var x := n + count - 1;
    assert x == count * (x / count) + x % count;
    assert count * (x / count - 1) == count * (x / count) - count;
  }
}
