/**
 * The rotation rule of the dispatcher (main.go:68-79), stated on the
 * liveness answers of the pool. Slot `c % n` is the one a counter value `c`
 * points at; a scan probes consecutive counter values until one points at
 * a live slot.
 */
module RoundRobin {
  import opened ModArith

  /** Some server of the pool is alive. */
  predicate SomeAlive(alive: seq<bool>) {
    exists i :: 0 <= i < |alive| && alive[i]
  }

  /**
   * The pool is non-empty and every server of it is alive. The conjunct
   * alive[0] follows from the quantifier; it is spelled out to give
   * SomeAlive its witness.
   */
  predicate AllAlive(alive: seq<bool>)
    ensures AllAlive(alive) ==> SomeAlive(alive)
  {
    |alive| > 0 && alive[0] && forall i :: 0 <= i < |alive| ==> alive[i]
  }

  /** The slot that counter value `c` points at holds a live server. */
  predicate LiveAt(alive: seq<bool>, c: nat)
    requires |alive| > 0
  {
    alive[c % |alive|]
  }

  /**
   * How many dead slots a scan starting at counter value `from` passes
   * before it meets a live one, when it may probe at most `limit` slots.
   * The result is exactly that run length: all counter values it covers
   * point at dead slots, and unless the limit was hit the next one is live.
   */
  function DeadRun(alive: seq<bool>, from: nat, limit: nat): (k: nat)
    requires |alive| > 0
    ensures k <= limit
    ensures forall c: nat :: from <= c < from + k ==> !LiveAt(alive, c)
    ensures k < limit ==> LiveAt(alive, from + k)
    decreases limit
  {
    if limit == 0 || LiveAt(alive, from) then 0
    else 1 + DeadRun(alive, from + 1, limit - 1)
  }

  /**
   * A scan of one full turn finds nothing exactly when no server is alive:
   * n consecutive counter values point at every slot once.
   */
  lemma {:induction false} FullTurnDeadIffAllDown(alive: seq<bool>, from: nat)
    requires |alive| > 0
    ensures DeadRun(alive, from, |alive|) == |alive| <==> !SomeAlive(alive)
  {
    var n := |alive|;
    var k := DeadRun(alive, from, n);
    if k < n {
      assert alive[(from + k) % n];
    } else {
      forall i | 0 <= i < n
        ensures !alive[i]
      {
        var c := SlotReached(n, from, i);
        assert !LiveAt(alive, c);
      }
    }
  }

  /** The outcome of one selection: the slot chosen and the counter afterwards. */
  datatype Selection =
    | Picked(index: nat, next: nat)
    | AllDown(next: nat)

  /**
   * One selection starting from counter value `count`, bounded to one full
   * turn. When some server is alive it picks the first live slot met
   * cyclically from `count % n`; every probed dead slot and the chosen slot
   * each advance the counter by one. When none is alive, n probes are
   * consumed and no server is chosen.
   */
  function Select(alive: seq<bool>, count: nat): (s: Selection)
    requires |alive| > 0
    ensures s.Picked? <==> SomeAlive(alive)
    ensures s.Picked? ==> s.index < |alive| && alive[s.index]
    ensures s.Picked? ==> count < s.next <= count + |alive|
    ensures s.Picked? ==> s.index == (s.next - 1) % |alive|
    ensures s.Picked? ==> forall c: nat :: count <= c < s.next - 1 ==> !LiveAt(alive, c)
    ensures s.AllDown? ==> s.next == count + |alive|
  {
    var k := DeadRun(alive, count, |alive|);
    FullTurnDeadIffAllDown(alive, count);
    if k < |alive| then Picked((count + k) % |alive|, count + k + 1)
    else AllDown(count + |alive|)
  }

  /**
   * The loop of main.go:71-74 as written has no bound: on a pool where no
   * server is alive, however many probes it makes, it never meets a live
   * slot and so never leaves.
   */
  lemma {:induction false} AllDownScanNeverExits(alive: seq<bool>, count: nat, probes: nat)
    requires |alive| > 0 && !SomeAlive(alive)
    ensures DeadRun(alive, count, probes) == probes
  {
    // DeadRun's own contract already rules out a live probe here.
  }

  /** With every server alive, no slot is skipped: slot count % n is chosen. */
  lemma AllAliveNoSkip(alive: seq<bool>, count: nat)
    requires AllAlive(alive)
    ensures Select(alive, count) == Picked(count % |alive|, count + 1)
  {
  }

  /** After a pick, the next selection starts scanning at the slot after it. */
  lemma ResumeAfterPick(alive: seq<bool>, count: nat)
    requires |alive| > 0 && SomeAlive(alive)
    ensures Select(alive, count).next % |alive| == (Select(alive, count).index + 1) % |alive|
  {
    var s := Select(alive, count);
    ModSucc(s.next - 1, |alive|);
  }

  /**
   * With exactly one dead slot k in a pool of at least two servers, slot k
   * is never chosen: a scan starting on it moves on to the slot after it,
   * and any other start is chosen as it is.
   */
  lemma OneDownIsSkipped(alive: seq<bool>, k: nat, count: nat)
    requires |alive| >= 2 && k < |alive| && !alive[k]
    requires forall i :: 0 <= i < |alive| && i != k ==> alive[i]
    ensures Select(alive, count).Picked?
    ensures Select(alive, count).index != k
    ensures Select(alive, count).index ==
              if count % |alive| == k then (k + 1) % |alive| else count % |alive|
  {
    var n := |alive|;
    assert alive[(k + 1) % n] by {
      ModUnique(k + 1, n, if k + 1 < n then 0 else 1, if k + 1 < n then k + 1 else 0);
    }
    ModSucc(count, n);
    if count % n != k {
      assert LiveAt(alive, count);
      assert DeadRun(alive, count, n) == 0;
    } else {
      assert LiveAt(alive, count + 1);
      assert DeadRun(alive, count + 1, n - 1) == 0;
      assert DeadRun(alive, count, n) == 1;
    }
  }

  /**
   * The slots chosen by `calls` successive selections from counter value
   * `count`, the pool's liveness staying as it is.
   */
  function Run(alive: seq<bool>, count: nat, calls: nat): (picks: seq<nat>)
    requires |alive| > 0 && SomeAlive(alive)
    ensures |picks| == calls
    ensures forall j :: 0 <= j < calls ==> 0 <= picks[j] < |alive| && alive[picks[j]]
    decreases calls
  {
    if calls == 0 then []
    else
      var s := Select(alive, count);
      [s.index] + Run(alive, s.next, calls - 1)
  }

  /** With every server alive, the j-th selection picks slot (count + j) % n. */
  lemma {:induction false} AllAliveCyclic(alive: seq<bool>, count: nat, calls: nat, j: nat)
    requires AllAlive(alive) && j < calls
    ensures Run(alive, count, calls)[j] == (count + j) % |alive|
    decreases calls
  {
    AllAliveNoSkip(alive, count);
    if j > 0 {
      AllAliveCyclic(alive, count + 1, calls - 1, j - 1);
    }
  }

  /** The slots that counter values 0, 1, ..., len - 1 point at. */
  function Cycle(len: nat, n: nat): (r: seq<int>)
    requires n > 0
    ensures |r| == len
  {
    if len == 0 then [] else Cycle(len - 1, n) + [(len - 1) % n]
  }

  lemma {:induction false} CycleAt(len: nat, n: nat, j: nat)
    requires n > 0 && j < len
    ensures Cycle(len, n)[j] == j % n
  {
    if j < len - 1 {
      CycleAt(len - 1, n, j);
    }
  }

  /**
   * Slot i occurs in Cycle(len, n) len / n times, once more if it lies
   * within the unfinished last turn.
   */
  lemma {:induction false} CycleCounts(len: nat, n: nat, i: nat)
    requires n > 0 && i < n
    ensures multiset(Cycle(len, n))[i] == len / n + (if i < len % n then 1 else 0)
  {
    if len > 0 {
      var c := len - 1;
      assert Cycle(len, n) == Cycle(c, n) + [c % n];
      assert multiset(Cycle(len, n))[i] == multiset(Cycle(c, n))[i] + (if c % n == i then 1 else 0);
      CycleCounts(c, n, i);
      var before := c / n + (if i < c % n then 1 else 0);
      var after := (c + 1) / n + (if i < (c + 1) % n then 1 else 0);
      ResidueCountStep(c, n, i);
      assert before + (if c % n == i then 1 else 0) == after;
    }
  }

  /**
   * Fairness: with every server alive, the first q * n selections of a fresh
   * dispatcher choose every slot exactly q times.
   */
  lemma AllAliveFair(alive: seq<bool>, q: nat, i: nat)
    requires AllAlive(alive) && i < |alive|
    ensures multiset(Run(alive, 0, q * |alive|))[i] == q
  {
    var n := |alive|;
    var picks := Run(alive, 0, q * n);
    assert picks == Cycle(q * n, n) by {
      forall j | 0 <= j < q * n
        ensures picks[j] == Cycle(q * n, n)[j]
      {
        AllAliveCyclic(alive, 0, q * n, j);
        CycleAt(q * n, n, j);
      }
    }
    CycleCounts(q * n, n, i);
    ModUnique(q * n, n, q, 0);
  }
}
