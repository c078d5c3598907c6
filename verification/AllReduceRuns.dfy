/**
 * Runs of the AllReduce kernel end, under every schedule: a run from the start has a fixed number of steps to take,
 * and while one is left some step is enabled.
 */
module AllReduceRuns {
  import opened AllReduce
  import opened Arithmetic

  // ---------- Steps left ----------

  /** The steps between a core's position and its end, on a kernel that never waits in vain. */
  ghost function StepsLeft(ranks: nat, pc: Pc): int {
    match pc
    case Start => 4 * ranks + 3
    case WaitReady(k) => 4 * ranks + 2 - k
    case Accumulate(k) => 3 * ranks + 2 - k
    case Store(k) => 2 * ranks + 1 - k
    case WaitDone(k) => ranks - k
  }

  /** The cores of all ranks, counted rank by rank. */
  function IdAt(n: nat): Id {
    Id(n / CORES, n % CORES)
  }

  function Index(id: Id): nat {
    id.rank * CORES + id.core
  }

  lemma IdAtIndex(ranks: nat, id: Id)
    requires IsId(ranks, id)
    ensures Index(id) < ranks * CORES && IdAt(Index(id)) == id
  {
  }

  lemma IndexIdAt(ranks: nat, n: nat)
    requires n < ranks * CORES
    ensures IsId(ranks, IdAt(n)) && Index(IdAt(n)) == n
  {
  }

  /** The steps the first `n` cores have left. */
  ghost function CoreWork(cores: map<Id, Core>, ranks: nat, n: nat): int
    requires forall i: nat :: i < n ==> IdAt(i) in cores
  {
    if n == 0 then 0 else CoreWork(cores, ranks, n - 1) + StepsLeft(ranks, cores[IdAt(n - 1)].pc)
  }

  ghost function Unstarted(started: set<nat>, n: nat): nat {
    if n == 0 then 0 else Unstarted(started, n - 1) + if n - 1 in started then 0 else 1
  }

  lemma Present(w: World, t: Task)
    requires Shape(w, t)
    ensures forall i: nat :: i < t.ranks * CORES ==> IdAt(i) in w.cores
  {
    forall i: nat | i < t.ranks * CORES ensures IdAt(i) in w.cores {
      IndexIdAt(t.ranks, i);
    }
  }

  ghost function Work(w: World, t: Task): int
    requires Shape(w, t)
  {
    Present(w, t);
    Unstarted(w.started, t.ranks) + CoreWork(w.cores, t.ranks, t.ranks * CORES)
  }

  lemma {:induction false} OneCoreMoves(cores: map<Id, Core>, ranks: nat, n: nat, id: Id, c: Core)
    requires (forall i: nat :: i < n ==> IdAt(i) in cores) && id in cores && id == IdAt(Index(id))
    ensures forall i: nat :: i < n ==> IdAt(i) in cores[id := c]
    ensures CoreWork(cores[id := c], ranks, n) == CoreWork(cores, ranks, n) +
            if Index(id) < n then StepsLeft(ranks, c.pc) - StepsLeft(ranks, cores[id].pc) else 0
  {
    if n > 0 {
      OneCoreMoves(cores, ranks, n - 1, id, c);
      assert Index(IdAt(n - 1)) == n - 1;
    }
  }

  lemma {:induction false} OneRankStarts(started: set<nat>, n: nat, r: nat)
    requires r !in started
    ensures Unstarted(started + {r}, n) == Unstarted(started, n) - if r < n then 1 else 0
  {
    if n > 0 {
      OneRankStarts(started, n - 1, r);
    }
  }

  /** Every step takes one off. */
  lemma StepTakesOne(w: World, t: Task, s: Step)
    requires Inv(w, t) && Enabled(w, t, s)
    ensures Shape(Next(w, t, s), t) && Work(Next(w, t, s), t) == Work(w, t) - 1
  {
    Present(w, t);
    match s
    case LoadInput(r) => OneRankStarts(w.started, t.ranks, r);
    case Advance(id) =>
      AdvanceKeepsShape(w, t, id);
      IdAtIndex(t.ranks, id);
      MovesOn(w, t, id);
      var c := Advanced(w, t, id).cores[id];
      assert Advanced(w, t, id).cores == w.cores[id := c];
      OneCoreMoves(w.cores, t.ranks, t.ranks * CORES, id, c);
  }

  lemma MovesOn(w: World, t: Task, id: Id)
    requires Inv(w, t) && Enabled(w, t, Advance(id))
    ensures id in Advanced(w, t, id).cores && Advanced(w, t, id).started == w.started
    ensures StepsLeft(t.ranks, Advanced(w, t, id).cores[id].pc) == StepsLeft(t.ranks, w.cores[id].pc) - 1
  {
    assert CoreInv(w, t, id);
  }

  lemma {:induction false} RunLength(w: World, t: Task, steps: seq<Step>, v: World)
    requires Inv(w, t) && Reaches(w, t, steps, v)
    ensures Inv(v, t) && |steps| == Work(w, t) - Work(v, t)
    decreases |steps|
  {
    if steps != [] {
      NextKeepsInv(w, t, steps[0]);
      StepTakesOne(w, t, steps[0]);
      RunLength(Next(w, t, steps[0]), t, steps[1..], v);
    }
  }

  // ---------- No work left, and all of it left ----------

  ghost function RunSteps(ranks: nat): nat {
    ranks + ranks * CORES * (4 * ranks + 3)
  }

  lemma {:induction false} NoWork(w: World, t: Task, n: nat)
    requires Inv(w, t) && n <= t.ranks * CORES
    ensures forall i: nat :: i < n ==> IdAt(i) in w.cores
    ensures CoreWork(w.cores, t.ranks, n) >= 0
    ensures CoreWork(w.cores, t.ranks, n) == 0 <==> forall i: nat :: i < n ==> w.cores[IdAt(i)].pc == WaitDone(t.ranks)
  {
    Present(w, t);
    if n > 0 {
      NoWork(w, t, n - 1);
      IndexIdAt(t.ranks, n - 1);
      assert CoreInv(w, t, IdAt(n - 1));
    }
  }

  lemma {:induction false} AllWork(w: World, t: Task, n: nat)
    requires Initial(w, t) && n <= t.ranks * CORES
    ensures forall i: nat :: i < n ==> IdAt(i) in w.cores
    ensures CoreWork(w.cores, t.ranks, n) == n * (4 * t.ranks + 3)
  {
    Present(w, t);
    if n > 0 {
      AllWork(w, t, n - 1);
      IndexIdAt(t.ranks, n - 1);
      assert StepsLeft(t.ranks, w.cores[IdAt(n - 1)].pc) == 4 * t.ranks + 3;
      Distribute(n - 1, 4 * t.ranks + 3);
    }
  }

  lemma InitialWork(w: World, t: Task)
    requires Initial(w, t)
    ensures Work(w, t) == RunSteps(t.ranks)
  {
    AllWork(w, t, t.ranks * CORES);
    CountUnstarted({}, t.ranks);
  }

  lemma {:induction false} CountUnstarted(started: set<nat>, n: nat)
    ensures Unstarted(started, n) == 0 <==> forall r: nat :: r < n ==> r in started
    ensures started == {} ==> Unstarted(started, n) == n
  {
    if n > 0 {
      CountUnstarted(started, n - 1);
    }
  }

  ghost predicate AllFinished(v: World, t: Task) {
    forall rank: nat :: rank < t.ranks ==> RankFinished(v, t, rank)
  }

  lemma NoWorkIff(v: World, t: Task)
    requires Inv(v, t)
    ensures Work(v, t) >= 0 && (Work(v, t) == 0 <==> AllFinished(v, t))
  {
    NoWork(v, t, t.ranks * CORES);
    CountUnstarted(v.started, t.ranks);
    if AllFinished(v, t) {
      assert RankFinished(v, t, 0) && CoreInv(v, t, Id(0, 0));
      forall i: nat | i < t.ranks * CORES ensures v.cores[IdAt(i)].pc == WaitDone(t.ranks) {
        IndexIdAt(t.ranks, i);
        assert RankFinished(v, t, IdAt(i).rank);
      }
    }
    if Work(v, t) == 0 {
      forall rank: nat, c: nat | rank < t.ranks && c < CORES
        ensures Id(rank, c) in v.cores && v.cores[Id(rank, c)].pc == WaitDone(t.ranks)
      {
        IdAtIndex(t.ranks, Id(rank, c));
      }
    }
  }

  // ---------- Progress ----------

  /** No core waits for a flag that nobody will set: while a core is not through, some step is enabled. */
  lemma SomeStep(v: World, t: Task, id: Id) returns (s: Step)
    requires Inv(v, t) && IsId(t.ranks, id) && v.cores[id].pc != WaitDone(t.ranks)
    ensures Enabled(v, t, s)
  {
    if r: nat :| r < t.ranks && r !in v.started {
      return LoadInput(r);
    }
    if a :| IsId(t.ranks, a) && v.cores[a].pc.Start? {
      return Advance(a);
    }
    if a :| IsId(t.ranks, a) && !v.cores[a].pc.WaitDone? {
      WaitReadyMoves(v, t, a);
      return Advance(a);
    }
    var k := v.cores[id].pc.k;
    assert CoreInv(v, t, id);
    assert IsId(t.ranks, Id(k, id.core)) && CoreInv(v, t, Id(k, id.core));
    return Advance(id);
  }

  lemma WaitReadyMoves(v: World, t: Task, a: Id)
    requires Inv(v, t) && IsId(t.ranks, a) && !v.cores[a].pc.WaitDone?
    requires forall b :: IsId(t.ranks, b) ==> !v.cores[b].pc.Start?
    ensures Enabled(v, t, Advance(a))
  {
    if v.cores[a].pc.WaitReady? && v.cores[a].pc.k < t.ranks {
      assert CoreInv(v, t, Id(v.cores[a].pc.k, a.core));
    }
  }

  ghost predicate Stuck(v: World, t: Task) {
    forall s :: !Enabled(v, t, s)
  }

  /**
   * Under every schedule of two ranks or more: the number of steps is bounded, and a run has nothing left to do, has
   * taken that many steps, and has brought every core to its end all at the same moment.
   */
  lemma EveryRunCompletes(w: World, t: Task, steps: seq<Step>, v: World)
    requires TaskOk(t) && t.ranks >= 2 && Initial(w, t) && Reaches(w, t, steps, v)
    ensures |steps| <= RunSteps(t.ranks)
    ensures |steps| == RunSteps(t.ranks) <==> AllFinished(v, t)
    ensures Stuck(v, t) <==> AllFinished(v, t)
  {
    InitialInv(w, t);
    RunLength(w, t, steps, v);
    InitialWork(w, t);
    NoWorkIff(v, t);
    StuckIff(v, t);
  }

  lemma StuckIff(v: World, t: Task)
    requires Inv(v, t)
    ensures Stuck(v, t) <==> AllFinished(v, t)
  {
    if AllFinished(v, t) {
      forall s ensures !Enabled(v, t, s) {
        assert RankFinished(v, t, 0) && CoreInv(v, t, Id(0, 0));
        assert s.Advance? && IsId(t.ranks, s.id) ==> RankFinished(v, t, s.id.rank);
      }
    } else {
      var rank: nat :| rank < t.ranks && !RankFinished(v, t, rank);
      var c: nat :| c < CORES && !(Id(rank, c) in v.cores && v.cores[Id(rank, c)].pc == WaitDone(t.ranks));
      var s := SomeStep(v, t, Id(rank, c));
    }
  }

  /** So for 2, 4, 8, 16 or 32 ranks every run that can go no further has the fold everywhere, and all get there. */
  lemma EveryRunReduces(w: World, t: Task, steps: seq<Step>, v: World)
    requires Kernel(t) && t.ranks in {2, 4, 8, 16, 32} && Initial(w, t) && Reaches(w, t, steps, v)
    requires Stuck(v, t) || |steps| >= RunSteps(t.ranks)
    ensures |v.data| == t.ranks
    ensures forall r: nat, i: nat :: r < t.ranks && i < TOTAL ==> v.data[r][i] == FoldAt(t.add, t.input, t.ranks - 1, i)
  {
    EveryRunCompletes(w, t, steps, v);
    AllReduceIsFold(w, t, steps, v, 0);
  }
}
