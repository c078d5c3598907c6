/**
 * Runs of the benchmark end, under every schedule: all processes pass the same number of barriers, also where copies
 * are skipped, so that no one waits for a barrier that another has no more of.
 */
module BenchmarkRuns {
  import opened Barrier
  import opened Benchmark

  // ---------- The same number of barriers for everybody ----------

  lemma {:induction false} ProgramBars(master: bool, dirs: seq<bool>)
    ensures Bars(Program(master, dirs)) == 2 * |dirs|
  {
    if dirs != [] {
      DirectionBars(master, dirs[0], 0);
      BarsAppend(Direction(master, dirs[0]), Program(master, dirs[1..]));
      ProgramBars(master, dirs[1..]);
    }
  }

  /** A process has left them all when it is at its end, and not all when it is at one. */
  lemma BarsLeft(s: Sys, job: Job, p: nat)
    requires SysInv(s, job) && p < |job.master|
    ensures s.pc[p] == |Code(job, p)| ==> s.net.left[p] == 2 * |job.dirs|
    ensures At(s, job, p, Bar) ==> s.net.left[p] < 2 * |job.dirs|
  {
    var code, pc := Code(job, p), s.pc[p];
    ProgramBars(job.master[p], job.dirs);
    assert Tracks(s, job, p);
    assert code[..pc] + code[pc..] == code;
    BarsAppend(code[..pc], code[pc..]);
  }

  // ---------- One copy for every supported direction ----------

  function Copies(prog: seq<Instr>): nat {
    if prog == [] then 0 else (if prog[0] == Copy then 1 else 0) + Copies(prog[1..])
  }

  function Supported(dirs: seq<bool>): nat {
    if dirs == [] then 0 else (if dirs[0] then 1 else 0) + Supported(dirs[1..])
  }

  lemma {:induction false} CopiesAppend(a: seq<Instr>, b: seq<Instr>)
    ensures Copies(a + b) == Copies(a) + Copies(b)
  {
    if a == [] {
      assert a + b == b;
    } else {
      CopiesAppend(a[1..], b);
      assert (a + b)[1..] == a[1..] + b;
    }
  }

  lemma {:induction false} ProgramCopies(master: bool, dirs: seq<bool>)
    ensures Copies(Program(master, dirs)) == Supported(dirs)
  {
    if dirs != [] {
      var d := Direction(master, dirs[0]);
      assert d == if master then (if dirs[0] then [Copy, Bar, Bar] else [Bar, Bar])
                  else if dirs[0] then [Bar, Copy, Bar] else [Bar, Bar];
      assert [Bar, Bar][1..] == [Bar] && [Copy, Bar, Bar][1..] == [Bar, Bar] && [Bar][1..] == [];
      assert [Bar, Copy, Bar][1..] == [Copy, Bar] && [Copy, Bar][1..] == [Bar];
      CopiesAppend(d, Program(master, dirs[1..]));
      ProgramCopies(master, dirs[1..]);
    }
  }

  ghost predicate EndsOf(m: Move, p: nat) {
    m == EndCopy(p)
  }

  /** Copies that a process completes in a run. */
  ghost function Completed(moves: seq<Move>, p: nat): nat {
    if moves == [] then 0 else (if EndsOf(moves[0], p) then 1 else 0) + Completed(moves[1..], p)
  }

  /** What a process completes is what its code passes. */
  lemma {:induction false} CompletedAre(s: Sys, job: Job, moves: seq<Move>, t: Sys, p: nat)
    requires SysInv(s, job) && Runs(s, job, moves, t) && p < |job.master|
    ensures SysInv(t, job)
    ensures Copies(Code(job, p)[..t.pc[p]]) == Copies(Code(job, p)[..s.pc[p]]) + Completed(moves, p)
    decreases |moves|
  {
    if moves != [] {
      var m := moves[0];
      ApplyKeepsInv(s, job, m);
      PassedOne(s, job, m, p);
      CompletedAre(Apply(s, job, m), job, moves[1..], t, p);
    }
  }

  lemma PassedOne(s: Sys, job: Job, m: Move, p: nat)
    requires SysInv(s, job) && MoveEnabled(s, job, m) && SysShape(Apply(s, job, m), job) && p < |job.master|
    ensures Copies(Code(job, p)[..Apply(s, job, m).pc[p]]) ==
            Copies(Code(job, p)[..s.pc[p]]) + if EndsOf(m, p) then 1 else 0
  {
    var code, pc := Code(job, p), s.pc[p];
    if Apply(s, job, m).pc[p] != pc {
      assert code[..pc + 1] == code[..pc] + [code[pc]];
      CopiesAppend(code[..pc], [code[pc]]);
      assert [code[pc]][1..] == [];
    }
  }

  // ---------- Steps left ----------

  /** What it takes to run the code, given what a barrier takes. */
  ghost function Cost(code: seq<Instr>, bar: nat): nat {
    if code == [] then 0 else (if code[0] == Bar then bar else 2) + Cost(code[1..], bar)
  }

  /** A client enters and leaves; the server reads from and answers all others in between. */
  ghost function BarCost(n: nat, p: nat): nat {
    if p == 0 then 2 * n + 1 else 2
  }

  /** How far a process is with the instruction it is at. */
  ghost function Progress(s: Sys, n: nat, p: nat): nat
    requires Shape(s.net, n) && p < n == |s.copying|
  {
    (if s.copying[p] then 1 else 0) +
    if p > 0 then (if s.net.inside[p] then 1 else 0)
    else match s.net.server
         case Outside => 0
         case Reading(i) => i
         case Sending(i) => n + i
  }

  ghost function Work(s: Sys, job: Job, p: nat): int
    requires SysShape(s, job) && p < |job.master|
  {
    Cost(Code(job, p)[s.pc[p]..], BarCost(|job.master|, p)) - Progress(s, |job.master|, p)
  }

  ghost function Works(s: Sys, job: Job): (ws: seq<int>)
    requires SysShape(s, job)
    ensures |ws| == |job.master| && forall p :: 0 <= p < |ws| ==> ws[p] == Work(s, job, p)
  {
    seq(|job.master|, p requires 0 <= p < |job.master| => Work(s, job, p))
  }

  ghost function Sum(ws: seq<int>): int {
    if ws == [] then 0 else ws[0] + Sum(ws[1..])
  }

  /** The moves all processes together have left. */
  ghost function Total(s: Sys, job: Job): int
    requires SysShape(s, job)
  {
    Sum(Works(s, job))
  }

  lemma {:induction false} SumLess(a: seq<int>, b: seq<int>, k: nat)
    requires k < |a| == |b| && b[k] == a[k] - 1 && forall i :: 0 <= i < |a| && i != k ==> b[i] == a[i]
    ensures Sum(b) == Sum(a) - 1
  {
    if k == 0 {
      assert a[1..] == b[1..];
    } else {
      SumLess(a[1..], b[1..], k - 1);
    }
  }

  lemma {:induction false} SumZero(a: seq<int>)
    requires forall i :: 0 <= i < |a| ==> a[i] >= 0
    ensures Sum(a) >= 0 && (Sum(a) == 0 <==> forall i :: 0 <= i < |a| ==> a[i] == 0)
  {
    if a != [] {
      SumZero(a[1..]);
      assert forall i :: 1 <= i < |a| ==> a[i] == a[1..][i - 1];
    }
  }

  /** The process that a move moves on. */
  function Actor(m: Move): nat {
    match m
    case StartCopy(p) => p
    case EndCopy(p) => p
    case Net(ClientEnter(c)) => c
    case Net(ClientLeave(c, _)) => c
    case Net(_) => 0
  }

  lemma CostStep(code: seq<Instr>, bar: nat, pc: nat)
    requires pc < |code|
    ensures Cost(code[pc..], bar) == (if code[pc] == Bar then bar else 2) + Cost(code[pc + 1..], bar)
  {
    assert code[pc..][1..] == code[pc + 1..];
  }

  lemma ActorTakesOne(s: Sys, job: Job, m: Move)
    requires SysInv(s, job) && MoveEnabled(s, job, m) && SysShape(Apply(s, job, m), job)
    ensures Actor(m) < |job.master| && Work(Apply(s, job, m), job, Actor(m)) == Work(s, job, Actor(m)) - 1
  {
    var p, n := Actor(m), |job.master|;
    assert Tracks(s, job, p);
    if Apply(s, job, m).pc[p] != s.pc[p] {
      CostStep(Code(job, p), BarCost(n, p), s.pc[p]);
    }
    assert Progress(Apply(s, job, m), n, p) ==
           if Apply(s, job, m).pc[p] == s.pc[p] then Progress(s, n, p) + 1
           else Progress(s, n, p) + 1 - if At(s, job, p, Bar) then BarCost(n, p) else 2;
  }

  lemma OthersKeep(s: Sys, job: Job, m: Move, p: nat)
    requires MoveEnabled(s, job, m) && SysShape(Apply(s, job, m), job) && p < |job.master| && p != Actor(m)
    ensures Work(Apply(s, job, m), job, p) == Work(s, job, p)
  {
    assert Apply(s, job, m).pc[p] == s.pc[p];
    assert Progress(Apply(s, job, m), |job.master|, p) == Progress(s, |job.master|, p);
  }

  /** Every move takes one off. */
  lemma MoveTakesOne(s: Sys, job: Job, m: Move)
    requires SysInv(s, job) && MoveEnabled(s, job, m)
    ensures SysInv(Apply(s, job, m), job) && Total(Apply(s, job, m), job) == Total(s, job) - 1
  {
    ApplyKeepsInv(s, job, m);
    ActorTakesOne(s, job, m);
    forall p | 0 <= p < |job.master| && p != Actor(m)
      ensures Works(Apply(s, job, m), job)[p] == Works(s, job)[p]
    {
      OthersKeep(s, job, m, p);
    }
    SumLess(Works(s, job), Works(Apply(s, job, m), job), Actor(m));
  }

  lemma {:induction false} RunLength(s: Sys, job: Job, moves: seq<Move>, t: Sys)
    requires SysInv(s, job) && Runs(s, job, moves, t)
    ensures SysInv(t, job) && |moves| == Total(s, job) - Total(t, job)
    decreases |moves|
  {
    if moves != [] {
      MoveTakesOne(s, job, moves[0]);
      RunLength(Apply(s, job, moves[0]), job, moves[1..], t);
    }
  }

  // ---------- Nothing left ----------

  ghost predicate AtEnd(s: Sys, job: Job, p: nat)
    requires SysShape(s, job) && p < |job.master|
  {
    s.pc[p] == |Code(job, p)|
  }

  ghost predicate AllAtEnd(s: Sys, job: Job)
    requires SysShape(s, job)
  {
    forall p :: 0 <= p < |job.master| ==> AtEnd(s, job, p)
  }

  lemma NoWorkAtEnd(s: Sys, job: Job, p: nat)
    requires SysInv(s, job) && p < |job.master|
    ensures Work(s, job, p) >= 0 && (Work(s, job, p) == 0 <==> AtEnd(s, job, p))
  {
    assert Tracks(s, job, p);
    if s.pc[p] < |Code(job, p)| {
      CostStep(Code(job, p), BarCost(|job.master|, p), s.pc[p]);
    }
  }

  lemma NoWorkIff(s: Sys, job: Job)
    requires SysInv(s, job)
    ensures Total(s, job) >= 0 && (Total(s, job) == 0 <==> AllAtEnd(s, job))
  {
    var ws := Works(s, job);
    forall p | 0 <= p < |ws| ensures ws[p] >= 0 && (ws[p] == 0 <==> AtEnd(s, job, p)) {
      NoWorkAtEnd(s, job, p);
    }
    SumZero(ws);
  }

  // ---------- Progress ----------

  /** While a process is not at its end, some move is enabled. */
  lemma SomeMove(s: Sys, job: Job, p: nat) returns (m: Move)
    requires SysInv(s, job) && p < |job.master| && !AtEnd(s, job, p)
    ensures MoveEnabled(s, job, m)
  {
    if q: nat :| At(s, job, q, Copy) {
      return if s.copying[q] then EndCopy(q) else StartCopy(q);
    }
    forall q: nat | q < |job.master| ensures AtEnd(s, job, q) || At(s, job, q, Bar) {
      assert !At(s, job, q, Copy);
    }
    if c: nat :| c > 0 && At(s, job, c, Bar) && !s.net.inside[c] {
      return Net(ClientEnter(c));
    }
    if s.net.server.Outside? {
      m := WithoutServer(s, job, p);
    } else {
      m := WithServer(s, job);
    }
  }

  /** The server is outside: it enters, or it has answered everybody for the last time. */
  lemma WithoutServer(s: Sys, job: Job, p: nat) returns (m: Move)
    requires SysInv(s, job) && p < |job.master| && At(s, job, p, Bar) && s.net.server.Outside?
    requires At(s, job, 0, Bar) || AtEnd(s, job, 0)
    requires p > 0 ==> s.net.inside[p]
    ensures MoveEnabled(s, job, m)
  {
    if At(s, job, 0, Bar) {
      return Net(ServerEnter);
    }
    BarsLeft(s, job, 0);
    BarsLeft(s, job, p);
    assert InStep(s.net, |job.master|, p);
    return Net(ClientLeave(p, 1));
  }

  /** The server is inside: it goes on, or the client it reads from has yet to leave the round before. */
  lemma WithServer(s: Sys, job: Job) returns (m: Move)
    requires SysInv(s, job) && !s.net.server.Outside?
    requires forall c: nat :: 0 < c < |job.master| ==> AtEnd(s, job, c) || (At(s, job, c, Bar) && s.net.inside[c])
    ensures MoveEnabled(s, job, m)
  {
    var n, server := |job.master|, s.net.server;
    assert Tracks(s, job, 0) && At(s, job, 0, Bar);
    if server.Sending? {
      return if server.i == n then Net(ServerLeave) else Net(ServerSend);
    }
    if server.i == n {
      return Net(ServerSend);
    }
    var c := server.i;
    BarsLeft(s, job, 0);
    BarsLeft(s, job, c);
    assert InStep(s.net, n, c);
    return if s.net.up[c] == [] then Net(ClientLeave(c, 1)) else Net(ServerRead(1));
  }

  ghost predicate Stuck(s: Sys, job: Job) {
    forall m :: !MoveEnabled(s, job, m)
  }

  lemma StuckIff(s: Sys, job: Job)
    requires SysInv(s, job)
    ensures Stuck(s, job) <==> AllAtEnd(s, job)
  {
    if AllAtEnd(s, job) {
      forall m ensures !MoveEnabled(s, job, m) {
        assert Tracks(s, job, 0) && AtEnd(s, job, 0);
        assert forall p: nat, instr :: p < |job.master| && AtEnd(s, job, p) ==> !At(s, job, p, instr);
      }
    } else {
      var p :| 0 <= p < |job.master| && !AtEnd(s, job, p);
      var m := SomeMove(s, job, p);
    }
  }

  /**
   * Under every schedule of any job: the number of moves is bounded, and a run has nothing left to do, has taken that
   * many moves, and has brought every process to the end of its program all at the same moment.
   */
  lemma EveryRunCompletes(job: Job, moves: seq<Move>, t: Sys)
    requires |job.master| >= 1 && Runs(Begin(job), job, moves, t)
    ensures SysShape(Begin(job), job) && SysShape(t, job)
    ensures |moves| <= Total(Begin(job), job)
    ensures |moves| == Total(Begin(job), job) <==> AllAtEnd(t, job)
    ensures Stuck(t, job) <==> AllAtEnd(t, job)
  {
    BeginInv(job);
    RunLength(Begin(job), job, moves, t);
    NoWorkIff(t, job);
    StuckIff(t, job);
  }

  /** By then every process has done one copy for every supported direction, and nobody ever does more. */
  lemma EveryDirectionCopied(job: Job, moves: seq<Move>, t: Sys, p: nat)
    requires |job.master| >= 1 && Runs(Begin(job), job, moves, t) && p < |job.master|
    ensures Completed(moves, p) <= Supported(job.dirs)
    ensures Stuck(t, job) ==> Completed(moves, p) == Supported(job.dirs)
  {
    var code := Code(job, p);
    BeginInv(job);
    CompletedAre(Begin(job), job, moves, t, p);
    assert code[..0] == [] && code[..t.pc[p]] + code[t.pc[p]..] == code;
    CopiesAppend(code[..t.pc[p]], code[t.pc[p]..]);
    ProgramCopies(job.master[p], job.dirs);
    StuckIff(t, job);
    if Stuck(t, job) {
      assert AtEnd(t, job, p) && code[..|code|] == code;
    }
  }
}
