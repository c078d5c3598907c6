/**
 * The benchmark's phases: every process runs the copies of the same directions, the master node's before one
 * barrier and the other node's after it.
 */
module Benchmark {
  import opened Barrier

  datatype Instr = Copy | Bar

  /** One direction: the copy (skipped when the mode does not support it), the method's barrier, and the outer one. */
  function Direction(master: bool, supported: bool): seq<Instr> {
    var body := (if supported then [Copy] else []) + [Bar];
    if master then body + [Bar] else [Bar] + body
  }

  function Program(master: bool, dirs: seq<bool>): seq<Instr> {
    if dirs == [] then [] else Direction(master, dirs[0]) + Program(master, dirs[1..])
  }

  function Bars(prog: seq<Instr>): nat {
    if prog == [] then 0 else (if prog[0] == Bar then 1 else 0) + Bars(prog[1..])
  }

  lemma {:induction false} BarsAppend(a: seq<Instr>, b: seq<Instr>)
    ensures Bars(a + b) == Bars(a) + Bars(b)
  {
    if a == [] {
      assert a + b == b;
    } else {
      BarsAppend(a[1..], b);
      assert (a + b)[1..] == a[1..] + b;
    }
  }

  lemma DirectionBars(master: bool, supported: bool, pc: nat)
    requires pc <= |Direction(master, supported)|
    ensures Bars(Direction(master, supported)) == 2
    ensures pc < |Direction(master, supported)| && Direction(master, supported)[pc] == Copy ==>
              Bars(Direction(master, supported)[..pc]) == if master then 0 else 1
  {
    var d := Direction(master, supported);
    assert d == if master then (if supported then [Copy, Bar, Bar] else [Bar, Bar])
                else if supported then [Bar, Copy, Bar] else [Bar, Bar];
    assert [Bar, Bar][1..] == [Bar] && [Copy, Bar, Bar][1..] == [Bar, Bar];
    assert [Bar, Copy, Bar][1..] == [Copy, Bar] && [Copy, Bar][1..] == [Bar];
    assert d[..0] == [] && (|d| > 0 ==> d[..1] == [d[0]]);
  }

  /** The master node copies after an even number of barriers, the other node after an odd number. */
  lemma {:induction false} CopyParity(master: bool, dirs: seq<bool>, pc: nat)
    requires pc < |Program(master, dirs)| && Program(master, dirs)[pc] == Copy
    ensures Bars(Program(master, dirs)[..pc]) % 2 == if master then 0 else 1
  {
    var d, rest := Direction(master, dirs[0]), Program(master, dirs[1..]);
    assert Program(master, dirs) == d + rest;
    if pc < |d| {
      DirectionBars(master, dirs[0], pc);
      assert (d + rest)[..pc] == d[..pc];
    } else {
      DirectionBars(master, dirs[0], 0);
      CopyParity(master, dirs[1..], pc - |d|);
      assert (d + rest)[..pc] == d + rest[..pc - |d|];
      BarsAppend(d, rest[..pc - |d|]);
    }
  }

  // ---------- All processes together ----------

  /** `pc[p]` is the next instruction of process `p`; `copying[p]` that it is in the middle of a copy. */
  datatype Sys = Sys(net: State, pc: seq<nat>, copying: seq<bool>)

  datatype Move = StartCopy(p: nat) | EndCopy(p: nat) | Net(step: Step)

  /** Which node each process is on, and the directions they all run. */
  datatype Job = Job(master: seq<bool>, dirs: seq<bool>)

  ghost function Code(job: Job, p: nat): seq<Instr>
    requires p < |job.master|
  {
    Program(job.master[p], job.dirs)
  }

  ghost predicate SysShape(s: Sys, job: Job) {
    && var n := |job.master|;
       Shape(s.net, n) && |s.pc| == |s.copying| == n && forall p :: 0 <= p < n ==> s.pc[p] <= |Code(job, p)|
  }

  ghost predicate At(s: Sys, job: Job, p: nat, instr: Instr) {
    p < |job.master| && SysShape(s, job) && s.pc[p] < |Code(job, p)| && Code(job, p)[s.pc[p]] == instr
  }

  /** The process a barrier step lets in. */
  function Enters(step: Step): int {
    match step case ClientEnter(c) => c case ServerEnter => 0 case _ => -1
  }

  /** The process a barrier step lets out. */
  function Leaves(step: Step): int {
    match step case ClientLeave(c, _) => c case ServerLeave => 0 case _ => -1
  }

  ghost predicate MoveEnabled(s: Sys, job: Job, m: Move) {
    && SysShape(s, job)
    && match m
       case StartCopy(p) => At(s, job, p, Copy) && !s.copying[p]
       case EndCopy(p) => At(s, job, p, Copy) && s.copying[p]
       case Net(step) =>
         && Enabled(s.net, |job.master|, step)
         && (Enters(step) >= 0 ==> At(s, job, Enters(step), Bar))
         && (Leaves(step) >= 0 ==> At(s, job, Leaves(step), Bar))
  }

  ghost function Apply(s: Sys, job: Job, m: Move): Sys
    requires MoveEnabled(s, job, m)
  {
    match m
    case StartCopy(p) => s.(copying := s.copying[p := true])
    case EndCopy(p) => s.(copying := s.copying[p := false], pc := s.pc[p := s.pc[p] + 1])
    case Net(step) =>
      var p := Leaves(step);
      s.(net := Next(s.net, |job.master|, step), pc := if p >= 0 then s.pc[p := s.pc[p] + 1] else s.pc)
  }

  ghost function Begin(job: Job): Sys {
    var n := |job.master|;
    Sys(Init(n), seq(n, _ => 0), seq(n, _ => false))
  }

  ghost predicate Runs(s: Sys, job: Job, moves: seq<Move>, t: Sys)
    decreases |moves|
  {
    if moves == [] then s == t
    else MoveEnabled(s, job, moves[0]) && Runs(Apply(s, job, moves[0]), job, moves[1..], t)
  }

  ghost predicate InBarrier(s: State, n: nat, p: nat)
    requires Shape(s, n) && p < n
  {
    s.left[p] < Entered(s, n, p)
  }

  /** A process has left as many barriers as its code has passed, and waits in one only at a barrier. */
  ghost predicate Tracks(s: Sys, job: Job, p: nat)
    requires SysShape(s, job) && p < |job.master|
  {
    && s.net.left[p] == Bars(Code(job, p)[..s.pc[p]])
    && (InBarrier(s.net, |job.master|, p) ==> At(s, job, p, Bar))
    && (s.copying[p] ==> At(s, job, p, Copy))
  }

  ghost predicate SysInv(s: Sys, job: Job) {
    && SysShape(s, job) && Inv(s.net, |job.master|)
    && forall p :: 0 <= p < |job.master| ==> Tracks(s, job, p)
  }

  lemma BarsStep(prog: seq<Instr>, pc: nat)
    requires pc < |prog|
    ensures Bars(prog[..pc + 1]) == Bars(prog[..pc]) + if prog[pc] == Bar then 1 else 0
  {
    assert prog[..pc + 1] == prog[..pc] + [prog[pc]];
    BarsAppend(prog[..pc], [prog[pc]]);
    assert [prog[pc]][1..] == [];
  }

  lemma ApplyKeepsShape(s: Sys, job: Job, m: Move)
    requires SysInv(s, job) && MoveEnabled(s, job, m)
    ensures SysShape(Apply(s, job, m), job) && Inv(Apply(s, job, m).net, |job.master|)
  {
    if m.Net? {
      NextKeepsInv(s.net, |job.master|, m.step);
    }
  }

  lemma ApplyKeepsTrack(s: Sys, job: Job, m: Move, p: nat)
    requires SysInv(s, job) && MoveEnabled(s, job, m) && p < |job.master|
    requires SysShape(Apply(s, job, m), job)
    ensures Tracks(Apply(s, job, m), job, p)
  {
    assert Tracks(s, job, p);
    if s.pc[p] < |Code(job, p)| {
      BarsStep(Code(job, p), s.pc[p]);
    }
  }

  lemma ApplyKeepsInv(s: Sys, job: Job, m: Move)
    requires SysInv(s, job) && MoveEnabled(s, job, m)
    ensures SysInv(Apply(s, job, m), job)
  {
    ApplyKeepsShape(s, job, m);
    forall p | 0 <= p < |job.master| ensures Tracks(Apply(s, job, m), job, p) {
      ApplyKeepsTrack(s, job, m, p);
    }
  }

  lemma {:induction false} RunsInv(s: Sys, job: Job, moves: seq<Move>, t: Sys)
    requires SysInv(s, job) && Runs(s, job, moves, t)
    ensures SysInv(t, job)
    decreases |moves|
  {
    if moves != [] {
      ApplyKeepsInv(s, job, moves[0]);
      RunsInv(Apply(s, job, moves[0]), job, moves[1..], t);
    }
  }

  /** In no reachable state does a process of the master node copy while a process of the other node copies. */
  lemma PhasesExclude(job: Job, moves: seq<Move>, t: Sys, p: nat, q: nat)
    requires |job.master| >= 1 && Runs(Begin(job), job, moves, t)
    requires p < |job.master| && q < |job.master| && job.master[p] && !job.master[q]
    ensures SysShape(t, job) && !(t.copying[p] && t.copying[q])
  {
    BeginInv(job);
    RunsInv(Begin(job), job, moves, t);
    NotBoth(t, job, p, q);
  }

  lemma BeginInv(job: Job)
    requires |job.master| >= 1
    ensures SysInv(Begin(job), job)
  {
    forall p | 0 <= p < |job.master| ensures Tracks(Begin(job), job, p) {
      assert Code(job, p)[..0] == [];
    }
  }

  lemma NotBoth(t: Sys, job: Job, p: nat, q: nat)
    requires SysInv(t, job) && p < |job.master| && q < |job.master| && job.master[p] && !job.master[q]
    ensures !(t.copying[p] && t.copying[q])
  {
    assert Tracks(t, job, p) && Tracks(t, job, q);
    LeftImpliesEntered(t.net, |job.master|, p, q);
    LeftImpliesEntered(t.net, |job.master|, q, p);
    if t.copying[p] {
      CopyParity(true, job.dirs, t.pc[p]);
    }
    if t.copying[q] {
      CopyParity(false, job.dirs, t.pc[q]);
    }
  }
}
