/**
 * The socket barrier of the benchmark: process 0 collects an 'S' from every other process and answers each
 * with an 'R'. Any number of rounds, any interleaving, any size of a read.
 */
module Barrier {
  /** The server between rounds, reading from connection `i`, or answering connection `i`. */
  datatype Server = Outside | Reading(i: nat) | Sending(i: nat)

  /**
   * `left[p]` counts the rounds process `p` has completed; `inside[c]` says client `c` has sent its 'S' and waits.
   * `up[c]` and `down[c]` are the bytes in flight. Index 0 of the client fields is unused.
   */
  datatype State = State(left: seq<nat>, inside: seq<bool>, server: Server, up: seq<seq<char>>, down: seq<seq<char>>)

  datatype Step =
    | ClientEnter(c: nat)
    | ClientLeave(c: nat, bytes: nat)
    | ServerEnter
    | ServerRead(bytes: nat)
    | ServerSend
    | ServerLeave

  const READ_MAX: nat := 10

  ghost predicate Shape(s: State, n: nat) {
    && 1 <= n == |s.left| == |s.inside| == |s.up| == |s.down|
    && (s.server.Reading? ==> 1 <= s.server.i <= n) && (s.server.Sending? ==> 1 <= s.server.i <= n)
  }

  predicate ReadOk(channel: seq<char>, bytes: nat) {
    1 <= bytes <= |channel| && bytes <= READ_MAX
  }

  ghost predicate Enabled(s: State, n: nat, step: Step) {
    && Shape(s, n)
    && match step
       case ClientEnter(c) => 1 <= c < n && !s.inside[c]
       case ClientLeave(c, bytes) => 1 <= c < n && s.inside[c] && ReadOk(s.down[c], bytes)
       case ServerEnter => s.server.Outside?
       case ServerRead(bytes) => s.server.Reading? && s.server.i < n && ReadOk(s.up[s.server.i], bytes)
       case ServerSend => (s.server.Reading? && s.server.i == n) || (s.server.Sending? && s.server.i < n)
       case ServerLeave => s.server.Sending? && s.server.i == n
  }

  ghost function Next(s: State, n: nat, step: Step): State
    requires Enabled(s, n, step)
  {
    match step
    case ClientEnter(c) => s.(inside := s.inside[c := true], up := s.up[c := s.up[c] + ['S']])
    case ClientLeave(c, bytes) =>
      s.(inside := s.inside[c := false], left := s.left[c := s.left[c] + 1], down := s.down[c := s.down[c][bytes..]])
    case ServerEnter => s.(server := Reading(1))
    case ServerRead(bytes) =>
      var i := s.server.i;
      s.(server := Reading(i + 1), up := s.up[i := s.up[i][bytes..]])
    case ServerSend =>
      if s.server.Reading? then s.(server := Sending(1))
      else
        var i := s.server.i;
        s.(server := Sending(i + 1), down := s.down[i := s.down[i] + ['R']])
    case ServerLeave => s.(server := Outside, left := s.left[0 := s.left[0] + 1])
  }

  ghost function Init(n: nat): State {
    State(seq(n, _ => 0), seq(n, _ => false), Outside, seq(n, _ => []), seq(n, _ => []))
  }

  ghost predicate Reaches(s: State, n: nat, steps: seq<Step>, t: State)
    decreases |steps|
  {
    if steps == [] then s == t
    else Enabled(s, n, steps[0]) && Reaches(Next(s, n, steps[0]), n, steps[1..], t)
  }

  // ---------- Where each client is, measured four ways ----------

  /** Rounds a process has entered. */
  ghost function Entered(s: State, n: nat, p: nat): nat
    requires Shape(s, n) && p < n
  {
    s.left[p] + if (if p == 0 then !s.server.Outside? else s.inside[p]) then 1 else 0
  }

  /** Bytes the server has taken from client `c`, over the whole run. */
  ghost function Taken(s: State, n: nat, c: nat): nat
    requires Shape(s, n)
  {
    s.left[0] + if s.server.Sending? || (s.server.Reading? && c < s.server.i) then 1 else 0
  }

  /** Bytes the server has sent to client `c`, over the whole run. */
  ghost function Answered(s: State, n: nat, c: nat): nat
    requires Shape(s, n)
  {
    s.left[0] + if s.server.Sending? && c < s.server.i then 1 else 0
  }

  /** Each round passes from the client to the server and back, and the channels hold what is between. */
  ghost predicate InStep(s: State, n: nat, c: nat)
    requires Shape(s, n) && 1 <= c < n
  {
    && s.left[c] <= Answered(s, n, c) <= Taken(s, n, c) <= Entered(s, n, c)
    && s.up[c] == (if Taken(s, n, c) < Entered(s, n, c) then ['S'] else [])
    && s.down[c] == (if s.left[c] < Answered(s, n, c) then ['R'] else [])
  }

  ghost predicate Inv(s: State, n: nat) {
    Shape(s, n) && forall c :: 1 <= c < n ==> InStep(s, n, c)
  }

  lemma NextKeepsInv(s: State, n: nat, step: Step)
    requires Inv(s, n) && Enabled(s, n, step)
    ensures Inv(Next(s, n, step), n)
  {
    var t := Next(s, n, step);
    forall c | 1 <= c < n ensures InStep(t, n, c) {
      assert InStep(s, n, c);
    }
  }

  lemma {:induction false} ReachedInv(s: State, n: nat, steps: seq<Step>, t: State)
    requires Inv(s, n) && Reaches(s, n, steps, t)
    ensures Inv(t, n)
    decreases |steps|
  {
    if steps != [] {
      NextKeepsInv(s, n, steps[0]);
      ReachedInv(Next(s, n, steps[0]), n, steps[1..], t);
    }
  }

  /** No process has left a round that some process has not entered. */
  lemma LeftImpliesEntered(s: State, n: nat, p: nat, q: nat)
    requires Inv(s, n) && p < n && q < n
    ensures s.left[p] <= Entered(s, n, q)
  {
    assert p > 0 ==> InStep(s, n, p);
    assert q > 0 ==> InStep(s, n, q);
  }

  /**
   * Barrier safety over whole runs: nobody is ahead of anybody by more than a round, whoever has left round k
   * proves that everybody entered it, and a read never finds bytes of two rounds.
   */
  lemma BarrierSafety(n: nat, steps: seq<Step>, t: State, p: nat, q: nat)
    requires n >= 1 && Reaches(Init(n), n, steps, t) && p < n && q < n
    ensures Shape(t, n)
    ensures t.left[p] <= Entered(t, n, q)
    ensures Entered(t, n, p) <= Entered(t, n, q) + 1
    ensures p > 0 ==> |t.up[p]| + |t.down[p]| <= 1
    ensures p > 0 && t.up[p] != [] ==> t.up[p] == ['S']
    ensures p > 0 && t.down[p] != [] ==> t.down[p] == ['R']
  {
    ReachedInv(Init(n), n, steps, t);
    LeftImpliesEntered(t, n, p, q);
    assert p > 0 ==> InStep(t, n, p);
  }
}
