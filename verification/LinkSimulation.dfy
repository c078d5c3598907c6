/**
 * The linked queue lives that life: what the contracts of `SendQueue` say about the queued nodes, seen as values,
 * is what the steps of `LinkLifecycle` do to the waiting messages.
 */
module LinkSimulation {
  import opened HeaderImage
  import opened Framing
  import opened LinkLifecycle

  /** The queued nodes are the waiting messages, as far as each has been sent. */
  ghost predicate Mirrors(views: seq<Node>, waiting: seq<Item>) {
    |views| == |waiting| && forall i :: 0 <= i < |views| ==> views[i] == waiting[i].node
  }

  /** What a round does to the first message does not depend on what is queued behind it. */
  lemma RestAside(n: Node, rest: seq<Node>, w1: Write, w2: Write)
    requires NodeOk(n) && WriteOk(w1, n.headerRemain) && WriteOk(w2, n.dataRemain)
    ensures var r, r0 := PollOutFrom(n, rest, w1, w2), PollOutFrom(n, [], w1, w2);
            && r.written == r0.written && r.outcome == r0.outcome && |r0.queue| <= 1
            && r.queue == r0.queue + rest
  {
  }

  /** A round of the queue is a take and a round of the life. */
  ghost predicate IsRound(s: Life, t: Life, w1: Write, w2: Write, cap: nat) {
    && LinkLifecycle.Enabled(s, Take) && LinkLifecycle.Enabled(Next(s, Take, cap), Round(w1, w2))
    && t == Next(Next(s, Take, cap), Round(w1, w2), cap)
  }

  lemma RoundIsConcluded(s: Life, w1: Write, w2: Write, cap: nat)
    requires !s.held && s.waiting != [] && NodeOk(s.waiting[0].node)
    requires WriteOk(w1, s.waiting[0].node.headerRemain) && WriteOk(w2, s.waiting[0].node.dataRemain)
    ensures IsRound(s, Concluded(s.(held := true), PollOutFrom(s.waiting[0].node, [], w1, w2)), w1, w2, cap)
  {
  }

  lemma ConcludedMirrors(views: seq<Node>, s: Life, r0: PollOut, queue: seq<Node>)
    requires s.waiting != [] && Mirrors(views, s.waiting) && |r0.queue| <= 1 && queue == r0.queue + views[1..]
    ensures Mirrors(queue, Concluded(s, r0).waiting)
  {
  }

  lemma RoundMirrors(views: seq<Node>, s: Life, w1: Write, w2: Write, cap: nat) returns (t: Life)
    requires Mirrors(views, s.waiting) && !s.held && s.waiting != [] && AllOk(views) && WritesOk(views, w1, w2)
    ensures IsRound(s, t, w1, w2, cap) && !t.held && t.established == s.established
    ensures Mirrors(HandlePollOut(views, w1, w2).queue, t.waiting)
    ensures t.written == s.written + HandlePollOut(views, w1, w2).written
    ensures t.calls == s.calls + if HandlePollOut(views, w1, w2).outcome == Sent then [Call(s.waiting[0].id, MsgSent)]
                                 else []
  {
    var taken, r := s.(held := true), PollOutFrom(views[0], [], w1, w2);
    RestAside(views[0], views[1..], w1, w2);
    RoundIsConcluded(s, w1, w2, cap);
    ConcludedMirrors(views, taken, r, HandlePollOut(views, w1, w2).queue);
    RoundShape(views[0], w1, w2);
    t := Concluded(taken, r);
  }

  /** Accepting a message at the end of the queue is accepting it in the life. */
  lemma AcceptMirrors(views: seq<Node>, s: Life, m: Message, cap: nat)
    requires Mirrors(views, s.waiting) && !s.held && Framed(m)
    ensures Mirrors(if |views| < cap then views + [Fresh(m)] else views, Next(s, Accept(m), cap).waiting)
  {
  }

  /** In the connection of `Framing` it is accepted in the same case, and the queue never outgrows the cap. */
  lemma NetAccepts(views: seq<Node>, s: Net, m: Message, cap: nat)
    requires Framing.Enabled(s, Enqueue(m)) && s.queue == views
    ensures Act(s, Enqueue(m), cap).queue == if |views| < cap then views + [Fresh(m)] else views
    ensures Act(s, Enqueue(m), cap).accepted == if |views| < cap then s.accepted + [m] else s.accepted
  {
  }

  lemma {:induction false} NetQueueBounded(s: Net, actions: seq<Action>, cap: nat, t: Net)
    requires |s.queue| <= cap && Framing.Reaches(s, actions, cap, t)
    ensures |t.queue| <= cap
    decreases |actions|
  {
    if actions != [] {
      if actions[0].Send? {
        PollOutAnswers(s.queue, actions[0].w1, actions[0].w2);
      }
      NetQueueBounded(Act(s, actions[0], cap), actions[1..], cap, t);
    }
  }

  /** The break leaves both empty, and its callbacks name the queued messages in order. */
  lemma BreakMirrors(views: seq<Node>, s: Life, cap: nat)
    requires Mirrors(views, s.waiting) && !s.held && s.established
    ensures var t := Next(s, Break, cap);
            && Mirrors([], t.waiting) && |t.calls| == |s.calls| + |views|
            && forall i :: 0 <= i < |views| ==>
                 t.calls[|s.calls| + i] == Call(s.waiting[i].id, MsgLinkBroken) && s.waiting[i].node == views[i]
  {
  }
}
