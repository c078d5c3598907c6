/**
 * What becomes of every message over the life of a connection: any interleaving of producers, the one
 * consumer and the break handler. Messages are numbered in the order the queue accepted them.
 */
module LinkLifecycle {
  import opened HeaderImage
  import opened Framing

  datatype Fate = MsgSent | MsgLinkBroken

  datatype Call = Call(id: nat, fate: Fate)

  /** A waiting message and the bytes of it that have been written. */
  datatype Item = Item(id: nat, node: Node, done: seq<Byte>)

  /**
   * `waiting` are the messages not decided on, oldest first; `held` says that the consumer has taken the first of
   * them out of the queue. `dropped` lists the messages it freed after a write that failed, `brokenAt` is how many
   * messages had been accepted at the break, and `shares[id]` are the bytes of a settled message that were written.
   */
  datatype Life = Life(issued: seq<Message>, waiting: seq<Item>, held: bool, calls: seq<Call>, dropped: seq<nat>,
                       established: bool, brokenAt: nat, written: seq<Byte>, shares: seq<seq<Byte>>)
  {
    function QueueSize(): int {
      |waiting| - if held then 1 else 0
    }
  }

  datatype Event = Accept(msg: Message) | Take | Round(w1: Write, w2: Write) | Break

  const Start: Life := Life([], [], false, [], [], true, 0, [], [])

  /** The consumer writes only from a message it holds, and takes or breaks only while holding none. */
  predicate Enabled(s: Life, e: Event) {
    match e
    case Accept(m) => Framed(m)
    case Take => !s.held
    case Round(w1, w2) =>
      && s.held && s.waiting != [] && NodeOk(s.waiting[0].node)
      && WriteOk(w1, s.waiting[0].node.headerRemain) && WriteOk(w2, s.waiting[0].node.dataRemain)
    case Break => !s.held
  }

  function BrokenCalls(items: seq<Item>): (calls: seq<Call>)
    ensures |calls| == |items| && forall i :: 0 <= i < |items| ==> calls[i] == Call(items[i].id, MsgLinkBroken)
  {
    seq(|items|, i requires 0 <= i < |items| => Call(items[i].id, MsgLinkBroken))
  }

  function DoneAll(items: seq<Item>): (shares: seq<seq<Byte>>)
    ensures |shares| == |items| && forall i :: 0 <= i < |items| ==> shares[i] == items[i].done
  {
    seq(|items|, i requires 0 <= i < |items| => items[i].done)
  }

  function Next(s: Life, e: Event, cap: nat): Life
    requires Enabled(s, e)
  {
    match e
    case Accept(m) =>
      if s.QueueSize() >= cap then s
      else s.(waiting := s.waiting + [Item(|s.issued|, Fresh(m), [])], issued := s.issued + [m])
    case Take => s.(held := s.waiting != [])
    case Round(w1, w2) => Concluded(s, PollOutFrom(s.waiting[0].node, [], w1, w2))
    case Break =>
      if !s.established then s
      else s.(established := false, brokenAt := |s.issued|, calls := s.calls + BrokenCalls(s.waiting),
              shares := s.shares + DoneAll(s.waiting), waiting := [])
  }

  /** Pushed back when something is left, reported when it went out, freed without a word when a write failed. */
  function Concluded(s: Life, r: PollOut): Life
    requires s.waiting != []
  {
    var x, rest := s.waiting[0], s.waiting[1..];
    var done := x.done + r.written;
    var t := s.(written := s.written + r.written, held := false);
    if r.queue != [] then t.(waiting := [Item(x.id, r.queue[0], done)] + rest)
    else if r.outcome == Sent then
      t.(waiting := rest, calls := s.calls + [Call(x.id, MsgSent)], shares := s.shares + [done])
    else t.(waiting := rest, dropped := s.dropped + [x.id], shares := s.shares + [done])
  }

  ghost predicate Reaches(s: Life, events: seq<Event>, cap: nat, t: Life)
    decreases |events|
  {
    if events == [] then s == t
    else Enabled(s, events[0]) && Reaches(Next(s, events[0], cap), events[1..], cap, t)
  }

  // ---------- Accounting ----------

  /** Messages no longer waiting. */
  function Settled(s: Life): nat {
    |s.calls| + |s.dropped|
  }

  ghost predicate Called(s: Life, id: nat) {
    exists i :: 0 <= i < |s.calls| && s.calls[i].id == id
  }

  ghost predicate Ordered(calls: seq<Call>) {
    forall i, j :: 0 <= i < j < |calls| ==> calls[i].id < calls[j].id
  }

  ghost predicate Accounted(s: Life, cap: nat) {
    && |s.waiting| <= cap + 1 && (s.held ==> s.waiting != [])
    // What is waiting is the tail of what was accepted, in order.
    && Settled(s) + |s.waiting| == |s.issued|
    && (forall i :: 0 <= i < |s.waiting| ==> s.waiting[i].id == Settled(s) + i)
    // What is settled was reported once, in order, or dropped.
    && Ordered(s.calls)
    && (forall i :: 0 <= i < |s.calls| ==> s.calls[i].id < Settled(s))
    && (forall i :: 0 <= i < |s.dropped| ==> s.dropped[i] < Settled(s))
    && (forall id :: 0 <= id < Settled(s) ==> (Called(s, id) <==> id !in s.dropped))
    // The break settles everything accepted before it.
    && (!s.established ==> s.brokenAt <= Settled(s))
  }

  lemma SettleOne(s: Life, r: PollOut, cap: nat)
    requires Accounted(s, cap) && s.waiting != [] && r.queue == []
    ensures Accounted(Concluded(s, r), cap)
  {
    var t := Concluded(s, r);
    assert forall i :: 0 <= i < |s.calls| ==> t.calls[i] == s.calls[i];
    forall id | 0 <= id < Settled(t) ensures Called(t, id) <==> id !in t.dropped {
      if id < Settled(s) {
        assert Called(t, id) <==> Called(s, id);
      } else if r.outcome == Sent {
        assert t.calls[|s.calls|].id == id;
      } else {
        assert t.dropped[|s.dropped|] == id;
      }
    }
  }

  lemma BreakSettlesAll(s: Life, cap: nat)
    requires Accounted(s, cap) && !s.held && s.established
    ensures Accounted(Next(s, Break, cap), cap) && Settled(Next(s, Break, cap)) == |s.issued|
    ensures Next(s, Break, cap).brokenAt == |s.issued| && !Next(s, Break, cap).established
  {
    var t := Next(s, Break, cap);
    assert forall i :: 0 <= i < |s.calls| ==> t.calls[i] == s.calls[i];
    assert forall i :: |s.calls| <= i < |t.calls| ==> t.calls[i].id == Settled(s) + i - |s.calls|;
    forall id | 0 <= id < Settled(t) ensures Called(t, id) <==> id !in t.dropped {
      if id < Settled(s) {
        assert Called(t, id) <==> Called(s, id);
      } else {
        assert t.calls[|s.calls| + id - Settled(s)].id == id;
      }
    }
  }

  lemma NextAccounted(s: Life, e: Event, cap: nat)
    requires Accounted(s, cap) && Enabled(s, e)
    ensures Accounted(Next(s, e, cap), cap)
  {
    var t := Next(s, e, cap);
    match e
    case Round(w1, w2) =>
      var r := PollOutFrom(s.waiting[0].node, [], w1, w2);
      if r.queue == [] {
        SettleOne(s, r, cap);
      } else {
        assert forall id :: Called(t, id) <==> Called(s, id);
      }
    case Break => if s.established { BreakSettlesAll(s, cap); }
    case Accept(_) => assert forall id :: Called(t, id) <==> Called(s, id);
    case Take => assert forall id :: Called(t, id) <==> Called(s, id);
  }

  // ---------- Bytes ----------

  /** What has been written of a message and what has not make up its frame. */
  ghost predicate Split(x: Item) {
    NodeOk(x.node) && x.done + Pending(x.node) == Frame(x.node.msg)
  }

  /** What one round leaves: the message counts as sent exactly when all its bytes are out. */
  ghost predicate RoundOk(x: Item, r: PollOut) {
    && x.done + r.written <= Frame(x.node.msg)
    && (r.queue != [] ==> r.queue[0].msg == x.node.msg && Split(Item(x.id, r.queue[0], x.done + r.written)))
    && (r.outcome == Sent <==> x.done + r.written == Frame(x.node.msg))
    && (r.outcome == Sent ==> r.queue == [])
  }

  lemma RoundBytes(x: Item, w1: Write, w2: Write)
    requires Split(x) && WriteOk(w1, x.node.headerRemain) && WriteOk(w2, x.node.dataRemain)
    ensures RoundOk(x, PollOutFrom(x.node, [], w1, w2))
  {
    var r := PollOutFrom(x.node, [], w1, w2);
    RoundShape(x.node, w1, w2);
    FrontAnswers(x.node, [], w1, w2);
    Prefixed(x.done, r.written, Pending(x.node));
    if r.queue != [] {
      FrontKeepsBytes(x.node, [], w1, w2);
      RoundKept(x, r);
    }
  }

  lemma RoundShape(n: Node, w1: Write, w2: Write)
    requires NodeOk(n) && WriteOk(w1, n.headerRemain) && WriteOk(w2, n.dataRemain)
    ensures var r := PollOutFrom(n, [], w1, w2);
            |r.queue| <= 1 && (r.queue != [] ==> r.queue[0].msg == n.msg && r.outcome == Again)
  {
  }

  lemma RoundKept(x: Item, r: PollOut)
    requires Split(x) && |r.queue| == 1 && AllOk(r.queue) && r.queue[0].msg == x.node.msg
    requires Pending(x.node) + PendingAll([]) == r.written + PendingAll(r.queue)
    ensures Split(Item(x.id, r.queue[0], x.done + r.written))
  {
    var left := PendingAll(r.queue);
    assert r.queue[1..] == [] && left == Pending(r.queue[0]) + [] == Pending(r.queue[0]);
    assert Pending(x.node) == r.written + left;
    Assoc(x.done, r.written, left);
  }

  lemma Prefixed(a: seq<Byte>, b: seq<Byte>, c: seq<Byte>)
    requires b <= c
    ensures a + b <= a + c && (a + b == a + c <==> b == c)
  {
    Assoc(a, b, c[|b|..]);
    assert |b| == |c| ==> b == c;
  }

  function Flat(shares: seq<seq<Byte>>): seq<Byte> {
    if shares == [] then [] else Flat(shares[..|shares| - 1]) + shares[|shares| - 1]
  }

  lemma FlatOne(shares: seq<seq<Byte>>, b: seq<Byte>)
    ensures Flat(shares + [b]) == Flat(shares) + b
  {
    assert (shares + [b])[..|shares|] == shares;
  }

  lemma {:induction false} FlatQuiet(shares: seq<seq<Byte>>, more: seq<seq<Byte>>)
    requires forall i :: 0 <= i < |more| ==> more[i] == []
    ensures Flat(shares + more) == Flat(shares)
    decreases |more|
  {
    if more == [] {
      assert shares + more == shares;
    } else {
      var front := more[..|more| - 1];
      FlatQuiet(shares, front);
      FlatOne(shares + front, []);
      assert shares + more == shares + front + [[]];
    }
  }

  /** A waiting message is one that was accepted. */
  ghost predicate ItemOk(issued: seq<Message>, x: Item) {
    Split(x) && x.id < |issued| && x.node.msg == issued[x.id]
  }

  ghost predicate ItemsOk(issued: seq<Message>, items: seq<Item>) {
    forall i :: 0 <= i < |items| ==> ItemOk(issued, items[i])
  }

  /** Only the oldest can have been started. */
  ghost predicate OthersFresh(items: seq<Item>) {
    forall i :: 1 <= i < |items| ==> items[i].done == []
  }

  function Started(items: seq<Item>): seq<Byte> {
    if items == [] then [] else items[0].done
  }

  /** The whole frame of a settled message went out. */
  ghost predicate WentOut(s: Life, id: nat) {
    id < |s.shares| && id < |s.issued| && s.shares[id] == Frame(s.issued[id])
  }

  /** A settled message put a prefix of its frame on the wire, and the whole frame exactly if it was reported sent. */
  ghost predicate SharesOk(s: Life) {
    && |s.shares| == Settled(s) <= |s.issued|
    && (forall i :: 0 <= i < |s.shares| ==> s.shares[i] <= Frame(s.issued[i]))
    && (forall i :: 0 <= i < |s.calls| ==> s.calls[i].id < |s.shares|)
    && (forall i :: 0 <= i < |s.calls| ==> (s.calls[i].fate == MsgSent <==> WentOut(s, s.calls[i].id)))
    && (forall i :: 0 <= i < |s.dropped| ==> s.dropped[i] < |s.shares| && !WentOut(s, s.dropped[i]))
  }

  ghost predicate BytesOk(s: Life) {
    OthersFresh(s.waiting) && s.written == Flat(s.shares) + Started(s.waiting)
  }

  ghost predicate Inv(s: Life, cap: nat) {
    Accounted(s, cap) && ItemsOk(s.issued, s.waiting) && SharesOk(s) && BytesOk(s)
  }

  lemma FreshSplit(m: Message, id: nat)
    requires Framed(m)
    ensures Split(Item(id, Fresh(m), []))
  {
  }

  lemma AcceptedItems(issued: seq<Message>, items: seq<Item>, m: Message)
    requires ItemsOk(issued, items) && Framed(m)
    ensures ItemsOk(issued + [m], items + [Item(|issued|, Fresh(m), [])])
  {
    FreshSplit(m, |issued|);
    forall i | 0 <= i < |items| ensures ItemOk(issued + [m], items[i]) {
      assert ItemOk(issued, items[i]);
    }
  }

  lemma AcceptedShares(s: Life, t: Life, m: Message)
    requires SharesOk(s) && t.issued == s.issued + [m]
    requires t.shares == s.shares && t.calls == s.calls && t.dropped == s.dropped
    ensures SharesOk(t)
  {
    assert forall i :: 0 <= i < |s.issued| ==> t.issued[i] == s.issued[i];
    assert forall id :: 0 <= id < |s.shares| ==> (WentOut(t, id) <==> WentOut(s, id));
  }

  lemma AcceptKeepsInv(s: Life, m: Message, cap: nat)
    requires Inv(s, cap) && Framed(m)
    ensures Inv(Next(s, Accept(m), cap), cap)
  {
    NextAccounted(s, Accept(m), cap);
    if s.QueueSize() < cap {
      AcceptedItems(s.issued, s.waiting, m);
      AcceptedShares(s, Next(s, Accept(m), cap), m);
    }
  }

  lemma ConcludedItems(s: Life, r: PollOut)
    requires s.waiting != [] && ItemsOk(s.issued, s.waiting) && RoundOk(s.waiting[0], r)
    ensures ItemsOk(s.issued, Concluded(s, r).waiting)
  {
    assert ItemOk(s.issued, s.waiting[0]);
  }

  lemma ConcludedShares(s: Life, r: PollOut)
    requires s.waiting != [] && SharesOk(s) && RoundOk(s.waiting[0], r)
    requires s.waiting[0].id == Settled(s) < |s.issued| && s.waiting[0].node.msg == s.issued[Settled(s)]
    ensures SharesOk(Concluded(s, r))
  {
    var t := Concluded(s, r);
    assert forall i :: 0 <= i < |s.shares| ==> t.shares[i] == s.shares[i];
    assert forall i :: 0 <= i < |s.calls| ==> t.calls[i] == s.calls[i];
    assert forall id :: 0 <= id < |s.shares| ==> (WentOut(t, id) <==> WentOut(s, id));
  }

  lemma ConcludedBytes(s: Life, r: PollOut)
    requires s.waiting != [] && BytesOk(s)
    ensures BytesOk(Concluded(s, r))
  {
    var flat, done := Flat(s.shares), s.waiting[0].done;
    Assoc(flat, done, r.written);
    if r.queue == [] {
      SettledBytes(s, r);
    } else {
      var rest := s.waiting[1..];
      assert forall i :: 0 <= i < |rest| ==> rest[i] == s.waiting[i + 1];
    }
  }

  lemma SettledBytes(s: Life, r: PollOut)
    requires s.waiting != [] && BytesOk(s) && r.queue == []
    requires s.written + r.written == Flat(s.shares) + (s.waiting[0].done + r.written)
    ensures BytesOk(Concluded(s, r))
  {
    var share, rest := s.waiting[0].done + r.written, s.waiting[1..];
    FlatOne(s.shares, share);
    Ends(Flat(s.shares) + share);
    assert forall i :: 0 <= i < |rest| ==> rest[i] == s.waiting[i + 1];
    assert Started(rest) == [];
  }

  lemma Ends(a: seq<Byte>)
    ensures a + [] == a
  {
  }

  lemma RoundKeepsInv(s: Life, w1: Write, w2: Write, cap: nat)
    requires Inv(s, cap) && Enabled(s, Round(w1, w2))
    ensures Inv(Next(s, Round(w1, w2), cap), cap)
  {
    var r := PollOutFrom(s.waiting[0].node, [], w1, w2);
    NextAccounted(s, Round(w1, w2), cap);
    assert ItemOk(s.issued, s.waiting[0]);
    RoundBytes(s.waiting[0], w1, w2);
    ConcludedItems(s, r);
    ConcludedShares(s, r);
    ConcludedBytes(s, r);
  }

  lemma ShareOfItem(issued: seq<Message>, x: Item)
    requires ItemOk(issued, x)
    ensures x.done <= Frame(issued[x.id]) && x.done != Frame(issued[x.id])
  {
    assert |Pending(x.node)| > 0;
  }

  /** The parts of the waiting messages that went out before the break. */
  lemma BreakParts(s: Life, t: Life)
    requires ItemsOk(s.issued, s.waiting) && Settled(s) + |s.waiting| == |s.issued| && |s.shares| == Settled(s)
    requires forall i :: 0 <= i < |s.waiting| ==> s.waiting[i].id == Settled(s) + i
    requires t.issued == s.issued && t.shares == s.shares + DoneAll(s.waiting)
    ensures forall id :: |s.shares| <= id < |t.shares| ==> t.shares[id] <= Frame(t.issued[id]) && !WentOut(t, id)
  {
    forall id | |s.shares| <= id < |t.shares| ensures t.shares[id] <= Frame(t.issued[id]) && !WentOut(t, id) {
      ShareOfItem(s.issued, s.waiting[id - |s.shares|]);
    }
  }

  lemma BreakShares(s: Life, t: Life)
    requires SharesOk(s) && ItemsOk(s.issued, s.waiting) && Settled(s) + |s.waiting| == |s.issued|
    requires forall i :: 0 <= i < |s.waiting| ==> s.waiting[i].id == Settled(s) + i
    requires t.issued == s.issued && t.shares == s.shares + DoneAll(s.waiting) && t.dropped == s.dropped
    requires t.calls == s.calls + BrokenCalls(s.waiting)
    ensures SharesOk(t)
  {
    BreakParts(s, t);
    assert forall id :: 0 <= id < |s.shares| ==> t.shares[id] == s.shares[id] && (WentOut(t, id) <==> WentOut(s, id));
    forall i | 0 <= i < |t.calls|
      ensures t.calls[i].id < |t.shares| && (t.calls[i].fate == MsgSent <==> WentOut(t, t.calls[i].id))
    {
      if i < |s.calls| {
        assert t.calls[i] == s.calls[i];
      } else {
        assert t.calls[i] == Call(Settled(s) + (i - |s.calls|), MsgLinkBroken);
      }
    }
  }

  lemma BreakBytes(shares: seq<seq<Byte>>, items: seq<Item>)
    requires OthersFresh(items)
    ensures Flat(shares + DoneAll(items)) == Flat(shares) + Started(items)
  {
    if items == [] {
      assert shares + DoneAll(items) == shares;
    } else {
      var first, rest := DoneAll(items)[0], DoneAll(items)[1..];
      FlatOne(shares, first);
      FlatQuiet(shares + [first], rest);
      assert shares + DoneAll(items) == shares + [first] + rest;
    }
  }

  lemma BreakKeepsInv(s: Life, cap: nat)
    requires Inv(s, cap) && !s.held
    ensures Inv(Next(s, Break, cap), cap)
  {
    NextAccounted(s, Break, cap);
    if s.established {
      var t := Next(s, Break, cap);
      BreakShares(s, t);
      BreakBytes(s.shares, s.waiting);
      Ends(Flat(t.shares));
    }
  }

  lemma TakeKeepsInv(s: Life, cap: nat)
    requires Inv(s, cap) && !s.held
    ensures Inv(Next(s, Take, cap), cap)
  {
    NextAccounted(s, Take, cap);
    SameShares(s, Next(s, Take, cap));
  }

  lemma SameShares(s: Life, t: Life)
    requires SharesOk(s) && t.issued == s.issued && t.shares == s.shares && t.calls == s.calls && t.dropped == s.dropped
    ensures SharesOk(t)
  {
    assert forall id :: WentOut(t, id) <==> WentOut(s, id);
  }

  lemma NextKeepsInv(s: Life, e: Event, cap: nat)
    requires Inv(s, cap) && Enabled(s, e)
    ensures Inv(Next(s, e, cap), cap)
  {
    match e
    case Accept(m) => AcceptKeepsInv(s, m, cap);
    case Take => TakeKeepsInv(s, cap);
    case Round(w1, w2) => RoundKeepsInv(s, w1, w2, cap);
    case Break => BreakKeepsInv(s, cap);
  }

  lemma {:induction false} ReachedInv(s: Life, events: seq<Event>, cap: nat, t: Life)
    requires Inv(s, cap) && Reaches(s, events, cap, t)
    ensures Inv(t, cap)
    decreases |events|
  {
    if events != [] {
      NextKeepsInv(s, events[0], cap);
      ReachedInv(Next(s, events[0], cap), events[1..], cap, t);
    }
  }

  lemma StartInv(cap: nat)
    ensures Inv(Start, cap)
  {
  }

  /** The cap is exceeded by at most the one message that the consumer may push back. */
  lemma QueueBounded(events: seq<Event>, cap: nat, t: Life)
    requires Reaches(Start, events, cap, t)
    ensures 0 <= t.QueueSize() <= cap + 1 && (t.held ==> t.QueueSize() <= cap)
  {
    StartInv(cap);
    ReachedInv(Start, events, cap, t);
  }

  /**
   * What has been written is made up, in the order of acceptance, of a prefix of every settled frame and of the
   * next one; a message is reported as sent exactly when its whole frame is among it.
   */
  lemma SentMeansWritten(events: seq<Event>, cap: nat, t: Life)
    requires Reaches(Start, events, cap, t)
    ensures |t.shares| == Settled(t) <= |t.issued| && t.written == Flat(t.shares) + Started(t.waiting)
    ensures forall i :: 0 <= i < |t.shares| ==> t.shares[i] <= Frame(t.issued[i])
    ensures forall id :: 0 <= id < |t.shares| ==> (WentOut(t, id) <==> Call(id, MsgSent) in t.calls)
  {
    StartInv(cap);
    ReachedInv(Start, events, cap, t);
    forall id | 0 <= id < |t.shares| && WentOut(t, id) ensures Call(id, MsgSent) in t.calls {
      assert id !in t.dropped && Called(t, id);
    }
  }

  /** The messages of which a write failed, in the order of the failures. */
  ghost function Lost(s: Life, events: seq<Event>, cap: nat): seq<nat>
    decreases |events|
  {
    if events == [] || !Enabled(s, events[0]) then []
    else LostNow(s, events[0]) + Lost(Next(s, events[0], cap), events[1..], cap)
  }

  ghost function LostNow(s: Life, e: Event): seq<nat>
    requires Enabled(s, e)
  {
    if e.Round? && LosesFront(s.waiting[0].node, e.w1, e.w2) then [s.waiting[0].id] else []
  }

  lemma LosesOne(s: Life, e: Event, cap: nat)
    requires Enabled(s, e)
    ensures Next(s, e, cap).dropped == s.dropped + LostNow(s, e)
  {
    if e.Round? {
      FrontAnswers(s.waiting[0].node, [], e.w1, e.w2);
    }
  }

  lemma {:induction false} DroppedIsLost(s: Life, events: seq<Event>, cap: nat, t: Life)
    requires Reaches(s, events, cap, t)
    ensures t.dropped == s.dropped + Lost(s, events, cap)
    decreases |events|
  {
    if events != [] {
      LosesOne(s, events[0], cap);
      DroppedIsLost(Next(s, events[0], cap), events[1..], cap, t);
    }
  }

  /**
   * A message accepted before the break is reported exactly once, however often the break handler runs, if and only
   * if no write of it failed in the run: as sent when its whole frame went out, else as broken. Reports come in the
   * order of acceptance.
   */
  lemma ExactlyOneCallback(events: seq<Event>, cap: nat, t: Life, id: nat)
    requires Reaches(Start, events, cap, t) && !t.established && id < t.brokenAt
    ensures id !in Lost(Start, events, cap) <==> exists i :: 0 <= i < |t.calls| && t.calls[i].id == id
    ensures forall i :: 0 <= i < |t.calls| && t.calls[i].id == id ==> (t.calls[i].fate == MsgSent <==> WentOut(t, id))
    ensures forall i, j :: 0 <= i < j < |t.calls| ==> t.calls[i].id < t.calls[j].id
  {
    AfterRun(events, cap, t);
    SettledOnce(t, cap, id);
  }

  lemma AfterRun(events: seq<Event>, cap: nat, t: Life)
    requires Reaches(Start, events, cap, t)
    ensures Accounted(t, cap) && SharesOk(t) && t.dropped == Lost(Start, events, cap)
  {
    StartInv(cap);
    ReachedInv(Start, events, cap, t);
    DroppedIsLost(Start, events, cap, t);
    Begins(Lost(Start, events, cap));
  }

  lemma Begins(a: seq<nat>)
    ensures [] + a == a
  {
  }

  lemma SettledOnce(t: Life, cap: nat, id: nat)
    requires Accounted(t, cap) && SharesOk(t) && id < Settled(t)
    ensures id !in t.dropped <==> exists i :: 0 <= i < |t.calls| && t.calls[i].id == id
    ensures forall i :: 0 <= i < |t.calls| && t.calls[i].id == id ==> (t.calls[i].fate == MsgSent <==> WentOut(t, id))
    ensures forall i, j :: 0 <= i < j < |t.calls| ==> t.calls[i].id < t.calls[j].id
  {
    assert Called(t, id) <==> id !in t.dropped;
  }

  /** A message whose first write fails is freed; no callback ever names it, not even at the break. */
  lemma DroppedSilently(m: Message, cap: nat, retry: bool) returns (events: seq<Event>, t: Life)
    requires Framed(m) && cap > 0
    ensures Reaches(Start, events, cap, t) && t.issued == [m] && !t.established && t.brokenAt == 1 && t.calls == []
  {
    var e := Round(WriteFailed(retry), WriteFailed(retry));
    var s1 := Next(Start, Accept(m), cap);
    var s2 := Next(s1, Take, cap);
    var s3 := Next(s2, e, cap);
    t := Next(s3, Break, cap);
    StepThen(s3, Break, [], cap, t);
    StepThen(s2, e, [Break] + [], cap, t);
    StepThen(s1, Take, [e] + ([Break] + []), cap, t);
    StepThen(Start, Accept(m), [Take] + ([e] + ([Break] + [])), cap, t);
    events := [Accept(m)] + ([Take] + ([e] + ([Break] + [])));
  }

  lemma StepThen(s: Life, e: Event, rest: seq<Event>, cap: nat, t: Life)
    requires Enabled(s, e) && Reaches(Next(s, e, cap), rest, cap, t)
    ensures Reaches(s, [e] + rest, cap, t)
  {
    assert ([e] + rest)[1..] == rest && ([e] + rest)[0] == e;
  }
}
