/** The linked send queue of a connection and the round that drains it, in place. */
module SendQueue {
  import opened HeaderImage
  import opened Framing

  class LinkNode {
    var next: LinkNode?
    const msg: Message
    const ctx: int
    var headerRemain: nat
    var dataRemain: nat

    constructor (msg: Message, ctx: int)
      ensures next == null && this.msg == msg && this.ctx == ctx && View() == Fresh(msg)
    {
      next := null;
      this.msg, this.ctx := msg, ctx;
      headerRemain, dataRemain := HEADER_LEN, |msg.body|;
    }

    function View(): Node reads this {
      Node(msg, headerRemain, dataRemain)
    }

    method HeaderAllSent(size: nat) returns (all: bool)
      modifies this`headerRemain
      ensures all <==> old(headerRemain) <= size
      ensures headerRemain == if all then 0 else old(headerRemain) - size
    {
      if headerRemain <= size {
        headerRemain := 0;
        return true;
      }
      headerRemain := headerRemain - size;
      return false;
    }

    method DataAllSent(size: nat) returns (all: bool)
      modifies this`dataRemain
      ensures all <==> old(dataRemain) <= size
      ensures dataRemain == if all then 0 else old(dataRemain) - size
    {
      if dataRemain <= size {
        dataRemain := 0;
        return true;
      }
      dataRemain := dataRemain - size;
      return false;
    }
  }

  /** The list from a head pointer is exactly `nodes`, each once, ending in null. */
  ghost predicate Chain(head: LinkNode?, nodes: seq<LinkNode>)
    reads nodes
  {
    && head == (if nodes == [] then null else nodes[0])
    && (forall i, j :: 0 <= i < |nodes| && j == i + 1 < |nodes| ==> nodes[i].next == nodes[j])
    && (nodes != [] ==> nodes[|nodes| - 1].next == null)
    && (forall i, j :: 0 <= i < j < |nodes| ==> nodes[i] != nodes[j])
  }

  /**
   * One consumer: at most one node, `held`, is outside the list between a dequeue and the moment it is
   * deleted or pushed back. Producers may append meanwhile.
   */
  class Queue {
    const cap: nat
    var size: nat
    var head: LinkNode?
    var tail: LinkNode?
    ghost var nodes: seq<LinkNode>
    ghost var views: seq<Node>
    ghost var held: LinkNode?

    ghost predicate Valid() reads this, nodes, held {
      && size == |nodes| == |views| && Chain(head, nodes)
      && (forall i :: 0 <= i < |nodes| ==> views[i] == nodes[i].View())
      && tail == (if nodes == [] then null else nodes[|nodes| - 1])
      && (held == null ==> size <= cap + 1)
      && (held != null ==> size <= cap && held !in nodes && (nodes == [] ==> held.next == null))
    }

    constructor (cap: nat)
      ensures Valid() && this.cap == cap && nodes == [] && held == null
    {
      this.cap := cap;
      size, head, tail := 0, null, null;
      nodes, views, held := [], [], null;
    }

    method EnqueueBack(msg: Message, ctx: int) returns (ok: bool)
      requires Valid()
      modifies this, nodes`next
      ensures Valid() && held == old(held)
      ensures ok <==> old(size) < cap
      ensures !ok ==> nodes == old(nodes)
      ensures ok ==> |nodes| == old(|nodes|) + 1 && nodes[..old(|nodes|)] == old(nodes)
      ensures ok ==> fresh(nodes[old(|nodes|)]) && nodes[old(|nodes|)].msg == msg && nodes[old(|nodes|)].ctx == ctx
      ensures views == if ok then old(views) + [Fresh(msg)] else old(views)
    {
      var node := new LinkNode(msg, ctx);
      if size >= cap {
        return false;
      }
      if head == null {
        head, tail := node, node;
      } else {
        var currentTail := tail;
        tail := node;
        currentTail.next := node;
      }
      nodes, views := nodes + [node], views + [node.View()];
      size := size + 1;
      return true;
    }

    method DequeueFront() returns (node: LinkNode?)
      requires Valid() && held == null
      modifies this
      ensures Valid() && held == node
      ensures old(nodes) == [] ==> node == null && nodes == []
      ensures old(nodes) != [] ==> node == old(nodes)[0] && nodes == old(nodes)[1..]
      ensures old(nodes) != [] ==> node.View() == old(views)[0] && views == old(views)[1..]
      ensures old(nodes) == [] ==> views == []
    {
      if size == 0 {
        return null;
      }
      node := head;
      assert node == nodes[0] && (size > 1 ==> node.next == nodes[1]) && (size == 1 ==> node.next == null);
      if size == 1 {
        head, tail := null, null;
      } else {
        head := node.next;
      }
      size := size - 1;
      nodes, views := nodes[1..], views[1..];
      held := node;
    }

    /** Pushes the held node back to the front, whatever the cap says. */
    method EnqueueFront(node: LinkNode)
      requires Valid() && held == node
      modifies this, node`next
      ensures Valid() && held == null && nodes == [node] + old(nodes) && views == [node.View()] + old(views)
    {
      if head == null {
        head, tail := node, node;
      } else {
        node.next := head;
        head := node;
      }
      size := size + 1;
      nodes, views := [node] + nodes, [node.View()] + views;
      held := null;
      assert forall i :: 1 <= i < |nodes| ==> nodes[i] == old(nodes)[i - 1];
    }

    /** The consumer frees the node it holds. */
    ghost method Forget()
      requires Valid()
      modifies this`held
      ensures Valid() && held == null
    {
      held := null;
    }

    method TakeAwayMessages() returns (first: LinkNode?)
      requires Valid() && held == null
      modifies this
      ensures Valid() && held == null && nodes == []
      ensures Chain(first, old(nodes))
    {
      size := 0;
      first := head;
      head, tail := null, null;
      nodes, views := [], [];
    }
  }

  datatype Callback = Callback(msg: Message, ctx: int)

  class Link {
    const queue: Queue
    var established: bool

    constructor (cap: nat)
      ensures established && fresh(queue) && queue.Valid() && queue.nodes == [] && queue.held == null
      ensures queue.cap == cap
    {
      queue := new Queue(cap);
      established := true;
    }

    /** Sends from the body of the node the round holds, then frees it or pushes it back. */
    method SendBody(node: LinkNode, w: Write) returns (written: seq<Byte>, outcome: OutOutcome)
      requires queue.Valid() && queue.held == node
      requires NodeOk(node.View()) && node.headerRemain == 0 && WriteOk(w, node.dataRemain)
      modifies queue, node
      ensures queue.Valid() && queue.held == null
      ensures PollOut(queue.views, written, outcome) == SendData(old(node.View()), old(queue.views), w)
      ensures queue.nodes == if w.Wrote? && outcome == Again then [node] + old(queue.nodes) else old(queue.nodes)
    {
      match w
      case WriteFailed(retry) =>
        queue.Forget();
        return [], if retry then Again else LinkError;
      case Wrote(n) =>
        written := node.msg.body[|node.msg.body| - node.dataRemain..][..n];
        var all := node.DataAllSent(n);
        if !all {
          queue.EnqueueFront(node);
          return written, Again;
        }
        queue.Forget();
        return written, Sent;
    }

    /** Sends from the header of the node the round holds; `more` asks for the body to follow. */
    method SendHeader(node: LinkNode, w: Write) returns (written: seq<Byte>, outcome: OutOutcome, more: bool)
      requires queue.Valid() && queue.held == node
      requires NodeOk(node.View()) && node.headerRemain > 0 && WriteOk(w, node.headerRemain)
      modifies queue, node`headerRemain, node`next
      ensures queue.Valid()
      ensures more <==> w == Wrote(old(node.headerRemain)) && node.dataRemain > 0
      ensures written == if w.Wrote? then node.msg.header[HEADER_LEN - old(node.headerRemain)..][..w.n] else []
      ensures more ==> queue.held == node && queue.nodes == old(queue.nodes)
      ensures more ==> node.View() == old(node.View()).(headerRemain := 0) && queue.views == old(queue.views)
      ensures !more ==> queue.held == null
      ensures !more ==> outcome == (match w case WriteFailed(retry) => if retry then Again else LinkError
                                            case Wrote(n) => if n < old(node.headerRemain) then Again else Sent)
      ensures !more ==> queue.nodes == if w.Wrote? && outcome == Again then [node] + old(queue.nodes)
                                       else old(queue.nodes)
      ensures !more ==> queue.views == if w.Wrote? && outcome == Again then [node.View()] + old(queue.views)
                                       else old(queue.views)
      ensures !more && w.Wrote? && outcome == Again ==>
                node.View() == old(node.View()).(headerRemain := old(node.headerRemain) - w.n)
    {
      outcome := Again;
      match w
      case WriteFailed(retry) =>
        queue.Forget();
        return [], if retry then Again else LinkError, false;
      case Wrote(n) =>
        written := node.msg.header[HEADER_LEN - node.headerRemain..][..n];
        var all := node.HeaderAllSent(n);
        if !all {
          queue.EnqueueFront(node);
          return written, Again, false;
        }
        if node.dataRemain == 0 {
          queue.Forget();
          return written, Sent, false;
        }
        return written, Again, true;
    }

    method SendNode(node: LinkNode, w1: Write, w2: Write) returns (written: seq<Byte>, outcome: OutOutcome)
      requires queue.Valid() && queue.held == node
      requires NodeOk(node.View()) && AllOk(queue.views)
      requires WriteOk(w1, node.headerRemain) && WriteOk(w2, node.dataRemain)
      modifies queue, node
      ensures queue.Valid() && queue.held == null
      ensures PollOut(queue.views, written, outcome) == PollOutFrom(old(node.View()), old(queue.views), w1, w2)
      ensures queue.nodes == old(queue.nodes) || queue.nodes == [node] + old(queue.nodes)
    {
      if node.headerRemain == 0 {
        written, outcome := SendBody(node, w2);
      } else {
        var more;
        written, outcome, more := SendHeader(node, w1);
        if more {
          var body;
          body, outcome := SendBody(node, w2);
          written := written + body;
        }
      }
    }

    /** One round of sending; the two write results come from the socket. */
    method PollOutRound(w1: Write, w2: Write) returns (written: seq<Byte>, outcome: OutOutcome, done: seq<Callback>)
      requires queue.Valid() && queue.held == null
      requires AllOk(queue.views) && WritesOk(queue.views, w1, w2)
      modifies queue, queue.nodes
      ensures queue.Valid() && queue.held == null
      ensures PollOut(queue.views, written, outcome) == HandlePollOut(old(queue.views), w1, w2)
      ensures queue.nodes == old(queue.nodes) || queue.nodes == old(queue.nodes)[1..]
      ensures done == if old(queue.nodes) != [] && written == Pending(old(queue.views)[0])
                      then [Callback(old(queue.nodes)[0].msg, old(queue.nodes)[0].ctx)] else []
    {
      PollOutAnswers(queue.views, w1, w2);
      var node := queue.DequeueFront();
      if node == null {
        return [], Idle, [];
      }
      assert [node] + queue.nodes == old(queue.nodes);
      written, outcome := SendNode(node, w1, w2);
      done := if outcome == Sent then [Callback(node.msg, node.ctx)] else [];
    }

    /** The break handler: only the call that flips the flag reports the unsent messages, each once, in order. */
    method HandleLinkBroken() returns (broken: seq<Callback>)
      requires queue.Valid() && queue.held == null
      modifies this`established, queue
      ensures !established && queue.Valid() && queue.held == null
      ensures old(established) ==> queue.nodes == []
      ensures old(established) ==> |broken| == |old(queue.nodes)|
      ensures old(established) ==>
                forall i :: 0 <= i < |broken| ==>
                  broken[i] == Callback(old(queue.nodes)[i].msg, old(queue.nodes)[i].ctx)
      ensures !old(established) ==> broken == [] && queue.nodes == old(queue.nodes)
    {
      broken := [];
      if !established {
        return;
      }
      established := false;
      var node := queue.TakeAwayMessages();
      ghost var taken := old(queue.nodes);
      while node != null
        invariant queue.Valid() && queue.held == null && queue.nodes == []
        invariant Chain(old(queue.head), taken) && |broken| <= |taken|
        invariant node == if |broken| < |taken| then taken[|broken|] else null
        invariant forall i :: 0 <= i < |broken| ==> broken[i] == Callback(taken[i].msg, taken[i].ctx)
        decreases |taken| - |broken|
      {
        var nextNode := node.next;
        broken := broken + [Callback(node.msg, node.ctx)];
        node := nextNode;
      }
    }
  }
}
