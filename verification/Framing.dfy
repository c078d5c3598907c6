/**
 * Message framing on an acc_links connection: what the sender puts on the byte stream, what the
 * receiver rebuilds from it, and why no way of splitting the writes and the reads changes the messages.
 */
module Framing {
  import opened HeaderImage

  const MAX_BODY: nat := 10 * 1024 * 1024

  /** A header travels as its memory image; only the length field steers the receiver. */
  type Image = s: seq<Byte> | |s| == HEADER_LEN witness seq(HEADER_LEN, _ => 0)

  function BodyLen(h: Image): nat {
    FromWhole(h[4..8])
  }

  // ---------- Streams of messages ----------

  datatype Message = Message(header: Image, body: seq<Byte>)

  /** The sender derives `bodyLen` from the data buffer. */
  predicate Framed(m: Message) {
    BodyLen(m.header) == |m.body|
  }

  /** What the receiver can take: its buffer limit, and at least one byte to read. */
  predicate Receivable(m: Message) {
    1 <= |m.body| <= MAX_BODY
  }

  ghost predicate AllReceivable(ms: seq<Message>) {
    forall m :: m in ms ==> Receivable(m)
  }

  ghost predicate AllBounded(ms: seq<Message>) {
    forall m :: m in ms ==> |m.body| <= MAX_BODY
  }

  ghost predicate AllFramed(ms: seq<Message>) {
    forall m :: m in ms ==> Framed(m)
  }

  function Frame(m: Message): seq<Byte> {
    m.header + m.body
  }

  function Encode(ms: seq<Message>): seq<Byte> {
    if ms == [] then [] else Frame(ms[0]) + Encode(ms[1..])
  }

  lemma Assoc(a: seq<Byte>, b: seq<Byte>, c: seq<Byte>)
    ensures a + b + c == a + (b + c)
  {
  }

  lemma {:induction false} EncodeAppend(a: seq<Message>, b: seq<Message>)
    ensures Encode(a + b) == Encode(a) + Encode(b)
  {
    if a == [] {
      assert a + b == b && Encode(a) + Encode(b) == Encode(b);
    } else {
      EncodeAppend(a[1..], b);
      assert (a + b)[1..] == a[1..] + b;
      Assoc(Frame(a[0]), Encode(a[1..]), Encode(b));
    }
  }

  /**
   * What a stream means to the receiver: whole frames become messages, a header that announces too much is
   * skipped without its body, and one that announces nothing stalls it.
   */
  function Decode(s: seq<Byte>): seq<Message>
    decreases |s|
  {
    if |s| < HEADER_LEN then []
    else
      var len := BodyLen(s[..HEADER_LEN]);
      if len > MAX_BODY then Decode(s[HEADER_LEN..])
      else if len == 0 || |s| < HEADER_LEN + len then []
      else [Message(s[..HEADER_LEN], s[HEADER_LEN..HEADER_LEN + len])] + Decode(s[HEADER_LEN + len..])
  }

  lemma DecodeFrame(m: Message, rest: seq<Byte>)
    requires Framed(m) && Receivable(m)
    ensures Decode(Frame(m) + rest) == [m] + Decode(rest)
  {
    var s, end := Frame(m) + rest, |Frame(m)|;
    assert s[..HEADER_LEN] == m.header && s[HEADER_LEN..end] == m.body && s[end..] == rest;
  }

  lemma DecodeSkipped(h: Image, rest: seq<Byte>)
    requires BodyLen(h) > MAX_BODY
    ensures Decode(h + rest) == Decode(rest)
  {
    assert (h + rest)[..HEADER_LEN] == h && (h + rest)[HEADER_LEN..] == rest;
  }

  lemma DecodeEmptyBody(h: Image, rest: seq<Byte>)
    requires BodyLen(h) == 0
    ensures Decode(h + rest) == []
  {
    assert (h + rest)[..HEADER_LEN] == h;
  }

  /** Messages the receiver can take survive the stream, whole and in order. */
  lemma {:induction false} DecodeEncode(ms: seq<Message>)
    requires AllFramed(ms) && AllReceivable(ms)
    ensures Decode(Encode(ms)) == ms
  {
    if ms != [] {
      DecodeFrame(ms[0], Encode(ms[1..]));
      DecodeEncode(ms[1..]);
    }
  }

  /** How many messages come before the first empty body. */
  function BeforeEmpty(ms: seq<Message>): (n: nat)
    ensures n <= |ms| && (n < |ms| ==> ms[n].body == []) && forall i :: 0 <= i < n ==> ms[i].body != []
  {
    if ms == [] || ms[0].body == [] then 0 else 1 + BeforeEmpty(ms[1..])
  }

  /** Of messages within the limit, exactly those before the first empty body survive. */
  lemma {:induction false} DecodeBounded(ms: seq<Message>)
    requires AllFramed(ms) && AllBounded(ms)
    ensures Decode(Encode(ms)) == ms[..BeforeEmpty(ms)]
  {
    if ms != [] {
      var m, rest := ms[0], ms[1..];
      assert m in ms && Framed(m);
      if m.body == [] {
        Assoc(m.header, m.body, Encode(rest));
        DecodeEmptyBody(m.header, m.body + Encode(rest));
      } else {
        DecodeFrame(m, Encode(rest));
        DecodeBounded(rest);
        assert ms[..BeforeEmpty(ms)] == [m] + rest[..BeforeEmpty(rest)];
      }
    }
  }

  // ---------- Sending ----------

  datatype Node = Node(msg: Message, headerRemain: nat, dataRemain: nat)

  function Fresh(m: Message): Node {
    Node(m, HEADER_LEN, |m.body|)
  }

  predicate NodeOk(n: Node) {
    && Framed(n.msg) && n.headerRemain <= HEADER_LEN && n.dataRemain <= |n.msg.body|
    && (n.headerRemain > 0 ==> n.dataRemain == |n.msg.body|)
    && (n.headerRemain > 0 || n.dataRemain > 0)
  }

  predicate AllOk(queue: seq<Node>) {
    forall i :: 0 <= i < |queue| ==> NodeOk(queue[i])
  }

  /** The bytes of a queued message that have not been written yet. */
  function Pending(n: Node): seq<Byte>
    requires NodeOk(n)
  {
    n.msg.header[HEADER_LEN - n.headerRemain..] + n.msg.body[|n.msg.body| - n.dataRemain..]
  }

  function PendingAll(queue: seq<Node>): seq<Byte>
    requires AllOk(queue)
  {
    if queue == [] then [] else Pending(queue[0]) + PendingAll(queue[1..])
  }

  /** The result of one write call: a positive count, or an error that may ask for a retry. */
  datatype Write = Wrote(n: nat) | WriteFailed(retry: bool)

  datatype OutOutcome = Idle | Again | Sent | LinkError

  datatype PollOut = PollOut(queue: seq<Node>, written: seq<Byte>, outcome: OutOutcome)

  predicate WriteOk(w: Write, len: nat) {
    w.Wrote? ==> 1 <= w.n <= len
  }

  /** A write call returns no more than it was asked to write. */
  predicate WritesOk(queue: seq<Node>, w1: Write, w2: Write) {
    queue != [] ==> WriteOk(w1, queue[0].headerRemain) && WriteOk(w2, queue[0].dataRemain)
  }

  function SendData(n: Node, rest: seq<Node>, w: Write): PollOut
    requires NodeOk(n) && n.headerRemain == 0 && n.dataRemain > 0 && WriteOk(w, n.dataRemain)
  {
    match w
    case WriteFailed(retry) => PollOut(rest, [], if retry then Again else LinkError)
    case Wrote(k) =>
      var bytes := n.msg.body[|n.msg.body| - n.dataRemain..][..k];
      if k < n.dataRemain then PollOut([n.(dataRemain := n.dataRemain - k)] + rest, bytes, Again)
      else PollOut(rest, bytes, Sent)
  }

  /** One round on the front message: at most one write for its header and one for its body. */
  function PollOutFrom(n: Node, rest: seq<Node>, w1: Write, w2: Write): PollOut
    requires NodeOk(n) && WriteOk(w1, n.headerRemain) && WriteOk(w2, n.dataRemain)
  {
    if n.headerRemain == 0 then SendData(n, rest, w2)
    else
      match w1
      case WriteFailed(retry) => PollOut(rest, [], if retry then Again else LinkError)
      case Wrote(k) =>
        var bytes := n.msg.header[HEADER_LEN - n.headerRemain..][..k];
        if k < n.headerRemain then PollOut([n.(headerRemain := n.headerRemain - k)] + rest, bytes, Again)
        else if n.dataRemain == 0 then PollOut(rest, bytes, Sent)
        else
          var r := SendData(n.(headerRemain := 0), rest, w2);
          r.(written := bytes + r.written)
  }

  function HandlePollOut(queue: seq<Node>, w1: Write, w2: Write): PollOut
    requires AllOk(queue)
    requires WritesOk(queue, w1, w2)
  {
    if queue == [] then PollOut([], [], Idle) else PollOutFrom(queue[0], queue[1..], w1, w2)
  }

  /** A write that the round performs and that does not return a positive count. */
  predicate LosesFront(n: Node, w1: Write, w2: Write) {
    if n.headerRemain > 0 && w1.WriteFailed? then true
    else (n.headerRemain > 0 ==> w1.n == n.headerRemain) && n.dataRemain > 0 && w2.WriteFailed?
  }

  predicate LosesMessage(queue: seq<Node>, w1: Write, w2: Write) {
    queue != [] && LosesFront(queue[0], w1, w2)
  }

  lemma DataSplit(n: Node, rest: seq<Node>, w: Write)
    requires NodeOk(n) && n.headerRemain == 0 && n.dataRemain > 0 && WriteOk(w, n.dataRemain) && AllOk(rest)
    ensures AllOk(SendData(n, rest, w).queue)
    ensures Pending(n) + PendingAll(rest) == SendData(n, rest, w).written + PendingAll(SendData(n, rest, w).queue) <==>
            w.Wrote?
  {
    var r := SendData(n, rest, w);
    if w.WriteFailed? {
      assert |Pending(n) + PendingAll(rest)| > |r.written + PendingAll(r.queue)|;
    } else if w.n < n.dataRemain {
      var n' := n.(dataRemain := n.dataRemain - w.n);
      assert r.queue[1..] == rest;
      assert Pending(n) == r.written + Pending(n');
      Assoc(r.written, Pending(n'), PendingAll(rest));
    } else {
      assert Pending(n) == r.written;
    }
  }

  lemma PendingSplit(n: Node, k: nat)
    requires NodeOk(n) && 0 < k < n.headerRemain
    ensures NodeOk(n.(headerRemain := n.headerRemain - k))
    ensures Pending(n) ==
            n.msg.header[HEADER_LEN - n.headerRemain..][..k] + Pending(n.(headerRemain := n.headerRemain - k))
  {
    var tail := n.msg.header[HEADER_LEN - n.headerRemain..];
    assert tail == tail[..k] + n.msg.header[HEADER_LEN - (n.headerRemain - k)..];
  }

  lemma PendingCons(n: Node, rest: seq<Node>)
    requires NodeOk(n) && AllOk(rest)
    ensures AllOk([n] + rest) && PendingAll([n] + rest) == Pending(n) + PendingAll(rest)
  {
    assert ([n] + rest)[1..] == rest;
  }

  lemma HeaderSplit(n: Node, rest: seq<Node>, k: nat, w: Write)
    requires NodeOk(n) && 0 < k < n.headerRemain && AllOk(rest) && WriteOk(w, n.dataRemain)
    ensures var r := PollOutFrom(n, rest, Wrote(k), w);
            AllOk(r.queue) && Pending(n) + PendingAll(rest) == r.written + PendingAll(r.queue)
  {
    var n' := n.(headerRemain := n.headerRemain - k);
    PendingSplit(n, k);
    PendingCons(n', rest);
    Assoc(n.msg.header[HEADER_LEN - n.headerRemain..][..k], Pending(n'), PendingAll(rest));
  }

  lemma HeaderThenData(n: Node, rest: seq<Node>, w: Write)
    requires NodeOk(n) && n.headerRemain > 0 && n.dataRemain > 0 && w.Wrote? && WriteOk(w, n.dataRemain) && AllOk(rest)
    ensures var d := SendData(n.(headerRemain := 0), rest, w);
            && AllOk(d.queue)
            && Pending(n) + PendingAll(rest) ==
               n.msg.header[HEADER_LEN - n.headerRemain..] + d.written + PendingAll(d.queue)
  {
    var n0 := n.(headerRemain := 0);
    var d := SendData(n0, rest, w);
    var tail := n.msg.header[HEADER_LEN - n.headerRemain..];
    DataSplit(n0, rest, w);
    assert Pending(n) == tail + Pending(n0);
    Assoc(tail, Pending(n0), PendingAll(rest));
    Assoc(tail, d.written, PendingAll(d.queue));
  }

  lemma FrontKeepsBytes(n: Node, rest: seq<Node>, w1: Write, w2: Write)
    requires NodeOk(n) && AllOk(rest) && WriteOk(w1, n.headerRemain) && WriteOk(w2, n.dataRemain)
    requires !LosesFront(n, w1, w2)
    ensures AllOk(PollOutFrom(n, rest, w1, w2).queue)
    ensures Pending(n) + PendingAll(rest) ==
            PollOutFrom(n, rest, w1, w2).written + PendingAll(PollOutFrom(n, rest, w1, w2).queue)
  {
    if n.headerRemain == 0 {
      DataSplit(n, rest, w2);
    } else if w1.n < n.headerRemain {
      HeaderSplit(n, rest, w1.n, w2);
    } else {
      WholeHeader(n, rest, w2);
    }
  }

  lemma WholeHeader(n: Node, rest: seq<Node>, w: Write)
    requires NodeOk(n) && AllOk(rest) && n.headerRemain > 0 && WriteOk(w, n.dataRemain)
    requires n.dataRemain > 0 ==> w.Wrote?
    ensures var r := PollOutFrom(n, rest, Wrote(n.headerRemain), w);
            AllOk(r.queue) && Pending(n) + PendingAll(rest) == r.written + PendingAll(r.queue)
  {
    var tail := n.msg.header[HEADER_LEN - n.headerRemain..];
    assert tail[..n.headerRemain] == tail;
    if n.dataRemain == 0 {
      assert Pending(n) == tail;
    } else {
      HeaderThenData(n, rest, w);
    }
  }

  /** A round whose writes all return a positive count keeps every unsent byte, in order. */
  lemma PollOutKeepsBytes(queue: seq<Node>, w1: Write, w2: Write)
    requires AllOk(queue) && WritesOk(queue, w1, w2) && !LosesMessage(queue, w1, w2)
    ensures AllOk(HandlePollOut(queue, w1, w2).queue)
    ensures PendingAll(queue) ==
            HandlePollOut(queue, w1, w2).written + PendingAll(HandlePollOut(queue, w1, w2).queue)
  {
    if queue != [] {
      FrontKeepsBytes(queue[0], queue[1..], w1, w2);
    }
  }

  /** The round keeps every unsent byte exactly when no write it performs fails. */
  lemma PollOutConserves(queue: seq<Node>, w1: Write, w2: Write)
    requires AllOk(queue) && WritesOk(queue, w1, w2)
    ensures AllOk(HandlePollOut(queue, w1, w2).queue)
    ensures PendingAll(queue) ==
            HandlePollOut(queue, w1, w2).written + PendingAll(HandlePollOut(queue, w1, w2).queue) <==>
            !LosesMessage(queue, w1, w2)
  {
    if LosesMessage(queue, w1, w2) {
      var r := HandlePollOut(queue, w1, w2);
      assert r.queue == queue[1..] && |r.written| < |Pending(queue[0])|;
      assert |PendingAll(queue)| == |Pending(queue[0])| + |PendingAll(queue[1..])|;
    } else {
      PollOutKeepsBytes(queue, w1, w2);
    }
  }

  /** How many bytes the writes that a round performs report. */
  function Counted(n: Node, w1: Write, w2: Write): nat {
    (if n.headerRemain > 0 && w1.Wrote? then w1.n else 0) +
    if (n.headerRemain == 0 || w1 == Wrote(n.headerRemain)) && n.dataRemain > 0 && w2.Wrote? then w2.n else 0
  }

  /** The write that ends a round that loses its message. */
  function FailedWrite(n: Node, w1: Write, w2: Write): (w: Write)
    requires LosesFront(n, w1, w2)
    ensures w.WriteFailed?
  {
    if n.headerRemain > 0 && w1.WriteFailed? then w1 else w2
  }

  /**
   * What a round answers, told by its writes and by the bytes that were pending. It takes as many of them as the
   * writes count. With all of them out the message is sent; with a failed write it is gone and the failure says
   * whether to go on; otherwise it stays first in the queue.
   */
  lemma PollOutAnswers(queue: seq<Node>, w1: Write, w2: Write)
    requires AllOk(queue) && WritesOk(queue, w1, w2)
    ensures var r := HandlePollOut(queue, w1, w2);
            if queue == [] then r == PollOut([], [], Idle)
            else
              var n := queue[0];
              && |r.written| == Counted(n, w1, w2) && r.written <= Pending(n)
              && (r.outcome == Sent <==> r.written == Pending(n))
              && (r.queue == queue[1..] <==> r.outcome == Sent || LosesFront(n, w1, w2))
              && (LosesFront(n, w1, w2) ==> r.outcome == if FailedWrite(n, w1, w2).retry then Again else LinkError)
              && (r.outcome != Sent && !LosesFront(n, w1, w2) ==>
                    r.outcome == Again && |r.queue| == |queue| && r.queue[1..] == queue[1..])
  {
    if queue != [] {
      FrontAnswers(queue[0], queue[1..], w1, w2);
    }
  }

  lemma FrontAnswers(n: Node, rest: seq<Node>, w1: Write, w2: Write)
    requires NodeOk(n) && WriteOk(w1, n.headerRemain) && WriteOk(w2, n.dataRemain)
    ensures var r := PollOutFrom(n, rest, w1, w2);
            && |r.written| == Counted(n, w1, w2) && r.written <= Pending(n)
            && (r.outcome == Sent <==> r.written == Pending(n))
            && (r.queue == rest <==> r.outcome == Sent || LosesFront(n, w1, w2))
            && (LosesFront(n, w1, w2) ==> r.outcome == if FailedWrite(n, w1, w2).retry then Again else LinkError)
            && (r.outcome != Sent && !LosesFront(n, w1, w2) ==>
                  r.outcome == Again && |r.queue| == |rest| + 1 && r.queue[1..] == rest)
  {
    var r := PollOutFrom(n, rest, w1, w2);
    assert |Pending(n)| == n.headerRemain + n.dataRemain;
    assert r.queue != rest ==> |r.queue| == |rest| + 1 && r.queue[1..] == rest;
  }

  // ---------- Receiving ----------

  /** Between messages or inside a header, or past a header and collecting its body. */
  datatype Rx = InHeader(got: seq<Byte>) | InBody(header: Image, got: seq<Byte>)

  predicate RxOk(rx: Rx) {
    match rx
    case InHeader(got) => |got| < HEADER_LEN
    case InBody(h, got) => BodyLen(h) <= MAX_BODY && (|got| < BodyLen(h) || got == [])
  }

  function RxBytes(rx: Rx): seq<Byte> {
    match rx
    case InHeader(got) => got
    case InBody(h, got) => h + got
  }

  /** The result of one receive call: a positive count, nothing yet, or an error that ends the link. */
  datatype Recv = Got(n: nat) | NoData | Broken

  datatype InOutcome = More | Ready(msg: Message) | TooLarge(header: Image) | LinkBroken

  datatype PollIn = PollIn(rx: Rx, used: nat, outcome: InOutcome)

  /** A receive call returns no more than it was asked for and no more than has arrived. */
  predicate RecvOk(r: Recv, len: nat, avail: seq<Byte>) {
    r.Got? ==> 1 <= r.n <= len && r.n <= |avail|
  }

  /** The two receive calls of one round, the second made only once the header is complete. */
  predicate RecvsOk(rx: Rx, avail: seq<Byte>, r1: Recv, r2: Recv)
    requires RxOk(rx)
  {
    match rx
    case InBody(h, got) => RecvOk(r2, BodyLen(h) - |got|, avail)
    case InHeader(got) =>
      && RecvOk(r1, HEADER_LEN - |got|, avail)
      && (r1 == Got(HEADER_LEN - |got|) ==> RecvOk(r2, BodyLen(got + avail[..r1.n]), avail[r1.n..]))
  }

  function ReceiveBody(h: Image, got: seq<Byte>, avail: seq<Byte>, r: Recv): (p: PollIn)
    requires RxOk(InBody(h, got)) && RecvOk(r, BodyLen(h) - |got|, avail)
    ensures p.used <= |avail|
  {
    match r
    case NoData => PollIn(InBody(h, got), 0, More)
    case Broken => PollIn(InBody(h, got), 0, LinkBroken)
    case Got(n) =>
      var got' := got + avail[..n];
      if |got'| == BodyLen(h) then PollIn(InHeader([]), n, Ready(Message(h, got')))
      else PollIn(InBody(h, got'), n, More)
  }

  /** One round of receiving; `avail` is what has arrived and has not been read. */
  function HandlePollIn(rx: Rx, avail: seq<Byte>, r1: Recv, r2: Recv): (p: PollIn)
    requires RxOk(rx) && RecvsOk(rx, avail, r1, r2)
    ensures p.used <= |avail|
  {
    match rx
    case InBody(h, got) => ReceiveBody(h, got, avail, r2)
    case InHeader(got) =>
      match r1
      case NoData => PollIn(rx, 0, More)
      case Broken => PollIn(rx, 0, LinkBroken)
      case Got(n) =>
        var got' := got + avail[..n];
        if |got'| < HEADER_LEN then PollIn(InHeader(got'), n, More)
        else if BodyLen(got') > MAX_BODY then PollIn(InHeader([]), n, TooLarge(got'))
        else
          var b := ReceiveBody(got', [], avail[n..], r2);
          b.(used := n + b.used)
  }

  /** The round is at a body: in one already, or at the end of a header that announces one within the limit. */
  predicate BodyTurn(rx: Rx, avail: seq<Byte>, r1: Recv)
    requires RxOk(rx) && (rx.InHeader? ==> RecvOk(r1, HEADER_LEN - |rx.got|, avail))
  {
    rx.InBody? || (r1 == Got(HEADER_LEN - |rx.got|) && BodyLen(rx.got + avail[..r1.n]) <= MAX_BODY)
  }

  /**
   * What a round answers, told by its receive calls. It reads as many bytes as they count. The link is broken exactly
   * when the call that decides the round says so; a message is ready exactly when the last byte of its body is in;
   * a header is skipped exactly when it is complete and announces too much.
   */
  lemma PollInAnswers(rx: Rx, avail: seq<Byte>, r1: Recv, r2: Recv)
    requires RxOk(rx) && RecvsOk(rx, avail, r1, r2)
    ensures var p, turn := HandlePollIn(rx, avail, r1, r2), BodyTurn(rx, avail, r1);
            && p.used == (if rx.InHeader? && r1.Got? then r1.n else 0) + (if turn && r2.Got? then r2.n else 0)
            && (p.outcome == LinkBroken <==> if turn then r2 == Broken else r1 == Broken)
            && (p.outcome.TooLarge? <==> rx.InHeader? && r1 == Got(HEADER_LEN - |rx.got|) && !turn)
            && (p.outcome.Ready? <==> turn && r2 == Got(if rx.InBody? then BodyLen(rx.header) - |rx.got|
                                                        else BodyLen(rx.got + avail[..r1.n])))
  {
  }

  /** What a round takes off the stream for good: a message, or a header whose body it will not read. */
  datatype Piece = Whole(msg: Message) | Skipped(header: Image)

  function Finished(o: InOutcome): seq<Piece> {
    match o
    case Ready(m) => [Whole(m)]
    case TooLarge(h) => [Skipped(h)]
    case _ => []
  }

  /** The bytes of what a round finished. */
  function Off(o: InOutcome): seq<Byte> {
    match o
    case Ready(m) => Frame(m)
    case TooLarge(h) => h
    case _ => []
  }

  predicate PieceOk(p: Piece) {
    match p
    case Whole(m) => Framed(m) && Receivable(m)
    case Skipped(h) => BodyLen(h) > MAX_BODY
  }

  predicate AllPiecesOk(ps: seq<Piece>) {
    forall i :: 0 <= i < |ps| ==> PieceOk(ps[i])
  }

  function PieceBytes(p: Piece): seq<Byte> {
    match p
    case Whole(m) => Frame(m)
    case Skipped(h) => h
  }

  function Bytes(ps: seq<Piece>): seq<Byte> {
    if ps == [] then [] else Bytes(ps[..|ps| - 1]) + PieceBytes(ps[|ps| - 1])
  }

  /** The messages among the pieces. */
  function Messages(ps: seq<Piece>): seq<Message> {
    if ps == [] then []
    else Messages(ps[..|ps| - 1]) + if ps[|ps| - 1].Whole? then [ps[|ps| - 1].msg] else []
  }

  lemma OnePiece(ps: seq<Piece>, p: Piece)
    ensures Bytes(ps + [p]) == Bytes(ps) + PieceBytes(p)
    ensures Messages(ps + [p]) == Messages(ps) + if p.Whole? then [p.msg] else []
  {
    assert (ps + [p])[..|ps|] == ps;
  }

  /** Behind the pieces taken so far, the stream means what its remainder means. */
  lemma {:induction false} DecodePieces(ps: seq<Piece>, rest: seq<Byte>)
    requires AllPiecesOk(ps)
    ensures Decode(Bytes(ps) + rest) == Messages(ps) + Decode(rest)
    decreases |ps|
  {
    if ps == [] {
      assert Bytes(ps) + rest == rest;
    } else {
      var front, last := ps[..|ps| - 1], ps[|ps| - 1];
      Assoc(Bytes(front), PieceBytes(last), rest);
      DecodePieces(front, PieceBytes(last) + rest);
      DecodePiece(last, rest);
    }
  }

  lemma DecodePiece(p: Piece, rest: seq<Byte>)
    requires PieceOk(p)
    ensures Decode(PieceBytes(p) + rest) == (if p.Whole? then [p.msg] else []) + Decode(rest)
  {
    if p.Whole? {
      DecodeFrame(p.msg, rest);
    } else {
      DecodeSkipped(p.header, rest);
    }
  }

  /** What is half received is not a message yet, nor the start of one that could be skipped. */
  lemma DecodeHeld(rx: Rx)
    requires RxOk(rx)
    ensures Decode(RxBytes(rx)) == []
  {
    if rx.InBody? {
      assert RxBytes(rx)[..HEADER_LEN] == rx.header;
    }
  }

  lemma ReceiveBodyKeepsBytes(h: Image, got: seq<Byte>, avail: seq<Byte>, r: Recv)
    requires RxOk(InBody(h, got)) && RecvOk(r, BodyLen(h) - |got|, avail)
    ensures var p := ReceiveBody(h, got, avail, r);
            && RxOk(p.rx) && AllPiecesOk(Finished(p.outcome))
            && h + got + avail == Off(p.outcome) + RxBytes(p.rx) + avail[p.used..]
  {
    var p := ReceiveBody(h, got, avail, r);
    if r.Got? {
      assert avail == avail[..r.n] + avail[r.n..];
      var got' := got + avail[..r.n];
      assert h + got + avail == h + got' + avail[r.n..];
      assert Off(p.outcome) + RxBytes(p.rx) == h + got';
    } else {
      assert Off(p.outcome) + RxBytes(p.rx) == h + got;
    }
  }

  /** A round moves bytes, in order, from the stream to the receiver and on into a finished piece; none is lost. */
  lemma PollInKeepsBytes(rx: Rx, avail: seq<Byte>, r1: Recv, r2: Recv)
    requires RxOk(rx) && RecvsOk(rx, avail, r1, r2)
    ensures var p := HandlePollIn(rx, avail, r1, r2);
            && RxOk(p.rx) && AllPiecesOk(Finished(p.outcome))
            && RxBytes(rx) + avail == Off(p.outcome) + RxBytes(p.rx) + avail[p.used..]
  {
    var p := HandlePollIn(rx, avail, r1, r2);
    match rx
    case InBody(h, got) =>
      ReceiveBodyKeepsBytes(h, got, avail, r2);
    case InHeader(got) =>
      if r1.Got? {
        HeaderKeepsBytes(got, avail, r1.n, r2);
      } else {
        assert Off(p.outcome) + RxBytes(p.rx) == got;
      }
  }

  lemma HeaderKeepsBytes(got: seq<Byte>, avail: seq<Byte>, n: nat, r: Recv)
    requires RxOk(InHeader(got)) && RecvsOk(InHeader(got), avail, Got(n), r)
    ensures var p := HandlePollIn(InHeader(got), avail, Got(n), r);
            && RxOk(p.rx) && AllPiecesOk(Finished(p.outcome))
            && got + avail == Off(p.outcome) + RxBytes(p.rx) + avail[p.used..]
  {
    var p := HandlePollIn(InHeader(got), avail, Got(n), r);
    var got' := got + avail[..n];
    assert got + avail == got' + avail[n..];
    if |got'| == HEADER_LEN && BodyLen(got') <= MAX_BODY {
      ReceiveBodyKeepsBytes(got', [], avail[n..], r);
      assert got' + [] == got';
      assert avail[n..][p.used - n..] == avail[p.used..];
    } else {
      assert Off(p.outcome) + RxBytes(p.rx) == got';
    }
  }

  // ---------- A connection end to end ----------

  /**
   * `accepted` lists every message the send queue took; `taken` what the receiver has finished with. The messages
   * among it have been handed to the upper layer. Bytes travel from `queue` over `wire` into `rx`, while the link is
   * `up`.
   */
  datatype Net = Net(accepted: seq<Message>, queue: seq<Node>, wire: seq<Byte>, rx: Rx, taken: seq<Piece>,
                     up: bool) {
    function Ready(): seq<Message> {
      Messages(taken)
    }
  }

  datatype Action = Enqueue(msg: Message) | Send(w1: Write, w2: Write) | Receive(r1: Recv, r2: Recv)

  const Idle0: Net := Net([], [], [], InHeader([]), [], true)

  ghost predicate Sane(s: Net) {
    AllOk(s.queue) && RxOk(s.rx)
  }

  /** Writes return positive counts; receives return what the stream allows; a broken link does nothing more. */
  ghost predicate Enabled(s: Net, a: Action) {
    && Sane(s) && s.up
    && match a
       case Enqueue(m) => Framed(m)
       case Send(w1, w2) => WritesOk(s.queue, w1, w2) && !LosesMessage(s.queue, w1, w2)
       case Receive(r1, r2) => RecvsOk(s.rx, s.wire, r1, r2)
  }

  ghost function Act(s: Net, a: Action, cap: nat): Net
    requires Enabled(s, a)
  {
    match a
    case Enqueue(m) =>
      if |s.queue| >= cap then s else s.(accepted := s.accepted + [m], queue := s.queue + [Fresh(m)])
    case Send(w1, w2) =>
      var r := HandlePollOut(s.queue, w1, w2);
      s.(queue := r.queue, wire := s.wire + r.written)
    case Receive(r1, r2) =>
      var p := HandlePollIn(s.rx, s.wire, r1, r2);
      s.(rx := p.rx, wire := s.wire[p.used..], taken := s.taken + Finished(p.outcome), up := p.outcome != LinkBroken)
  }

  /** Every state a connection can reach until a read breaks it, by any number of rounds and any split of the stream. */
  ghost predicate Reaches(s: Net, actions: seq<Action>, cap: nat, t: Net)
    decreases |actions|
  {
    if actions == [] then s == t
    else Enabled(s, actions[0]) && Reaches(Act(s, actions[0], cap), actions[1..], cap, t)
  }

  /** Accepted bytes are, in order: finished with, partly received, on the wire, or still queued. */
  ghost predicate Conserved(s: Net)
    requires Sane(s)
  {
    Encode(s.accepted) == Bytes(s.taken) + Ahead(s)
  }

  ghost function Ahead(s: Net): seq<Byte>
    requires Sane(s)
  {
    RxBytes(s.rx) + s.wire + PendingAll(s.queue)
  }

  ghost predicate Inv(s: Net) {
    Sane(s) && AllFramed(s.accepted) && AllPiecesOk(s.taken) && Conserved(s)
  }

  lemma {:induction false} PendingAppend(queue: seq<Node>, n: Node)
    requires AllOk(queue) && NodeOk(n)
    ensures PendingAll(queue + [n]) == PendingAll(queue) + Pending(n)
  {
    if queue == [] {
      assert queue + [n] == [n] && PendingAll([n]) == Pending(n) + PendingAll([]);
    } else {
      PendingAppend(queue[1..], n);
      assert (queue + [n])[1..] == queue[1..] + [n];
      Assoc(Pending(queue[0]), PendingAll(queue[1..]), Pending(n));
    }
  }

  lemma EnqueueKeepsInv(s: Net, m: Message)
    requires Inv(s) && Framed(m)
    ensures Inv(s.(accepted := s.accepted + [m], queue := s.queue + [Fresh(m)]))
  {
    var t := s.(accepted := s.accepted + [m], queue := s.queue + [Fresh(m)]);
    assert Sane(t) && AllFramed(t.accepted);
    EncodeAppend(s.accepted, [m]);
    assert Encode([m]) == Frame(m) + Encode([]) == Frame(m) == Pending(Fresh(m));
    PendingAppend(s.queue, Fresh(m));
    Assoc(RxBytes(s.rx) + s.wire, PendingAll(s.queue), Frame(m));
    Assoc(Bytes(s.taken), Ahead(s), Frame(m));
  }

  lemma SendKeepsInv(s: Net, w1: Write, w2: Write)
    requires Inv(s) && WritesOk(s.queue, w1, w2) && !LosesMessage(s.queue, w1, w2)
    ensures var r := HandlePollOut(s.queue, w1, w2); Inv(s.(queue := r.queue, wire := s.wire + r.written))
  {
    var r := HandlePollOut(s.queue, w1, w2);
    PollOutKeepsBytes(s.queue, w1, w2);
    Assoc(RxBytes(s.rx), s.wire, r.written);
    Assoc(RxBytes(s.rx) + s.wire, r.written, PendingAll(r.queue));
  }

  lemma ReceiveKeepsInv(s: Net, r1: Recv, r2: Recv)
    requires Inv(s) && RecvsOk(s.rx, s.wire, r1, r2)
    ensures var p := HandlePollIn(s.rx, s.wire, r1, r2);
            Inv(s.(rx := p.rx, wire := s.wire[p.used..], taken := s.taken + Finished(p.outcome),
                   up := p.outcome != LinkBroken))
  {
    var p := HandlePollIn(s.rx, s.wire, r1, r2);
    PollInKeepsBytes(s.rx, s.wire, r1, r2);
    var d, rx, left, q := Off(p.outcome), RxBytes(p.rx), s.wire[p.used..], PendingAll(s.queue);
    MorePieces(s.taken, p.outcome);
    Assoc(d, rx, left);
    Assoc(d, rx + left, q);
    Assoc(Bytes(s.taken), d, rx + left + q);
  }

  lemma MorePieces(ps: seq<Piece>, o: InOutcome)
    ensures Bytes(ps + Finished(o)) == Bytes(ps) + Off(o)
  {
    match o
    case Ready(m) => OnePiece(ps, Whole(m));
    case TooLarge(h) => OnePiece(ps, Skipped(h));
    case _ => assert ps + Finished(o) == ps && Bytes(ps) + Off(o) == Bytes(ps);
  }

  lemma {:induction false} ReachedInv(s: Net, actions: seq<Action>, cap: nat, t: Net)
    requires Inv(s) && Reaches(s, actions, cap, t)
    ensures Inv(t)
    decreases |actions|
  {
    if actions != [] {
      match actions[0] {
        case Enqueue(m) => EnqueueKeepsInv(s, m);
        case Send(w1, w2) => SendKeepsInv(s, w1, w2);
        case Receive(r1, r2) => ReceiveKeepsInv(s, r1, r2);
      }
      ReachedInv(Act(s, actions[0], cap), actions[1..], cap, t);
    }
  }

  /** The receiver waits for the rest of a body of which there is none: it never reads on. */
  predicate Stalled(rx: Rx) {
    rx.InBody? && BodyLen(rx.header) == 0
  }

  /** Nothing is left to send or to read. */
  predicate Over(s: Net) {
    s.queue == [] && (s.wire == [] || Stalled(s.rx))
  }

  /**
   * In every state of every run, whatever was sent and however it was split, what has been handed up is a prefix
   * of what the accepted bytes decode to, and all of it once nothing is left to read.
   */
  lemma ReadyIsDecoded(actions: seq<Action>, cap: nat, t: Net)
    requires Reaches(Idle0, actions, cap, t)
    ensures t.Ready() <= Decode(Encode(t.accepted))
    ensures Over(t) ==> t.Ready() == Decode(Encode(t.accepted))
  {
    ReachedInv(Idle0, actions, cap, t);
    DecodePieces(t.taken, Ahead(t));
    if Over(t) {
      AheadIsHeld(t);
    }
  }

  lemma AheadIsHeld(t: Net)
    requires Sane(t) && Over(t)
    ensures Decode(Ahead(t)) == []
  {
    if t.wire == [] {
      assert Ahead(t) == RxBytes(t.rx);
      DecodeHeld(t.rx);
    } else {
      assert t.rx.got == [] && Ahead(t) == t.rx.header + t.wire;
      DecodeEmptyBody(t.rx.header, t.wire);
    }
  }

  /**
   * In every state of every run over messages within the buffer limit, what has been handed up is a
   * prefix, byte for byte, of what was accepted.
   */
  lemma ReadyIsPrefix(actions: seq<Action>, cap: nat, t: Net)
    requires Reaches(Idle0, actions, cap, t) && AllBounded(t.accepted)
    ensures t.Ready() <= t.accepted
  {
    ReachedInv(Idle0, actions, cap, t);
    ReadyIsDecoded(actions, cap, t);
    DecodeBounded(t.accepted);
  }

  /** Once every accepted byte has crossed, all messages are ready exactly when all were receivable. */
  lemma AllCrossedAllReady(actions: seq<Action>, cap: nat, t: Net)
    requires Reaches(Idle0, actions, cap, t) && t.queue == [] && t.wire == []
    ensures t.Ready() == t.accepted <==> AllReceivable(t.accepted)
  {
    ReachedInv(Idle0, actions, cap, t);
    ReadyIsDecoded(actions, cap, t);
    if AllReceivable(t.accepted) {
      DecodeEncode(t.accepted);
    }
    OnlyReceivable(t.taken);
  }

  lemma {:induction false} OnlyReceivable(ps: seq<Piece>)
    requires AllPiecesOk(ps)
    ensures AllReceivable(Messages(ps))
    decreases |ps|
  {
    if ps != [] {
      OnlyReceivable(ps[..|ps| - 1]);
      assert PieceOk(ps[|ps| - 1]);
    }
  }

  // ---------- Every list of messages can be sent to the end ----------

  lemma StepThen(s: Net, a: Action, rest: seq<Action>, cap: nat, t: Net)
    requires Enabled(s, a) && Reaches(Act(s, a, cap), rest, cap, t)
    ensures Reaches(s, [a] + rest, cap, t)
  {
    assert ([a] + rest)[1..] == rest && ([a] + rest)[0] == a;
  }

  /** The state after messages have been sent and none of their bytes read. */
  ghost function Sent0(ms: seq<Message>): Net {
    Net(ms, [], Encode(ms), InHeader([]), [], true)
  }

  /** One write for the header and one for the body, as long as they are. */
  function WholeWrite(m: Message): Action {
    Send(Wrote(HEADER_LEN), if m.body == [] then WriteFailed(false) else Wrote(|m.body|))
  }

  lemma SentAtOnce(m: Message, w: Write)
    requires Framed(m) && w == WholeWrite(m).w2
    ensures AllOk([Fresh(m)]) && WritesOk([Fresh(m)], Wrote(HEADER_LEN), w)
    ensures HandlePollOut([Fresh(m)], Wrote(HEADER_LEN), w) == PollOut([], Frame(m), OutOutcome.Sent)
    ensures !LosesMessage([Fresh(m)], Wrote(HEADER_LEN), w)
  {
    assert m.header[0..][..HEADER_LEN] == m.header && m.body[0..][..|m.body|] == m.body;
    assert m.body == [] ==> m.header + m.body == m.header;
  }

  lemma SendOne(ms: seq<Message>, m: Message, cap: nat)
    requires Framed(m) && cap > 0
    ensures var s := Sent0(ms).(accepted := ms + [m], queue := [Fresh(m)]);
            && Enabled(Sent0(ms), Enqueue(m)) && Act(Sent0(ms), Enqueue(m), cap) == s
            && Enabled(s, WholeWrite(m)) && Act(s, WholeWrite(m), cap) == Sent0(ms + [m])
  {
    SentAtOnce(m, WholeWrite(m).w2);
    EncodeAppend(ms, [m]);
    assert Encode([m]) == Frame(m) + Encode([]) == Frame(m);
  }

  /** The receive round that takes as much as it can from the start of a message on. */
  function Greedy(s: seq<Byte>): Action {
    if |s| < HEADER_LEN then Receive(Got(|s|), NoData)
    else
      var len := BodyLen(s[..HEADER_LEN]);
      if len > MAX_BODY || len == 0 || |s| == HEADER_LEN then Receive(Got(HEADER_LEN), NoData)
      else if |s| < HEADER_LEN + len then Receive(Got(HEADER_LEN), Got(|s| - HEADER_LEN))
      else Receive(Got(HEADER_LEN), Got(len))
  }

  /** Such a round is possible, and ends the run, or takes a piece off the stream and stands between messages again. */
  lemma GreedyRound(s: seq<Byte>)
    requires s != []
    ensures var a := Greedy(s);
            && RecvsOk(InHeader([]), s, a.r1, a.r2)
            && var p := HandlePollIn(InHeader([]), s, a.r1, a.r2);
               p.used > 0 && (s[p.used..] == [] || Stalled(p.rx) || p.rx == InHeader([]))
  {
    var n := if |s| < HEADER_LEN then |s| else HEADER_LEN;
    assert [] + s[..n] == s[..n];
    var len := if n == HEADER_LEN then BodyLen(s[..n]) else 0;
    assert 0 < len <= |s| - n ==> |[] + s[n..][..len]| == len;
  }

  lemma {:induction false} ReadAll(s: Net, cap: nat) returns (actions: seq<Action>, t: Net)
    requires Sane(s) && s.up && s.queue == [] && s.rx == InHeader([])
    ensures Reaches(s, actions, cap, t) && Over(t) && t.accepted == s.accepted
    decreases |s.wire|
  {
    if s.wire == [] {
      actions, t := [], s;
    } else {
      var a := Greedy(s.wire);
      GreedyRound(s.wire);
      PollInKeepsBytes(s.rx, s.wire, a.r1, a.r2);
      PollInAnswers(s.rx, s.wire, a.r1, a.r2);
      var m, rest := Act(s, a, cap), [];
      if Over(m) {
        t := m;
      } else {
        rest, t := ReadAll(m, cap);
      }
      StepThen(s, a, rest, cap, t);
      actions := [a] + rest;
    }
  }

  /** With the first `k` messages sent, the others can follow, and then everything can be read. */
  lemma {:induction false} Finish(ms: seq<Message>, k: nat, cap: nat) returns (actions: seq<Action>, t: Net)
    requires AllFramed(ms) && cap > 0 && k <= |ms|
    ensures Reaches(Sent0(ms[..k]), actions, cap, t) && Over(t) && t.accepted == ms
    decreases |ms| - k
  {
    if k == |ms| {
      assert ms[..k] == ms;
      actions, t := ReadAll(Sent0(ms), cap);
    } else {
      var m, rest := ms[k], [];
      assert ms[..k] + [m] == ms[..k + 1] && m in ms;
      SendOne(ms[..k], m, cap);
      rest, t := Finish(ms, k + 1, cap);
      var s := Sent0(ms[..k]).(accepted := ms[..k] + [m], queue := [Fresh(m)]);
      StepThen(s, WholeWrite(m), rest, cap, t);
      StepThen(Sent0(ms[..k]), Enqueue(m), [WholeWrite(m)] + rest, cap, t);
      actions := [Enqueue(m)] + ([WholeWrite(m)] + rest);
    }
  }

  /** Every list of messages has a run that ends, and hands up exactly what their bytes decode to. */
  lemma SomeRunEnds(ms: seq<Message>, cap: nat) returns (actions: seq<Action>, t: Net)
    requires AllFramed(ms) && cap > 0
    ensures Reaches(Idle0, actions, cap, t) && t.accepted == ms && t.Ready() == Decode(Encode(ms))
  {
    assert ms[..0] == [] && Encode([]) == [];
    actions, t := Finish(ms, 0, cap);
    ReadyIsDecoded(actions, cap, t);
  }

  /** No run over these messages ever hands up anything but a prefix of them. */
  ghost predicate PrefixLaw(ms: seq<Message>, cap: nat) {
    forall actions, t :: Reaches(Idle0, actions, cap, t) && t.accepted == ms ==> t.Ready() <= ms
  }

  /** Messages before the first body over the limit. */
  function BeforeOver(ms: seq<Message>): (n: nat)
    ensures n <= |ms| && (forall i :: 0 <= i < n ==> |ms[i].body| <= MAX_BODY)
    ensures n < |ms| ==> |ms[n].body| > MAX_BODY
  {
    if ms == [] || |ms[0].body| > MAX_BODY then 0 else 1 + BeforeOver(ms[1..])
  }

  /**
   * No body is over the limit, or an empty body stops the receiver before it comes to one, or what follows the first
   * such header happens to hold no message.
   */
  predicate Tame(ms: seq<Message>) {
    var k := BeforeOver(ms);
    k == |ms| || BeforeEmpty(ms) < k || Decode(ms[k].body + Encode(ms[k + 1..])) == []
  }

  lemma {:induction false} DecodedReceivable(s: seq<Byte>)
    ensures AllReceivable(Decode(s))
    decreases |s|
  {
    if |s| >= HEADER_LEN {
      var len := BodyLen(s[..HEADER_LEN]);
      if len > MAX_BODY {
        DecodedReceivable(s[HEADER_LEN..]);
      } else if len > 0 && |s| >= HEADER_LEN + len {
        DecodedReceivable(s[HEADER_LEN + len..]);
      }
    }
  }

  lemma {:induction false} DecodesPrefixIff(ms: seq<Message>)
    requires AllFramed(ms)
    ensures Decode(Encode(ms)) <= ms <==> Tame(ms)
  {
    if ms != [] {
      var m, rest := ms[0], Encode(ms[1..]);
      assert m in ms && Framed(m);
      if |m.body| > MAX_BODY {
        Assoc(m.header, m.body, rest);
        DecodeSkipped(m.header, m.body + rest);
        DecodedReceivable(m.body + rest);
        assert forall i :: 0 <= i < |Decode(m.body + rest)| ==> Receivable(Decode(m.body + rest)[i]);
      } else if m.body == [] {
        assert Frame(m) + rest == m.header + rest;
        DecodeEmptyBody(m.header, rest);
      } else {
        DecodeFrame(m, rest);
        DecodesPrefixIff(ms[1..]);
        OneMore(m, Decode(rest), ms);
        var k := BeforeOver(ms[1..]);
        assert k < |ms[1..]| ==> ms[1..][k + 1..] == ms[k + 2..];
      }
    }
  }

  lemma OneMore(m: Message, a: seq<Message>, ms: seq<Message>)
    requires ms != [] && ms[0] == m
    ensures [m] + a <= ms <==> a <= ms[1..]
  {
    if [m] + a <= ms {
      assert forall i :: 0 <= i < |a| ==> a[i] == ([m] + a)[i + 1];
    }
  }

  /** The prefix law holds for exactly the lists of messages that are tame. */
  lemma PrefixLawIff(ms: seq<Message>, cap: nat)
    requires AllFramed(ms) && cap > 0
    ensures PrefixLaw(ms, cap) <==> Tame(ms)
  {
    DecodesPrefixIff(ms);
    if PrefixLaw(ms, cap) {
      var actions, t := SomeRunEnds(ms, cap);
    }
    if Decode(Encode(ms)) <= ms {
      forall actions, t | Reaches(Idle0, actions, cap, t) && t.accepted == ms ensures t.Ready() <= ms {
        ReadyIsDecoded(actions, cap, t);
      }
    }
  }

  /**
   * A body over the limit is not skipped: its bytes are read as headers. When it starts with a frame of
   * its own, that frame is handed up although nobody sent it.
   */
  lemma OversizeBodyDesynchronises(big: Message, inner: Message, rest: seq<Message>, cap: nat)
    returns (actions: seq<Action>, t: Net)
    requires Framed(big) && |big.body| > MAX_BODY && AllFramed(rest) && cap > 0
    requires Framed(inner) && Receivable(inner) && Frame(inner) <= big.body
    ensures Reaches(Idle0, actions, cap, t) && t.accepted == [big] + rest
    ensures [inner] <= t.Ready() && !(t.Ready() <= t.accepted) && !PrefixLaw([big] + rest, cap)
  {
    var ms := [big] + rest;
    assert forall m :: m in ms ==> m == big || m in rest;
    actions, t := SomeRunEnds(ms, cap);
    assert ms[1..] == rest && Encode(ms) == Frame(big) + Encode(rest);
    InnerFirst(big, inner, Encode(rest));
    assert t.Ready()[0] == inner && ms[0] == big && inner != big;
  }

  lemma InnerFirst(big: Message, inner: Message, more: seq<Byte>)
    requires Framed(big) && |big.body| > MAX_BODY
    requires Framed(inner) && Receivable(inner) && Frame(inner) <= big.body
    ensures [inner] <= Decode(Frame(big) + more)
  {
    Assoc(big.header, big.body, more);
    DecodeSkipped(big.header, big.body + more);
    var tail := (big.body + more)[|Frame(inner)|..];
    assert big.body + more == Frame(inner) + tail;
    DecodeFrame(inner, tail);
  }
}
