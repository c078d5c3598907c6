/** The receiving side of a connection, in place: remaining counters, the header image and a growing buffer. */
module Receiver {
  import opened HeaderImage
  import opened Framing

  class DataBuffer {
    var data: array<Byte>
    var dataSize: nat

    constructor (memSize: nat)
      ensures fresh(data) && data.Length == memSize && dataSize == 0
    {
      data := new Byte[memSize];
      dataSize := 0;
    }

    /** Grows by replacing the memory; the old contents are not carried over. */
    method AllocIfNeed(newSize: nat) returns (ok: bool)
      modifies this`data
      ensures ok <==> newSize <= MAX_BODY
      ensures ok ==> newSize <= data.Length
      ensures !ok || newSize <= old(data).Length ==> data == old(data)
      ensures ok && newSize > old(data).Length ==> fresh(data) && data.Length == newSize
    {
      if newSize > MAX_BODY {
        return false;
      }
      if newSize > data.Length {
        data := new Byte[newSize];
      }
      return true;
    }
  }

  /** What a receive call of `bytes` at `at` does to the memory it is given. */
  method Store(a: array<Byte>, at: nat, bytes: seq<Byte>)
    requires at + |bytes| <= a.Length
    modifies a
    ensures a[..at] == old(a[..at]) && a[at..at + |bytes|] == bytes
  {
    forall i | 0 <= i < |bytes| {
      a[at + i] := bytes[i];
    }
  }

  class ReceiveLink {
    const header: array<Byte>
    const buffer: DataBuffer
    var headerToBeReceived: nat
    var bodyToBeReceived: int

    ghost predicate Valid() reads this, header, buffer, buffer.data {
      && header.Length == HEADER_LEN && header != buffer.data && headerToBeReceived <= HEADER_LEN
      && (headerToBeReceived == 0 ==>
            && 0 <= bodyToBeReceived <= BodyLen(header[..]) <= MAX_BODY
            && BodyLen(header[..]) <= buffer.data.Length
            && (bodyToBeReceived > 0 || BodyLen(header[..]) == 0))
    }

    /** The bytes of the message in progress, read back from the two memories. */
    ghost function Abs(): (rx: Rx)
      requires Valid()
      reads this, header, buffer, buffer.data
      ensures RxOk(rx)
    {
      if headerToBeReceived > 0 then InHeader(header[..HEADER_LEN - headerToBeReceived])
      else InBody(header[..], buffer.data[..BodyLen(header[..]) - bodyToBeReceived])
    }

    constructor ()
      ensures Valid() && Abs() == InHeader([]) && fresh(header) && fresh(buffer) && fresh(buffer.data)
    {
      header := new Byte[HEADER_LEN];
      buffer := new DataBuffer(1024);
      headerToBeReceived, bodyToBeReceived := HEADER_LEN, -1;
    }

    method ResetHeader()
      modifies this`headerToBeReceived, this`bodyToBeReceived
      ensures headerToBeReceived == HEADER_LEN && bodyToBeReceived == -1
    {
      headerToBeReceived, bodyToBeReceived := HEADER_LEN, -1;
    }

    /** The second half of a round: one receive into the body at the first missing byte. */
    method ReceiveIntoBody(avail: seq<Byte>, r: Recv) returns (used: nat, outcome: InOutcome)
      requires Valid() && headerToBeReceived == 0
      requires RecvOk(r, bodyToBeReceived, avail)
      modifies this, buffer, buffer.data
      ensures Valid() && buffer.data == old(buffer.data)
      ensures old(Abs()).InBody?
      ensures PollIn(Abs(), used, outcome) == ReceiveBody(old(Abs()).header, old(Abs()).got, avail, r)
      ensures outcome.Ready? ==>
                buffer.dataSize <= buffer.data.Length && buffer.data[..buffer.dataSize] == outcome.msg.body
    {
      match r
      case NoData => return 0, More;
      case Broken => return 0, LinkBroken;
      case Got(n) =>
        ghost var got := Abs().got;
        var bodyLen := BodyLen(header[..]);
        var at := bodyLen - bodyToBeReceived;
        Store(buffer.data, at, avail[..n]);
        assert buffer.data[..at + n] == got + avail[..n];
        used := n;
        bodyToBeReceived := if bodyToBeReceived > n then bodyToBeReceived - n else 0;
        if bodyToBeReceived == 0 {
          ResetHeader();
          buffer.dataSize := bodyLen;
          outcome := Ready(Message(header[..], buffer.data[..bodyLen]));
        } else {
          outcome := More;
        }
    }

    /** The first half of a round: one receive into the header at the first missing byte. */
    method ReceiveIntoHeader(avail: seq<Byte>, n: nat) returns (complete: bool)
      requires Valid() && 1 <= n <= headerToBeReceived && n <= |avail|
      modifies this`headerToBeReceived, header
      ensures complete <==> n == old(headerToBeReceived)
      ensures complete ==> headerToBeReceived == 0 && header[..] == old(Abs()).got + avail[..n]
      ensures !complete ==> Valid() && Abs() == InHeader(old(Abs()).got + avail[..n])
    {
      Store(header, HEADER_LEN - headerToBeReceived, avail[..n]);
      assert header[..HEADER_LEN - headerToBeReceived + n] == old(Abs()).got + avail[..n];
      headerToBeReceived := if headerToBeReceived > n then headerToBeReceived - n else 0;
      complete := headerToBeReceived == 0;
      assert complete ==> header[..] == header[..HEADER_LEN];
    }

    /** One round of receiving; the two receive results come from the socket. */
    method PollInRound(avail: seq<Byte>, r1: Recv, r2: Recv) returns (used: nat, outcome: InOutcome)
      requires Valid() && RecvsOk(Abs(), avail, r1, r2)
      modifies this, header, buffer, buffer.data
      ensures Valid() && (buffer.data == old(buffer.data) || fresh(buffer.data))
      ensures PollIn(Abs(), used, outcome) == HandlePollIn(old(Abs()), avail, r1, r2)
      ensures outcome.Ready? ==>
                buffer.dataSize <= buffer.data.Length && buffer.data[..buffer.dataSize] == outcome.msg.body
    {
      if headerToBeReceived == 0 {
        used, outcome := ReceiveIntoBody(avail, r2);
        return;
      }
      match r1
      case NoData => return 0, More;
      case Broken => return 0, LinkBroken;
      case Got(n) =>
        var complete := ReceiveIntoHeader(avail, n);
        if !complete {
          return n, More;
        }
        var ok := buffer.AllocIfNeed(BodyLen(header[..]));
        if !ok {
          ResetHeader();
          return n, TooLarge(header[..]);
        }
        bodyToBeReceived := BodyLen(header[..]);
        buffer.dataSize := 0;
        assert Abs() == InBody(header[..], []);
        used, outcome := ReceiveIntoBody(avail[n..], r2);
        used := n + used;
    }
  }
}
