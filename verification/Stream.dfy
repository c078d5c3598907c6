/**
 * The submission ring of a device stream: a host that submits and retires tasks and a device that
 * runs them, interleaved at every call the host makes into the driver.
 */
module Stream {
  const DEPTH: nat := 2048
  const SYNC_GAP: nat := 40
  const BATCH: nat := 32
  const MAX_RETRY: nat := 1000000
  /** `UINT32_MAX`: wait for everything. */
  const ANY_TASK: nat := 0xFFFF_FFFF
  /** `UINT16_MAX`: no report has been read. */
  const NO_TASK: nat := 0xFFFF

  // ---------- The device ----------

  /** Tasks carry their position in the order of submission; the ring index is that position modulo the depth. */
  datatype Cqe = Cqe(seqNo: nat, error: nat)

  function Slot(seqNo: nat): (slot: nat)
    ensures slot < DEPTH
  {
    seqNo % DEPTH
  }

  /**
   * The device has run `ran` tasks, with the codes in `errors`, and its head has passed `done` of them. `unread` are
   * the posted reports, `newest` is one past the last task reported, read or unread, and `flag` is the status bit that
   * a query reads and clears.
   */
  datatype Device = Device(sent: nat, ran: nat, done: nat, errors: seq<nat>, unread: seq<Cqe>, newest: nat, flag: bool)

  ghost predicate DeviceOk(d: Device) {
    && d.done <= d.ran <= d.sent && |d.errors| == d.ran && d.newest <= d.ran
    && (d.unread != [] ==> d.newest == d.unread[|d.unread| - 1].seqNo + 1)
    && (forall i :: 0 <= i < |d.unread| ==>
          d.unread[i].seqNo < d.ran && d.unread[i].error == d.errors[d.unread[i].seqNo])
    && (forall i, j :: 0 <= i < j < |d.unread| ==> d.unread[i].seqNo < d.unread[j].seqNo)
  }

  /** The device runs its next task and posts the report, if it has one to make. */
  function Post(d: Device, error: nat, report: bool): Device
    requires d.ran < d.sent
  {
    var posted := if report then [Cqe(d.ran, error)] else [];
    d.(ran := d.ran + 1, errors := d.errors + [error], unread := d.unread + posted,
       newest := if report then d.ran + 1 else d.newest, flag := d.flag || report)
  }

  /** The head moves past a task that has run, sooner or later. */
  function Advance(d: Device): Device
    requires d.done < d.ran
  {
    d.(done := d.done + 1)
  }

  ghost predicate Reported(d: Device, t: nat) {
    exists i :: 0 <= i < |d.unread| && d.unread[i].seqNo == t
  }

  /** Every failed task from `from` on still has its report waiting. */
  ghost predicate FailuresReported(d: Device, from: nat) {
    forall t :: from <= t < |d.errors| && d.errors[t] != 0 ==> Reported(d, t)
  }

  /** A report that raises the status bit is of a task that had not run. */
  ghost predicate Posted(d: Device, d': Device) {
    d.newest <= d'.newest && (d'.flag && !d.flag ==> d.ran < d'.newest)
  }

  /** What any number of device steps may do: run more tasks in order, post their reports, advance the head. */
  ghost predicate Rely(d: Device, d': Device) {
    && d'.sent == d.sent && d.done <= d'.done && d.ran <= d'.ran && d.errors <= d'.errors && d.unread <= d'.unread
    && (forall i :: |d.unread| <= i < |d'.unread| ==> d.ran <= d'.unread[i].seqNo)
    && |d'.unread| - |d.unread| <= d'.ran - d.ran
    && (d'.flag <==> d.flag || |d.unread| < |d'.unread|)
    && Posted(d, d') && (d'.unread == d.unread ==> d'.newest == d.newest)
    && FailuresReported(d', d.ran)
  }

  lemma PostOk(d: Device, error: nat, report: bool)
    requires DeviceOk(d) && d.ran < d.sent
    ensures DeviceOk(Post(d, error, report))
  {
    var d' := Post(d, error, report);
    assert forall i :: 0 <= i < |d.unread| ==> d'.unread[i] == d.unread[i];
    assert forall t :: 0 <= t < |d.errors| ==> d'.errors[t] == d.errors[t];
  }

  lemma PostRely(d0: Device, d: Device, error: nat, report: bool)
    requires DeviceOk(d0) && DeviceOk(d) && Rely(d0, d) && d.ran < d.sent && (error != 0 ==> report)
    ensures DeviceOk(Post(d, error, report)) && Rely(d0, Post(d, error, report))
  {
    var d' := Post(d, error, report);
    PostOk(d, error, report);
    assert forall i :: 0 <= i < |d.unread| ==> d'.unread[i] == d.unread[i];
    forall t | d0.ran <= t < |d'.errors| && d'.errors[t] != 0 ensures Reported(d', t) {
      if t < d.ran {
        assert Reported(d, t);
      } else {
        assert d'.unread[|d.unread|].seqNo == t;
      }
    }
  }

  lemma AdvanceRely(d0: Device, d: Device)
    requires DeviceOk(d0) && DeviceOk(d) && Rely(d0, d) && d.done < d.ran
    ensures DeviceOk(Advance(d)) && Rely(d0, Advance(d))
  {
    var d' := Advance(d);
    forall t | d0.ran <= t < |d'.errors| && d'.errors[t] != 0 ensures Reported(d', t) {
      assert Reported(d, t);
    }
  }

  /** With nothing left to do the device changes nothing. */
  lemma IdleDevice(d: Device, d': Device)
    requires DeviceOk(d) && DeviceOk(d') && Rely(d, d') && d.done == d.sent
    ensures d' == d
  {
    assert d'.errors == d.errors && d'.unread == d.unread;
  }

  // ---------- Host and device together ----------

  /**
   * `head` and `tail` are the host's positions and `seen` is how far it knows the outcomes. It is never ahead of what
   * has run. Reports it has not seen are all still there.
   */
  ghost predicate Inv(head: nat, seen: nat, tail: nat, d: Device) {
    && DeviceOk(d) && d.sent == tail
    && head <= seen <= d.ran
    && (forall i :: 0 <= i < |d.unread| ==> seen <= d.unread[i].seqNo)
    && FailuresReported(d, seen) && (d.unread == [] ==> d.newest <= seen)
  }

  lemma RelyKeepsInv(head: nat, seen: nat, tail: nat, d: Device, d': Device)
    requires Inv(head, seen, tail, d) && DeviceOk(d') && Rely(d, d')
    ensures Inv(head, seen, tail, d')
  {
    assert forall i :: 0 <= i < |d.unread| ==> d'.unread[i] == d.unread[i];
    assert forall t :: 0 <= t < |d.errors| ==> d'.errors[t] == d.errors[t];
    forall t | seen <= t < |d'.errors| && d'.errors[t] != 0 ensures Reported(d', t) {
      if t < d.ran {
        assert Reported(d, t);
      }
    }
  }

  ghost predicate Clean(d: Device, from: nat, to: nat) {
    to <= |d.errors| && forall t :: from <= t < to ==> d.errors[t] == 0
  }

  /** Reading the oldest report retires up to its task, and only that task can have failed unseen. */
  lemma ReadOne(head: nat, seen: nat, tail: nat, d: Device)
    requires Inv(head, seen, tail, d) && d.unread != []
    ensures seen <= d.unread[0].seqNo && Clean(d, seen, d.unread[0].seqNo)
    ensures d.errors[d.unread[0].seqNo] == d.unread[0].error
    ensures Inv(d.unread[0].seqNo + 1, d.unread[0].seqNo + 1, tail, d.(unread := d.unread[1..]))
  {
    var q := d.unread[0].seqNo;
    var d' := d.(unread := d.unread[1..]);
    forall t | seen <= t < q ensures d.errors[t] == 0 {
      assert !Reported(d, t);
    }
    forall t | q < t < |d'.errors| && d'.errors[t] != 0 ensures Reported(d', t) {
      assert Reported(d, t);
      var i :| 0 <= i < |d.unread| && d.unread[i].seqNo == t;
      assert d'.unread[i - 1].seqNo == t;
    }
  }

  function Max(a: nat, b: nat): nat {
    if a < b then b else a
  }

  /**
   * With no report waiting, every task up to the device's head whose outcome is not known succeeded, and the host's
   * head can be set to it, also when that is a step back.
   */
  lemma RetireQuiet(head: nat, seen: nat, tail: nat, d: Device, to: nat)
    requires Inv(head, seen, tail, d) && d.unread == [] && to <= d.done
    ensures Clean(d, seen, Max(seen, to)) && Inv(to, Max(seen, to), tail, d)
  {
    forall t | seen <= t < to ensures d.errors[t] == 0 {
      assert !Reported(d, t);
    }
  }

  /** The device posts `n` reports before its head moves, and the host reads each. */
  ghost function Ahead(d: Device, n: nat): (r: Device)
    requires d.ran + n <= d.sent
    ensures r.ran == d.ran + n && r.sent == d.sent && r.done == d.done
  {
    if n == 0 then d
    else var p := Post(Ahead(d, n - 1), 0, true); p.(unread := if p.unread == [] then [] else p.unread[1..])
  }

  /**
   * The host's head is then past the device's, by as many tasks as the device is behind with. The next sample of the
   * device's head, with no report waiting, takes the host back over all of them.
   */
  lemma {:induction false} EarlyReports(tail: nat, d: Device, n: nat)
    requires Inv(d.ran, d.ran, tail, d) && d.unread == [] && d.ran + n <= d.sent
    ensures var a := Ahead(d, n);
            a.unread == [] && Inv(d.ran + n, d.ran + n, tail, a) && Inv(d.done, d.ran + n, tail, a)
  {
    if n > 0 {
      EarlyReports(tail, d, n - 1);
      var a := Ahead(d, n - 1);
      var p := Post(a, 0, true);
      PostKeepsInv(a.ran, tail, a, 0);
      ReadOne(a.ran, a.ran, tail, p);
      assert p.unread == [Cqe(a.ran, 0)] && p.unread[1..] == [];
    }
    RetireQuiet(d.ran + n, d.ran + n, tail, Ahead(d, n), d.done);
  }

  lemma PostKeepsInv(head: nat, tail: nat, d: Device, error: nat)
    requires Inv(head, head, tail, d) && d.ran < d.sent
    ensures Inv(head, head, tail, Post(d, error, true))
  {
    assert FailuresReported(d, d.ran);
    PostRely(d, d, error, true);
    RelyKeepsInv(head, head, tail, d, Post(d, error, true));
  }

  /** Reports waiting are no more than the tasks outstanding, so a report queue twice the depth cannot overflow. */
  lemma UnreadBounded(head: nat, seen: nat, tail: nat, d: Device)
    requires Inv(head, seen, tail, d)
    ensures |d.unread| <= tail - head
  {
    if d.unread != [] {
      Spread(d, |d.unread| - 1);
    }
  }

  lemma {:induction false} Spread(d: Device, i: nat)
    requires DeviceOk(d) && i < |d.unread|
    ensures d.unread[0].seqNo + i <= d.unread[i].seqNo
  {
    if i > 0 {
      Spread(d, i - 1);
    }
  }

  lemma SlotsDiffer(a: nat, b: nat)
    requires a <= b < a + DEPTH
    ensures Slot(a) == Slot(b) <==> a == b
  {
  }

  lemma SlotNext(a: nat)
    ensures Slot(a + 1) == (Slot(a) + 1) % DEPTH
  {
  }

  lemma SlotRound(a: nat)
    ensures Slot(a + DEPTH) == Slot(a)
  {
  }

  /** The equality test that triggers the early synchronisation, and the test for a full ring, are exact. */
  lemma GapTest(head: nat, tail: nat)
    requires head <= tail < head + DEPTH
    ensures (Slot(tail) + SYNC_GAP) % DEPTH == Slot(head) <==> tail - head == DEPTH - SYNC_GAP
    ensures (Slot(tail) + 1) % DEPTH == Slot(head) <==> tail - head == DEPTH - 1
  {
  }

  /** Taken back with a whole ring of tasks behind the device's head, the host sees a ring that looks empty. */
  lemma StepBackAtFull(head: nat, seen: nat, tail: nat, d: Device)
    requires Inv(head, seen, tail, d) && d.unread == [] && tail - head < DEPTH == tail - d.done
    ensures Inv(d.done, seen, tail, d) && Slot(d.done) == Slot(tail) && d.done < tail
  {
    RetireQuiet(head, seen, tail, d, d.done);
    SlotRound(d.done);
  }

  /** From no more outstanding than the early synchronisation lets through, the host can always be taken back. */
  ghost predicate AlwaysRoom(lag: nat) {
    forall head: nat, seen: nat, tail: nat, d ::
      Inv(head, seen, tail, d) && d.ran <= d.done + lag && tail - head <= DEPTH - SYNC_GAP ==> tail - d.done < DEPTH
  }

  /** That holds exactly for devices that are behind with fewer tasks than the gap. */
  lemma AlwaysRoomIff(lag: nat)
    ensures AlwaysRoom(lag) <==> lag < SYNC_GAP
  {
    if lag >= SYNC_GAP {
      var _, read := GapUsedUp();
    }
  }

  /**
   * With no timeout on the way: the host submits up to the gap, reads the reports of as many tasks as the gap is
   * wide, submits that many again, and the synchronisation that is due finds no report and a device that has not
   * moved. The ring looks empty and the synchronisation succeeds. As many submissions later neither index test has
   * fired, and the next slot is that of a task that has not run.
   */
  lemma GapUsedUp() returns (start: Device, late: Device)
    ensures start == Device(DEPTH - SYNC_GAP, 0, 0, [], [], 0, false) && Inv(0, 0, DEPTH - SYNC_GAP, start)
    ensures Inv(SYNC_GAP, SYNC_GAP, DEPTH - SYNC_GAP, Ahead(start, SYNC_GAP))
    ensures late == Ahead(start, SYNC_GAP).(sent := DEPTH) && late.ran == late.done + SYNC_GAP
    ensures Inv(SYNC_GAP, SYNC_GAP, DEPTH, late) && late.done == 0
    ensures Inv(0, SYNC_GAP, DEPTH, late) && Slot(0) == Slot(DEPTH)
    ensures forall tail: nat :: DEPTH <= tail <= DEPTH + SYNC_GAP ==> SendsBlindly(tail)
    ensures Inv(0, SYNC_GAP, DEPTH + SYNC_GAP, late.(sent := DEPTH + SYNC_GAP))
    ensures Slot(DEPTH + SYNC_GAP) == Slot(late.ran) && late.ran < DEPTH
  {
    start := Device(DEPTH - SYNC_GAP, 0, 0, [], [], 0, false);
    EarlyReports(DEPTH - SYNC_GAP, start, SYNC_GAP);
    late := Ahead(start, SYNC_GAP).(sent := DEPTH);
    SentTwice(start, late);
  }

  lemma SentTwice(start: Device, late: Device)
    requires start.ran == start.done == 0 && start.sent == DEPTH - SYNC_GAP
    requires late == Ahead(start, SYNC_GAP).(sent := DEPTH) && late.unread == []
    requires Inv(SYNC_GAP, SYNC_GAP, DEPTH - SYNC_GAP, Ahead(start, SYNC_GAP))
    ensures Inv(SYNC_GAP, SYNC_GAP, DEPTH, late) && Inv(0, SYNC_GAP, DEPTH, late)
    ensures Inv(0, SYNC_GAP, DEPTH + SYNC_GAP, late.(sent := DEPTH + SYNC_GAP))
  {
    SentKeepsInv(SYNC_GAP, SYNC_GAP, DEPTH - SYNC_GAP, Ahead(start, SYNC_GAP), SYNC_GAP);
    StepBackAtFull(SYNC_GAP, SYNC_GAP, DEPTH, late);
    SentKeepsInv(0, SYNC_GAP, DEPTH, late, SYNC_GAP);
  }

  /** With the host's head at the start of the ring, submission goes ahead without a synchronisation. */
  ghost predicate SendsBlindly(tail: nat) {
    (Slot(tail) + SYNC_GAP) % DEPTH != Slot(0) && (Slot(tail) + 1) % DEPTH != Slot(0)
  }

  /** The walk from one position to another, round the ring. */
  lemma SlotWalk(from: nat, to: nat)
    ensures Slot(from + (to - from) % DEPTH) == Slot(to)
  {
  }

  /**
   * From index `start` on, samples were taken in order, none of a device before `from`. The host's head has reached all
   * but the last of them, and the last too unless the status bit is clear.
   */
  ghost predicate KeepsUp(samples: seq<nat>, start: nat, from: nat, head: nat, d: Device) {
    && start <= |samples| && (forall i :: start <= i < |samples| ==> from <= samples[i] <= d.done)
    && (forall i, j :: start <= i < j < |samples| ==> samples[i] <= samples[j])
    && (start < |samples| ==> samples[|samples| - 1] <= head || !d.flag)
    && (start + 1 < |samples| ==> samples[|samples| - 2] <= head)
  }

  lemma OneMoreSample(samples: seq<nat>, start: nat, from: nat, head: nat, d: Device, at: nat, head': nat, d': Device)
    requires KeepsUp(samples, start, from, head, d) && from <= d.done <= at <= d'.done
    requires (at <= head' || !d'.flag) && (!d.flag ==> d.done <= head') && (head <= head' || d.done <= head')
    ensures KeepsUp(samples + [at], start, from, head', d')
  {
    var more := samples + [at];
    assert forall i :: 0 <= i < |samples| ==> more[i] == samples[i];
    if start < |samples| {
      assert samples[|samples| - 1] <= d.done;
    }
  }

  predicate TaskInRange(sqHead: nat, sqTail: nat, task: nat) {
    task == ANY_TASK || if sqHead <= sqTail then sqHead <= task < sqTail else sqHead <= task || task < sqTail
  }

  /** The position at or after the head that a ring index stands for. */
  function Position(head: nat, task: nat): (q: nat)
    requires task < DEPTH
    ensures head <= q < head + DEPTH && Slot(q) == task
  {
    var base := head - Slot(head);
    if task >= Slot(head) then base + task else base + DEPTH + task
  }

  lemma WindowTest(head: nat, tail: nat, task: nat)
    requires head <= tail < head + DEPTH && task < DEPTH
    ensures TaskInRange(Slot(head), Slot(tail), task) <==> Position(head, task) < tail
  {
  }

  lemma OutOfRange(head: nat, tail: nat, task: nat)
    requires head <= tail < head + DEPTH && task < DEPTH
    ensures head == tail || !TaskInRange(Slot(head), Slot(tail), task) ==>
              forall q: nat :: q < tail && Slot(q) == task ==> q < head
  {
    InRangeMeansOutstanding(head, tail, task);
  }

  /** No task from `from` on that the ring index can stand for comes before `at`. */
  ghost predicate NotBefore(at: nat, from: nat, tail: nat, task: nat) {
    forall q :: from <= q < tail && Slot(q) == task ==> at <= q
  }

  /** While the window test holds, the head has not passed that task. */
  lemma StillOutstanding(from: nat, head: nat, tail: nat, task: nat)
    requires from <= tail < from + DEPTH && head <= tail && (task == ANY_TASK || task < DEPTH)
    ensures tail < head + DEPTH && TaskInRange(Slot(head), Slot(tail), task) ==> NotBefore(head, from, tail, task)
  {
    if tail < head + DEPTH && task < DEPTH && TaskInRange(Slot(head), Slot(tail), task) {
      InRangeMeansOutstanding(head, tail, task);
      var p :| head <= p < tail && Slot(p) == task;
      forall q | from <= q < tail && Slot(q) == task ensures q == p {
        if p <= q {
          SlotsDiffer(p, q);
        } else {
          SlotsDiffer(q, p);
        }
      }
    }
  }

  /** Where a synchronisation began, and how many samples had been taken then. */
  datatype Entry = Entry(dev: Device, seen: nat, head: nat, start: nat)

  /**
   * So many samples were taken. Up to the last two of them the device had not come to the tail, nor, with room to step
   * back, past a task that is waited for.
   */
  ghost predicate Waited(samples: seq<nat>, tail: nat, e: Entry, task: nat, retry: nat) {
    && |samples| == e.start + retry
    && (retry >= 3 ==> samples[|samples| - 3] < tail)
    && (retry >= 3 && tail - e.dev.done < DEPTH ==> NotBefore(samples[|samples| - 3], e.head, tail, task))
  }

  lemma OneMoreWait(samples: seq<nat>, tail: nat, e: Entry, head: nat, d: Device, at: nat, task: nat, retry: nat)
    requires KeepsUp(samples, e.start, e.dev.done, head, d) && |samples| == e.start + retry
    requires e.head <= tail < e.head + DEPTH && head <= tail && (task == ANY_TASK || task < DEPTH)
    requires Slot(head) != Slot(tail) && TaskInRange(Slot(head), Slot(tail), task)
    ensures Waited(samples + [at], tail, e, task, retry + 1)
  {
    if retry >= 2 {
      StillOutstanding(e.head, head, tail, task);
      assert (samples + [at])[|samples| - 2] == samples[|samples| - 2];
    }
  }

  /** The cyclic window test holds exactly for the ring indices of outstanding tasks. */
  lemma InRangeMeansOutstanding(head: nat, tail: nat, task: nat)
    requires head <= tail < head + DEPTH && task < DEPTH
    ensures TaskInRange(Slot(head), Slot(tail), task) <==> exists q :: head <= q < tail && Slot(q) == task
  {
    var q := Position(head, task);
    WindowTest(head, tail, task);
    forall p | head <= p < tail && Slot(p) == task ensures p == q {
      if p <= q {
        SlotsDiffer(p, q);
      } else {
        SlotsDiffer(q, p);
      }
    }
  }

  // ---------- The host's side, in place ----------

  datatype Task = Task(taskId: nat, payload: int)

  datatype Status = Ok | Timeout | Failed | Full

  /** The device only adds to what it has done. */
  ghost predicate Grows(d: Device, d': Device) {
    d'.sent == d.sent && d.done <= d'.done && d.ran <= d'.ran && d.errors <= d'.errors && d.newest <= d'.newest
  }

  /** The device's head is behind what it has run by at most `lag` tasks. */
  class HybmStream {
    const lag: nat
    var sqHead: nat
    var sqTail: nat
    const taskList: array<Task>
    var dev: Device
    ghost var head: nat
    ghost var seen: nat
    ghost var tail: nat
    ghost var submitted: seq<Task>
    ghost var samples: seq<nat>

    /** The ring holds the last tasks submitted, as many as it has slots. */
    ghost predicate SlotsKept() reads this, taskList {
      && taskList.Length == DEPTH && |submitted| == tail
      && forall t :: 0 <= t < tail && tail <= t + DEPTH ==> taskList[Slot(t)] == submitted[t]
    }

    ghost predicate Sound() reads this, taskList {
      && sqHead == Slot(head) && sqTail == Slot(tail)
      && Inv(head, seen, tail, dev) && SlotsKept()
      && (dev.unread != [] ==> dev.flag)
      && dev.ran <= dev.done + lag && (lag == 0 ==> seen == head)
    }

    /** Fewer tasks are outstanding than the ring has slots, so ring indices tell them apart. */
    ghost predicate Valid() reads this, taskList {
      Sound() && tail - head < DEPTH
    }

    constructor (lag: nat)
      ensures Valid() && fresh(taskList) && head == seen == tail == 0 && this.lag == lag
    {
      this.lag := lag;
      sqHead, sqTail := 0, 0;
      taskList := new Task[DEPTH](_ => Task(0, 0));
      dev := Device(0, 0, 0, [], [], 0, false);
      head, seen, tail, submitted, samples := 0, 0, 0, [], [];
    }

    /** The device works for a while: any number of steps with any outcome. */
    method Interfere(ghost from: nat, ghost known: nat)
      requires Inv(from, known, tail, dev) && dev.ran <= dev.done + lag
      modifies this`dev
      ensures Inv(from, known, tail, dev) && Rely(old(dev), dev) && dev.ran <= dev.done + lag
      ensures old(dev).done == tail ==> dev == old(dev)
    {
      var steps: nat := *;
      while steps > 0
        invariant DeviceOk(dev) && Rely(old(dev), dev) && dev.ran <= dev.done + lag
        decreases steps
      {
        DeviceStep(old(dev));
        steps := steps - 1;
      }
      RelyKeepsInv(from, known, tail, old(dev), dev);
      if old(dev).done == tail {
        IdleDevice(old(dev), dev);
      }
    }

    method DeviceStep(ghost start: Device)
      requires DeviceOk(start) && DeviceOk(dev) && Rely(start, dev) && dev.ran <= dev.done + lag
      modifies this`dev
      ensures DeviceOk(dev) && Rely(start, dev) && dev.ran <= dev.done + lag
    {
      var post: bool := *;
      if post && dev.ran < dev.sent && (lag == 0 || dev.ran < dev.done + lag) {
        var error: nat := *;
        var report: bool := *;
        PostRely(start, dev, error, report || error != 0);
        dev := Post(dev, error, report || error != 0);
        if lag == 0 {
          AdvanceRely(start, dev);
          dev := Advance(dev);
        }
      } else if dev.done < dev.ran {
        AdvanceRely(start, dev);
        dev := Advance(dev);
      }
    }

    method GetSqHead() returns (sq: nat, ghost at: nat)
      requires Inv(head, seen, tail, dev) && dev.ran <= dev.done + lag
      modifies this`dev, this`samples
      ensures Inv(head, seen, tail, dev) && Grows(old(dev), dev) && Posted(old(dev), dev) && dev.ran <= dev.done + lag
      ensures old(dev.unread != [] ==> dev.flag) ==> (dev.unread != [] ==> dev.flag)
      ensures sq == Slot(at) && old(dev).done <= at <= dev.done && samples == old(samples) + [at]
      ensures old(dev).done == tail ==> at == tail && dev == old(dev)
    {
      Interfere(head, seen);
      sq, at := Slot(dev.done), dev.done;
      samples := samples + [at];
    }

    /** Reads the status bit and clears it. */
    method GetCqeStatus() returns (status: bool)
      requires Inv(head, seen, tail, dev) && (dev.unread != [] ==> dev.flag) && dev.ran <= dev.done + lag
      modifies this`dev
      ensures Inv(head, seen, tail, dev) && Grows(old(dev), dev) && dev.ran <= dev.done + lag
      ensures !status ==> dev.unread == []
      ensures !dev.flag && (status && !old(dev).flag ==> old(dev).ran < dev.newest)
      ensures old(dev).done == tail ==> status == old(dev).flag && dev == old(dev).(flag := false)
    {
      Interfere(head, seen);
      status := dev.flag;
      dev := dev.(flag := false);
    }

    /** Takes up to a batch of reports; none only when none is waiting. */
    method RecvReports(ghost from: nat) returns (reports: seq<Cqe>)
      requires Inv(from, from, tail, dev) && dev.ran <= dev.done + lag
      modifies this`dev
      ensures Grows(old(dev), dev) && Posted(old(dev), dev) && |reports| <= BATCH && dev.ran <= dev.done + lag
      ensures Inv(from, from, tail, dev.(unread := reports + dev.unread))
      ensures reports == [] ==> dev.unread == []
      ensures old(dev).done == tail ==> dev.flag == old(dev).flag
      ensures dev.sent - dev.ran + |dev.unread| + |reports| <= old(dev.sent - dev.ran + |dev.unread|)
    {
      Interfere(from, from);
      ghost var least := if dev.unread == [] then 0 else 1;
      assert least <= |dev.unread| && least <= BATCH;
      var n: nat :| n <= |dev.unread| && n <= BATCH && (n == 0 ==> dev.unread == []);
      TakenOff(dev, n);
      reports := dev.unread[..n];
      dev := dev.(unread := dev.unread[n..]);
    }

    /** Goes through one batch: the last task seen, and whether any failed. */
    method ScanReports(reports: seq<Cqe>, ret0: Status, lastTask0: nat, ghost read0: nat)
      returns (ret: Status, lastTask: nat, ghost read: nat)
      requires Inv(read0, read0, tail, dev.(unread := reports + dev.unread)) && seen <= read0
      requires ReadTo(lastTask0, read0)
      requires ret0 == if Clean(dev, seen, read0) then Ok else Failed
      ensures Inv(read, read, tail, dev) && seen <= read && ReadTo(lastTask, read)
      ensures ret == if Clean(dev, seen, read) then Ok else Failed
    {
      ret, lastTask, read := ret0, lastTask0, read0;
      assert Scanned(dev, reports, 0, tail, read0) by {
        assert reports[0..] == reports;
      }
      for idx := 0 to |reports|
        invariant seen <= read && ReadTo(lastTask, read) && Scanned(dev, reports, idx, tail, read)
        invariant ret == if Clean(dev, seen, read) then Ok else Failed
      {
        ScanStep(dev, reports, idx, tail, seen, read);
        lastTask := Slot(reports[idx].seqNo);
        if reports[idx].error != 0 {
          ret := Failed;
        }
        read := reports[idx].seqNo + 1;
      }
      AllScanned(dev, reports, tail, read);
    }

    /** What the last task seen says about how far the reports have been read. */
    ghost predicate ReadTo(lastTask: nat, read: nat) reads this`seen {
      if lastTask == NO_TASK then read == seen else seen < read && lastTask == Slot(read - 1)
    }

    method ReceiveCqe() returns (ret: Status, lastTask: nat, ghost read: nat)
      requires Inv(seen, seen, tail, dev) && dev.ran <= dev.done + lag
      modifies this`dev
      ensures Grows(old(dev), dev) && dev.unread == [] && dev.ran <= dev.done + lag
      ensures seen <= read && Inv(read, read, tail, dev) && ReadTo(lastTask, read)
      ensures ret == if Clean(dev, seen, read) then Ok else Failed
      ensures old(dev).done == tail ==> dev.flag == old(dev).flag
      ensures Posted(old(dev), dev)
    {
      ret, lastTask, read := Ok, NO_TASK, seen;
      while true
        invariant Inv(read, read, tail, dev) && Grows(old(dev), dev) && seen <= read && ReadTo(lastTask, read)
        invariant old(dev).done == tail ==> dev.flag == old(dev).flag
        invariant dev.ran <= dev.done + lag
        invariant ret == if Clean(dev, seen, read) then Ok else Failed
        invariant Posted(old(dev), dev)
        decreases dev.sent - dev.ran + |dev.unread|
      {
        ghost var before := dev;
        var reports := RecvReports(read);
        CleanGrows(before, dev, seen, read);
        ret, lastTask, read := ScanReports(reports, ret, lastTask, read);
        if |reports| == 0 {
          break;
        }
      }
    }

    /** Walks the host's head around the ring to the sampled device head: all the way round when that is behind it. */
    method RetireTo(sq: nat, ghost at: nat) returns (ghost walked: nat)
      requires sqHead == Slot(head) && sq == Slot(at)
      modifies this`sqHead, this`head
      ensures head == at && sqHead == sq && walked == (at - old(head)) % DEPTH
    {
      ghost var target := head + (at - head) % DEPTH;
      SlotWalk(head, at);
      assert Slot(target) == sq;
      walked := 0;
      while sqHead != sq
        invariant sqHead == Slot(head + walked) && head + walked <= target && head == old(head)
        decreases target - head - walked
      {
        SlotNext(head + walked);
        sqHead := (sqHead + 1) % DEPTH;
        walked := walked + 1;
      }
      SlotsDiffer(head + walked, target);
      head := at;
    }

    /** Retires as far as the reports reach. */
    method RetireReported() returns (ret: Status)
      requires sqHead == Slot(head) && sqTail == Slot(tail) && Inv(head, seen, tail, dev) && SlotsKept()
      requires dev.ran <= dev.done + lag && (lag == 0 ==> seen == head)
      modifies this`sqHead, this`head, this`seen, this`dev
      ensures Sound() && old(head) <= head && old(seen) <= seen && Grows(old(dev), dev)
      ensures ret == if Clean(dev, old(seen), seen) then Ok else Failed
      ensures ret == Failed ==> old(seen) < head
      ensures old(dev).done == tail ==> dev.flag == old(dev).flag
      ensures Posted(old(dev), dev) && dev.newest <= seen && (old(seen) < seen ==> head == seen)
    {
      var lastTask;
      ghost var read;
      ret, lastTask, read := ReceiveCqe();
      if lastTask != NO_TASK {
        SlotNext(read - 1);
        sqHead := (lastTask + 1) % DEPTH;
        head, seen := read, read;
      }
    }

    /**
     * One pass of the synchronisation loop; `at` is the device head it samples. The host's head moves back exactly
     * when no report is waiting and the sample is behind it.
     */
    method SyncRound() returns (ret: Status, ghost at: nat, ghost quiet: bool)
      requires Sound()
      modifies this`sqHead, this`head, this`seen, this`dev, this`samples
      ensures Sound() && old(seen) <= seen && Grows(old(dev), dev)
      ensures old(dev).done <= at <= dev.done && samples == old(samples) + [at]
      ensures !old(dev).flag ==> old(dev).done <= head
      ensures at <= head || !dev.flag
      ensures head < old(head) <==> quiet && at < old(head)
      ensures quiet ==> head == at && old(head) <= at + lag
      ensures ret == if Clean(dev, old(seen), seen) then Ok else Failed
      ensures ret == Failed ==> old(seen) < head
      ensures old(dev).done == tail ==> !dev.flag && (old(dev).flag || head == tail)
    {
      var sq, status;
      sq, status, at := Sample();
      quiet := !status;
      if status {
        ret := RetireReported();
      } else {
        RetireSampled(sq, at);
        ret := Ok;
      }
    }

    /** The device head first, then the status bit. */
    method Sample() returns (sq: nat, status: bool, ghost at: nat)
      requires Inv(head, seen, tail, dev) && (dev.unread != [] ==> dev.flag) && dev.ran <= dev.done + lag
      modifies this`dev, this`samples
      ensures Inv(head, seen, tail, dev) && Grows(old(dev), dev) && dev.ran <= dev.done + lag
      ensures sq == Slot(at) && old(dev).done <= at <= dev.done && seen <= at + lag && samples == old(samples) + [at]
      ensures !status ==> dev.unread == []
      ensures !dev.flag && (status && !old(dev).flag ==> old(dev).ran < dev.newest)
      ensures old(dev).done == tail ==> at == dev.done == tail && status == old(dev).flag && !dev.flag
    {
      sq, at := GetSqHead();
      status := GetCqeStatus();
    }

    /** With no report waiting, the sampled device head becomes the host's, whichever is ahead. */
    method RetireSampled(sq: nat, ghost at: nat)
      requires sqHead == Slot(head) && sqTail == Slot(tail) && Inv(head, seen, tail, dev) && SlotsKept()
      requires dev.unread == [] && dev.ran <= dev.done + lag && (lag == 0 ==> seen == head)
      requires sq == Slot(at) && seen <= at + lag && at <= dev.done
      modifies this`sqHead, this`head, this`seen
      ensures Sound() && head == at && seen == Max(old(seen), at) && Clean(dev, old(seen), seen)
    {
      RetireQuiet(head, seen, tail, dev, at);
      var _ := RetireTo(sq, at);
      seen := Max(seen, at);
    }

    /** Back at the device's head the host still has fewer tasks outstanding than the ring has slots. */
    ghost predicate RoomToStepBack() reads this {
      tail - dev.done < DEPTH
    }

    /**
     * Success with the default argument means that every task submitted before the call has run and none that the
     * host had not heard of failed; success for one task means that task is retired. A failure is reported once. The
     * head moves back only on a timeout, and by no more than the device is behind. Only without room to step back can
     * it be taken back so far that ring indices tell the tasks apart no more.
     */
    method Synchronize(task: nat) returns (ret: Status)
      requires Valid() && (task == ANY_TASK || task < DEPTH)
      modifies this`sqHead, this`head, this`seen, this`dev, this`samples
      ensures Sound() && old(seen) <= seen && Grows(old(dev), dev) && ret != Full
      ensures ret == Failed <==> !Clean(dev, old(seen), seen)
      ensures KeepsUp(samples, |old(samples)|, old(dev).done, head, dev)
      ensures ret == Timeout ==>
                Waited(samples, tail, Entry(old(dev), old(seen), old(head), |old(samples)|), task, MAX_RETRY)
      ensures ret == Timeout ==> old(dev).done < tail
      ensures ret == Timeout && old(RoomToStepBack()) ==> NotBefore(old(dev).done, old(head), tail, task)
      ensures tail - head < DEPTH || (ret != Failed && !old(RoomToStepBack()))
      ensures tail - head < DEPTH && ret == Ok && task == ANY_TASK ==> head == seen == tail == dev.ran
      ensures tail - head < DEPTH && ret == Ok && task != ANY_TASK ==>
                forall q :: old(head) <= q < tail && Slot(q) == task ==> q < head
      ensures old(head) <= head + lag && (tail - head < DEPTH && ret != Timeout ==> old(head) <= head)
      ensures lag < SYNC_GAP && old(tail - head) <= DEPTH - SYNC_GAP ==>
                tail - head < DEPTH && (ret != Timeout ==> tail - head <= DEPTH - SYNC_GAP)
    {
      var passes;
      ret, passes := SyncLoop(task, Entry(dev, seen, head, |samples|));
      if ret == Failed {
        return;
      }
      ret := if passes >= MAX_RETRY then Timeout else Ok;
      if tail - head < DEPTH {
        SlotsDiffer(head, tail);
        if task != ANY_TASK {
          WindowTest(old(head), tail, task);
          OutOfRange(head, tail, task);
        }
      }
    }

    /** Passes until `task` is out of the window, one failed, or there have been too many. */
    method SyncLoop(task: nat, ghost e: Entry) returns (ret: Status, retry: nat)
      requires Along(e, task, 0) && e.head <= tail < e.head + DEPTH && (task == ANY_TASK || task < DEPTH)
      modifies this`sqHead, this`head, this`seen, this`dev, this`samples
      ensures Kept(e) && retry <= MAX_RETRY && ret == if Clean(dev, e.seen, seen) then Ok else Failed
      ensures ret == Ok ==> Along(e, task, retry)
      ensures ret == Ok ==> sqHead == sqTail || !TaskInRange(sqHead, sqTail, task) || retry >= MAX_RETRY
      ensures ret == Failed ==> e.seen < head
    {
      ret, retry := Ok, 0;
      while sqHead != sqTail && TaskInRange(sqHead, sqTail, task) && retry < MAX_RETRY
        invariant ret == Ok && retry <= MAX_RETRY && Along(e, task, retry)
        decreases MAX_RETRY - retry
      {
        ret := Pass(e, task, retry);
        if ret != Ok {
          break;
        }
        retry := retry + 1;
      }
    }

    /** Some passes into a synchronisation. */
    ghost predicate Kept(e: Entry) reads this, taskList {
      && Sound() && Grows(e.dev, dev) && e.seen <= seen && (e.head <= head || e.dev.done <= head)
      && KeepsUp(samples, e.start, e.dev.done, head, dev)
    }

    ghost predicate Along(e: Entry, task: nat, retry: nat) reads this, taskList {
      && Kept(e) && Clean(dev, e.seen, seen) && Waited(samples, tail, e, task, retry)
      && (if retry == 0 then head == e.head else TaskInRange(Slot(e.head), Slot(tail), task))
      && (e.dev.done == tail ==> retry + PassesLeft() <= 2)
    }

    /** How many more passes it takes once the device is through with everything. */
    ghost function PassesLeft(): nat reads this {
      if head == tail then 0 else if dev.flag then 2 else 1
    }

    /** One pass, seen from the beginning of the loop. */
    method Pass(ghost e: Entry, ghost task: nat, ghost retry: nat) returns (ret: Status)
      requires Along(e, task, retry) && e.head <= tail < e.head + DEPTH && (task == ANY_TASK || task < DEPTH)
      requires sqHead != sqTail && TaskInRange(sqHead, sqTail, task)
      modifies this`sqHead, this`head, this`seen, this`dev, this`samples
      ensures Kept(e) && ret == if Clean(dev, e.seen, seen) then Ok else Failed
      ensures ret == Ok ==> Along(e, task, retry + 1)
      ensures ret == Failed ==> e.seen < head
    {
      ghost var before, s, at, quiet := dev, seen, 0, false;
      ret, at, quiet := SyncRound();
      OneMoreSample(old(samples), e.start, e.dev.done, old(head), before, at, head, dev);
      OneMoreWait(old(samples), tail, e, old(head), before, at, task, retry);
      CleanGrows(before, dev, e.seen, s);
      CleanJoin(dev, e.seen, s, seen);
    }

    /** The early synchronisation, when it is due, has room to step back; so it has with a lag below the gap. */
    ghost predicate Prepared() reads this {
      lag < SYNC_GAP || tail - head != DEPTH - SYNC_GAP || RoomToStepBack()
    }

    /**
     * Submission finds room, or reports that the ring is full or that an earlier task failed or is late. The slot it
     * writes belongs to a task that has run. From at most `DEPTH - SYNC_GAP` outstanding tasks on, it never finds the
     * ring full and leaves no more than that outstanding, unless it was late.
     */
    method SubmitTasks(payload: int) returns (ret: Status, ghost late: bool)
      requires Valid()
      modifies this, taskList
      ensures Sound() && (ret != Ok ==> tail == old(tail) && submitted == old(submitted) && old(head) <= head + lag)
      ensures ret == Ok ==> tail == old(tail) + 1 && submitted == old(submitted) + [Task(Slot(old(tail)), payload)]
      ensures late ==> ret == Failed && old(tail - head) == DEPTH - SYNC_GAP
      ensures old(tail - head) != DEPTH - SYNC_GAP && ret != Full ==> ret == Ok && head == old(head)
      ensures old(Prepared()) ==>
                && Valid() && (ret == Full <==> old(tail - head) == DEPTH - 1)
                && (late ==> old(dev).done <= old(head)) && (ret == Failed && !late <==> !Clean(dev, old(seen), seen))
                && (!late ==> old(head) <= head)
                && (!late && old(tail - head) <= DEPTH - SYNC_GAP ==> tail - head <= DEPTH - SYNC_GAP)
                && (ret == Ok ==> forall q :: 0 <= q < old(tail) && Slot(q) == Slot(old(tail)) ==> q < head <= dev.ran)
    {
      GapTest(head, tail);
      late := false;
      if (sqTail + SYNC_GAP) % DEPTH == sqHead {
        ret := SyncEarly();
        late := ret == Timeout;
        if ret != Ok {
          return Failed, late;
        }
      }
      ret := TrySend(payload);
    }

    method TrySend(payload: int) returns (ret: Status)
      requires Sound()
      modifies this`sqTail, this`tail, this`submitted, this`dev, taskList
      ensures Sound() && (ret == Ok || ret == Full)
      ensures ret == Full ==> tail == old(tail) && submitted == old(submitted) && dev == old(dev)
      ensures ret == Ok ==> tail == old(tail) + 1 && submitted == old(submitted) + [Task(Slot(old(tail)), payload)]
      ensures ret == Ok ==> dev == old(dev).(sent := old(dev).sent + 1)
      ensures old(tail) - head < DEPTH ==> (ret == Full <==> old(tail) - head == DEPTH - 1)
      ensures old(tail) - head < DEPTH && ret == Ok ==>
                forall q :: 0 <= q < old(tail) && Slot(q) == Slot(old(tail)) ==> q < head
    {
      if tail - head < DEPTH {
        GapTest(head, tail);
      }
      if (sqTail + 1) % DEPTH == sqHead {
        return Full;
      }
      Send(payload);
      ret := Ok;
    }

    /** Waits for the oldest task outstanding. */
    method SyncEarly() returns (ret: Status)
      requires Valid() && tail - head == DEPTH - SYNC_GAP
      modifies this`sqHead, this`head, this`seen, this`dev, this`samples
      ensures Sound() && ret != Full && old(head) <= head + lag && (ret == Failed <==> !Clean(dev, old(seen), seen))
      ensures old(seen) <= seen
      ensures old(Prepared()) ==>
                && tail - head < DEPTH && (ret != Timeout ==> old(head) <= head) && (ret == Ok ==> old(head) < head)
                && (ret == Timeout ==> old(dev).done <= old(head))
    {
      ret := Synchronize(sqHead);
      assert Slot(old(head)) == old(sqHead);
    }

    /** Writes the next slot and hands it to the device. */
    method Send(payload: int)
      requires Sound()
      modifies this`sqTail, this`tail, this`submitted, this`dev, taskList
      ensures Sound() && tail == old(tail) + 1 && submitted == old(submitted) + [Task(Slot(old(tail)), payload)]
      ensures dev == old(dev).(sent := old(dev).sent + 1)
      ensures old(tail) - head < DEPTH ==> forall q :: 0 <= q < old(tail) && Slot(q) == Slot(old(tail)) ==> q < head
    {
      var taskId := sqTail;
      SlotNext(tail);
      forall q | 0 <= q < tail && tail < q + DEPTH ensures Slot(q) != taskId {
        SlotsDiffer(q, tail);
      }
      sqTail := (sqTail + 1) % DEPTH;
      taskList[taskId] := Task(taskId, payload);
      submitted := submitted + [Task(taskId, payload)];
      tail := tail + 1;
      dev := dev.(sent := dev.sent + 1);
      SentKeepsInv(head, seen, tail - 1, old(dev), 1);
    }
  }

  /** The reports taken and the ones left are the ones there were. */
  lemma TakenOff(d: Device, n: nat)
    requires n <= |d.unread|
    ensures var left := d.(unread := d.unread[n..]); left.(unread := d.unread[..n] + left.unread) == d
  {
    assert d.unread[..n] + d.unread[n..] == d.unread;
  }

  /** The first `idx` reports of a batch have been gone through. */
  ghost predicate Scanned(d: Device, reports: seq<Cqe>, idx: nat, tail: nat, read: nat) {
    idx <= |reports| && Inv(read, read, tail, d.(unread := reports[idx..] + d.unread))
  }

  lemma AllScanned(d: Device, reports: seq<Cqe>, tail: nat, read: nat)
    requires Scanned(d, reports, |reports|, tail, read)
    ensures Inv(read, read, tail, d)
  {
    assert reports[|reports|..] + d.unread == d.unread;
  }

  /** One more report of a batch. */
  lemma ScanStep(d: Device, reports: seq<Cqe>, idx: nat, tail: nat, seen: nat, read: nat)
    requires idx < |reports| && Scanned(d, reports, idx, tail, read) && seen <= read
    ensures var q := reports[idx].seqNo;
            && read <= q < |d.errors| && Scanned(d, reports, idx + 1, tail, q + 1)
            && (Clean(d, seen, q + 1) <==> Clean(d, seen, read) && reports[idx].error == 0)
  {
    var e := d.(unread := reports[idx..] + d.unread);
    assert e.unread[0] == reports[idx] && e.unread[1..] == reports[idx + 1..] + d.unread;
    ReadOne(read, read, tail, e);
    CleanStep(d, seen, read, reports[idx].seqNo);
  }

  lemma SentKeepsInv(head: nat, seen: nat, tail: nat, d: Device, n: nat)
    requires Inv(head, seen, tail, d)
    ensures Inv(head, seen, tail + n, d.(sent := d.sent + n))
  {
    var d' := d.(sent := d.sent + n);
    forall t | seen <= t < |d'.errors| && d'.errors[t] != 0 ensures Reported(d', t) {
      assert Reported(d, t);
    }
  }

  lemma CleanJoin(d: Device, a: nat, b: nat, c: nat)
    requires a <= b <= c <= |d.errors| && Clean(d, a, b)
    ensures Clean(d, a, c) <==> Clean(d, b, c)
  {
  }

  lemma CleanGrows(d: Device, d': Device, from: nat, to: nat)
    requires Grows(d, d') && to <= |d.errors|
    ensures Clean(d, from, to) <==> Clean(d', from, to)
  {
    assert forall t :: 0 <= t < |d.errors| ==> d'.errors[t] == d.errors[t];
  }

  lemma CleanStep(d: Device, head: nat, read: nat, q: nat)
    requires head <= read <= q < |d.errors| && Clean(d, read, q)
    ensures Clean(d, head, q + 1) <==> Clean(d, head, read) && d.errors[q] == 0
  {
  }
}
