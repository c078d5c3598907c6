/**
 * The all-reduce kernel: every rank's cores rendezvous on flags in shared memory, each core folds the block it
 * owns over all ranks and writes the result back to all ranks. Ranks and cores interleave freely.
 */
module AllReduce {
  import opened Arithmetic

  const TOTAL: nat := 16 * 2048
  const CORES: nat := 8
  const COPY_MASK: nat := 128

  type Block = seq<int>

  /** A rank's data in shared memory. */
  type Memory = m: seq<int> | |m| == TOTAL witness seq(TOTAL, _ => 0)

  datatype Id = Id(rank: nat, core: nat)

  ghost predicate IsId(ranks: nat, id: Id) {
    id.rank < ranks && id.core < CORES
  }

  // ---------- Layout ----------

  /** Elements each core folds: integer divisions, as in the kernel. */
  function BlockLen(ranks: nat): nat
    requires ranks > 0
  {
    TOTAL / ranks / CORES
  }

  function Offset(ranks: nat, id: Id): nat
    requires ranks > 0
  {
    (CORES * id.rank + id.core) * BlockLen(ranks)
  }

  ghost predicate Separate(a: nat, b: nat, len: nat) {
    a + len <= b || b + len <= a
  }

  /** Two owners' blocks never share an element, and no block runs past the data. */
  lemma BlocksApart(ranks: nat, a: Id, b: Id)
    requires ranks > 0 && IsId(ranks, a) && IsId(ranks, b)
    ensures a != b ==> Separate(Offset(ranks, a), Offset(ranks, b), BlockLen(ranks))
    ensures Offset(ranks, a) + BlockLen(ranks) <= TOTAL
  {
    var i, j, len := CORES * a.rank + a.core, CORES * b.rank + b.core, BlockLen(ranks);
    assert a != b ==> i != j;
    if i < j {
      MulStep(i, j, len);
    } else if j < i {
      MulStep(j, i, len);
    }
    assert i + 1 <= CORES * ranks;
    MulStep(i, CORES * ranks, len);
    Capacity(ranks);
  }

  lemma Capacity(ranks: nat)
    requires ranks > 0
    ensures CORES * ranks * BlockLen(ranks) <= TOTAL
  {
    var q := TOTAL / ranks;
    assert q * ranks <= TOTAL;
    assert q / CORES * CORES <= q;
    assert CORES * ranks * (q / CORES) == (q / CORES * CORES) * ranks;
    MulMono(q / CORES * CORES, q, ranks);
  }

  /** Number of ranks, the addition, every rank's input, and where the blocks lie. */
  datatype Task = Task(ranks: nat, add: (int, int) -> int, input: seq<Memory>, len: nat, offset: map<Id, nat>)

  ghost predicate TaskOk(t: Task) {
    && t.ranks > 0 && |t.input| == t.ranks
    && (forall id :: IsId(t.ranks, id) ==> id in t.offset && t.offset[id] + t.len <= TOTAL)
    && (forall a, b :: IsId(t.ranks, a) && IsId(t.ranks, b) && a != b ==> Separate(t.offset[a], t.offset[b], t.len))
  }

  /** The blocks are the ones the kernel computes from rank and core index. */
  ghost predicate Kernel(t: Task) {
    && TaskOk(t) && t.len == BlockLen(t.ranks)
    && forall id :: IsId(t.ranks, id) ==> t.offset[id] == Offset(t.ranks, id)
  }

  ghost function KernelTask(ranks: nat, add: (int, int) -> int, input: seq<Memory>): (t: Task)
    requires ranks > 0 && |input| == ranks
    ensures Kernel(t) && t.ranks == ranks && t.add == add && t.input == input
  {
    forall a, b | IsId(ranks, a) && IsId(ranks, b)
      ensures a != b ==> Separate(Offset(ranks, a), Offset(ranks, b), BlockLen(ranks))
      ensures Offset(ranks, a) + BlockLen(ranks) <= TOTAL
    {
      BlocksApart(ranks, a, b);
    }
    Task(ranks, add, input, BlockLen(ranks),
         map r: nat, c: nat | r < ranks && c < CORES :: Id(r, c) := Offset(ranks, Id(r, c)))
  }

  // ---------- Blocks in memory ----------

  ghost predicate InBlock(t: Task, id: Id, i: nat)
    requires TaskOk(t) && IsId(t.ranks, id)
  {
    t.offset[id] <= i < t.offset[id] + t.len
  }

  ghost function View(t: Task, m: Memory, id: Id): (b: Block)
    requires TaskOk(t) && IsId(t.ranks, id)
    ensures |b| == t.len
  {
    m[t.offset[id]..t.offset[id] + t.len]
  }

  ghost function Put(t: Task, m: Memory, id: Id, b: Block): (r: Memory)
    requires TaskOk(t) && IsId(t.ranks, id) && |b| == t.len
    ensures forall i :: 0 <= i < TOTAL ==> r[i] == if InBlock(t, id, i) then b[i - t.offset[id]] else m[i]
  {
    seq(TOTAL, i requires 0 <= i < TOTAL => if InBlock(t, id, i) then b[i - t.offset[id]] else m[i])
  }

  lemma PutView(t: Task, m: Memory, id: Id, b: Block)
    requires TaskOk(t) && IsId(t.ranks, id) && |b| == t.len
    ensures View(t, Put(t, m, id, b), id) == b
  {
  }

  /** Writing one block leaves every other block as it is. */
  lemma PutOther(t: Task, m: Memory, id: Id, b: Block, other: Id)
    requires TaskOk(t) && IsId(t.ranks, id) && |b| == t.len && IsId(t.ranks, other) && other != id
    ensures View(t, Put(t, m, id, b), other) == View(t, m, other)
  {
    assert Separate(t.offset[id], t.offset[other], t.len);
  }

  // ---------- Local arithmetic ----------

  ghost function VecAdd(add: (int, int) -> int, a: Block, b: Block): (r: Block)
    requires |a| == |b|
    ensures |r| == |a| && forall i :: 0 <= i < |a| ==> r[i] == add(a[i], b[i])
  {
    seq(|a|, i requires 0 <= i < |a| => add(a[i], b[i]))
  }

  ghost predicate SameLength(inputs: seq<Block>) {
    forall j :: 0 <= j < |inputs| ==> |inputs[j]| == |inputs[0]|
  }

  /** The rank-order fold of the inputs of one block. */
  ghost function Fold(add: (int, int) -> int, inputs: seq<Block>, k: nat): Block
    requires k < |inputs| && SameLength(inputs)
    ensures |Fold(add, inputs, k)| == |inputs[0]|
  {
    if k == 0 then inputs[0] else VecAdd(add, inputs[k], Fold(add, inputs, k - 1))
  }

  /** The vector copy moves whole repeats of the mask and leaves the rest of the destination. */
  ghost function CopyRepeats(dst: Block, src: Block): Block
    requires |dst| == |src|
  {
    var k := |src| / COPY_MASK * COPY_MASK;
    src[..k] + dst[k..]
  }

  /** The buffer a core accumulates in after folding in rank `k`. */
  ghost function Carried(add: (int, int) -> int, inputs: seq<Block>, k: nat): (r: Block)
    requires k < |inputs| && SameLength(inputs)
    ensures |r| == |inputs[0]|
  {
    if k == 0 then inputs[0]
    else
      var cal := Carried(add, inputs, k - 1);
      CopyRepeats(cal, VecAdd(add, inputs[k], cal))
  }

  // ---------- The machine ----------

  datatype Pc = Start | WaitReady(k: nat) | Accumulate(k: nat) | Store(k: nat) | WaitDone(k: nat)

  datatype Core = Core(pc: Pc, cal: Block, out: Block)

  datatype World = World(started: set<nat>, data: seq<Memory>, ready: set<Id>, done: set<Id>, cores: map<Id, Core>)

  ghost predicate Shape(w: World, t: Task) {
    && |w.data| == t.ranks
    && forall id :: IsId(t.ranks, id) ==> id in w.cores && |w.cores[id].cal| == |w.cores[id].out| == t.len
  }

  datatype Step = LoadInput(rank: nat) | Advance(id: Id)

  /** A core takes a step unless it is spinning on a flag that is not set or has finished. */
  ghost predicate Enabled(w: World, t: Task, s: Step) {
    && TaskOk(t) && Shape(w, t)
    && match s
       case LoadInput(r) => r < t.ranks && r !in w.started
       case Advance(id) =>
         && IsId(t.ranks, id)
         && match w.cores[id].pc
            case Start => id.rank in w.started
            case WaitReady(k) => k < t.ranks ==> Id(k, id.core) in w.ready
            case Accumulate(k) => true
            case Store(k) => true
            case WaitDone(k) => k < t.ranks && Id(k, id.core) in w.done
  }

  /** The kernel's own step on a core, given the flags and the memory it sees. */
  ghost function Advanced(w: World, t: Task, id: Id): World
    requires Enabled(w, t, Advance(id))
  {
    var c := w.cores[id];
    match c.pc
    case Start => w.(ready := w.ready + {id}, cores := w.cores[id := c.(pc := WaitReady(0))])
    case WaitReady(k) =>
      if k < t.ranks then w.(cores := w.cores[id := c.(pc := WaitReady(k + 1))])
      else w.(cores := w.cores[id := c.(pc := Accumulate(1), cal := View(t, w.data[0], id))])
    case Accumulate(k) =>
      if k < t.ranks then
        var out := VecAdd(t.add, View(t, w.data[k], id), c.cal);
        var cal := if k + 1 < t.ranks then CopyRepeats(c.cal, out) else c.cal;
        w.(cores := w.cores[id := Core(Accumulate(k + 1), cal, out)])
      else w.(cores := w.cores[id := c.(pc := Store(0))])
    case Store(k) =>
      if k < t.ranks then
        w.(data := w.data[k := Put(t, w.data[k], id, c.out)], cores := w.cores[id := c.(pc := Store(k + 1))])
      else w.(done := w.done + {id}, cores := w.cores[id := c.(pc := WaitDone(0))])
    case WaitDone(k) => w.(cores := w.cores[id := c.(pc := WaitDone(k + 1))])
  }

  ghost function Next(w: World, t: Task, s: Step): World
    requires Enabled(w, t, s)
  {
    match s
    case Advance(id) => Advanced(w, t, id)
    case LoadInput(r) => w.(started := w.started + {r}, data := w.data[r := t.input[r]])
  }

  ghost predicate Initial(w: World, t: Task) {
    && Shape(w, t) && w.started == {} && w.ready == {} && w.done == {}
    && forall id :: IsId(t.ranks, id) ==> w.cores[id].pc == Start
  }

  ghost predicate Reaches(w: World, t: Task, steps: seq<Step>, v: World)
    decreases |steps|
  {
    if steps == [] then w == v
    else Enabled(w, t, steps[0]) && Reaches(Next(w, t, steps[0]), t, steps[1..], v)
  }

  /** A core's step changes no element outside its block, on any rank. */
  lemma OnlyOwnElements(w: World, t: Task, id: Id, r: nat, i: nat)
    requires Enabled(w, t, Advance(id)) && r < t.ranks && i < TOTAL && !InBlock(t, id, i)
    ensures |Advanced(w, t, id).data| == t.ranks && Advanced(w, t, id).data[r][i] == w.data[r][i]
  {
  }

  /** Nor does it depend on any. */
  lemma OnlyOwnBlocks(w: World, x: World, t: Task, id: Id, r: nat)
    requires Enabled(w, t, Advance(id)) && Enabled(x, t, Advance(id)) && r < t.ranks
    requires x.cores[id] == w.cores[id]
    requires forall q: nat :: q < t.ranks ==> View(t, x.data[q], id) == View(t, w.data[q], id)
    ensures Advanced(w, t, id).cores[id] == Advanced(x, t, id).cores[id]
    ensures |Advanced(w, t, id).data| == |Advanced(x, t, id).data| == t.ranks
    ensures View(t, Advanced(w, t, id).data[r], id) == View(t, Advanced(x, t, id).data[r], id)
  {
    assert View(t, x.data[r], id) == View(t, w.data[r], id) && View(t, x.data[0], id) == View(t, w.data[0], id);
    PutView(t, w.data[r], id, w.cores[id].out);
    PutView(t, x.data[r], id, w.cores[id].out);
  }

  // ---------- What every step keeps ----------

  ghost function Inputs(t: Task, id: Id): (s: seq<Block>)
    requires TaskOk(t) && IsId(t.ranks, id)
    ensures |s| == t.ranks && SameLength(s) && forall j :: 0 <= j < |s| ==> s[j] == View(t, t.input[j], id)
  {
    seq(t.ranks, j requires 0 <= j < t.ranks => View(t, t.input[j], id))
  }

  ghost function Carry(t: Task, id: Id, k: nat): (r: Block)
    requires TaskOk(t) && IsId(t.ranks, id) && k < t.ranks
    ensures |r| == t.len
  {
    Carried(t.add, Inputs(t, id), k)
  }

  /** What the owner of a block stores: the last rank's input added to what it carried so far. */
  ghost function Result(t: Task, id: Id): (r: Block)
    requires TaskOk(t) && t.ranks >= 2 && IsId(t.ranks, id)
    ensures |r| == t.len
  {
    VecAdd(t.add, View(t, t.input[t.ranks - 1], id), Carry(t, id, t.ranks - 2))
  }

  ghost predicate AllStarted(w: World, t: Task) {
    forall r: nat :: r < t.ranks ==> r in w.started
  }

  /** The owner's view of its block on rank `r`, by how far the owner has come. */
  ghost predicate BlockInv(w: World, t: Task, id: Id, r: nat)
    requires TaskOk(t) && t.ranks >= 2 && Shape(w, t) && IsId(t.ranks, id) && r < t.ranks
  {
    match w.cores[id].pc
    case Store(k) => View(t, w.data[r], id) == if r < k then Result(t, id) else View(t, t.input[r], id)
    case WaitDone(_) => View(t, w.data[r], id) == Result(t, id)
    case _ => r in w.started ==> View(t, w.data[r], id) == View(t, t.input[r], id)
  }

  ghost predicate FlagInv(w: World, t: Task, id: Id)
    requires Shape(w, t) && IsId(t.ranks, id)
  {
    var pc := w.cores[id].pc;
    && (id in w.ready <==> !pc.Start?) && (id in w.ready ==> id.rank in w.started)
    && (id in w.done <==> pc.WaitDone?)
  }

  ghost predicate PcInv(w: World, t: Task, id: Id)
    requires TaskOk(t) && t.ranks >= 2 && Shape(w, t) && IsId(t.ranks, id)
  {
    var c := w.cores[id];
    match c.pc
    case Start => true
    case WaitReady(k) => k <= t.ranks && forall j: nat :: j < k ==> Id(j, id.core) in w.ready
    case Accumulate(k) =>
      && 1 <= k <= t.ranks && AllStarted(w, t)
      && (k < t.ranks ==> c.cal == Carry(t, id, k - 1)) && (k == t.ranks ==> c.out == Result(t, id))
    case Store(k) => k <= t.ranks && AllStarted(w, t) && c.out == Result(t, id)
    case WaitDone(k) => k <= t.ranks && AllStarted(w, t) && forall j: nat :: j < k ==> Id(j, id.core) in w.done
  }

  ghost predicate CoreInv(w: World, t: Task, id: Id)
    requires TaskOk(t) && t.ranks >= 2 && Shape(w, t) && IsId(t.ranks, id)
  {
    && FlagInv(w, t, id) && PcInv(w, t, id)
    && forall r: nat :: r < t.ranks ==> BlockInv(w, t, id, r)
  }

  ghost predicate Outside(t: Task, i: nat)
    requires TaskOk(t)
  {
    forall id :: IsId(t.ranks, id) ==> !InBlock(t, id, i)
  }

  /** What no block covers stays as loaded. */
  ghost predicate OutsideInv(w: World, t: Task)
    requires TaskOk(t) && Shape(w, t)
  {
    forall r: nat, i: nat :: r < t.ranks && r in w.started && i < TOTAL && Outside(t, i) ==>
      w.data[r][i] == t.input[r][i]
  }

  ghost predicate Inv(w: World, t: Task) {
    && TaskOk(t) && t.ranks >= 2 && Shape(w, t) && OutsideInv(w, t)
    && forall id :: IsId(t.ranks, id) ==> CoreInv(w, t, id)
  }

  lemma AdvanceKeepsShape(w: World, t: Task, id: Id)
    requires Enabled(w, t, Advance(id))
    ensures Shape(Advanced(w, t, id), t) && Advanced(w, t, id).started == w.started
  {
    var v := Advanced(w, t, id);
    assert |v.cores[id].cal| == |v.cores[id].out| == t.len;
  }

  lemma AdvanceOutside(w: World, t: Task, id: Id)
    requires Enabled(w, t, Advance(id)) && OutsideInv(w, t) && Shape(Advanced(w, t, id), t)
    requires Advanced(w, t, id).started == w.started
    ensures OutsideInv(Advanced(w, t, id), t)
  {
    var v := Advanced(w, t, id);
    forall r: nat, i: nat | r < t.ranks && r in v.started && i < TOTAL && Outside(t, i)
      ensures v.data[r][i] == t.input[r][i]
    {
      OnlyOwnElements(w, t, id, r, i);
    }
  }

  /** A core that has seen every rank ready knows that every rank's input is in place. */
  lemma ReadyMeansStarted(w: World, t: Task, id: Id)
    requires Inv(w, t) && IsId(t.ranks, id)
    requires forall j: nat :: j < t.ranks ==> Id(j, id.core) in w.ready
    ensures AllStarted(w, t)
  {
    forall r: nat | r < t.ranks ensures r in w.started {
      assert CoreInv(w, t, Id(r, id.core));
    }
  }

  lemma FoldStep(w: World, t: Task, id: Id, k: nat)
    requires TaskOk(t) && t.ranks >= 2 && Shape(w, t) && IsId(t.ranks, id)
    requires w.cores[id].pc == Accumulate(k) && 1 <= k < t.ranks && w.cores[id].cal == Carry(t, id, k - 1)
    requires View(t, w.data[k], id) == View(t, t.input[k], id)
    ensures var out := VecAdd(t.add, View(t, w.data[k], id), w.cores[id].cal);
            && (k + 1 == t.ranks ==> out == Result(t, id))
            && CopyRepeats(w.cores[id].cal, out) == Carry(t, id, k)
  {
    assert Inputs(t, id)[k] == View(t, t.input[k], id);
  }

  lemma AdvanceBlock(w: World, t: Task, id: Id, r: nat)
    requires Enabled(w, t, Advance(id)) && t.ranks >= 2 && r < t.ranks
    requires CoreInv(w, t, id) && Shape(Advanced(w, t, id), t)
    ensures BlockInv(Advanced(w, t, id), t, id, r)
  {
    assert BlockInv(w, t, id, r);
    PutView(t, w.data[r], id, w.cores[id].out);
  }

  lemma AdvanceOwn(w: World, t: Task, id: Id)
    requires Inv(w, t) && Enabled(w, t, Advance(id)) && Shape(Advanced(w, t, id), t)
    ensures CoreInv(Advanced(w, t, id), t, id)
  {
    assert CoreInv(w, t, id);
    forall r: nat | r < t.ranks ensures BlockInv(Advanced(w, t, id), t, id, r) {
      AdvanceBlock(w, t, id, r);
    }
    AdvancePc(w, t, id);
  }

  lemma AdvancePc(w: World, t: Task, id: Id)
    requires Inv(w, t) && Enabled(w, t, Advance(id)) && Shape(Advanced(w, t, id), t)
    ensures PcInv(Advanced(w, t, id), t, id)
  {
    assert CoreInv(w, t, id);
    match w.cores[id].pc
    case WaitReady(k) =>
      if k == t.ranks {
        ReadyMeansStarted(w, t, id);
      }
      AdvanceWait(w, t, id);
    case Accumulate(k) =>
      AdvanceFold(w, t, id, k);
    case _ =>
      AdvanceLate(w, t, id);
  }

  lemma AdvanceLate(w: World, t: Task, id: Id)
    requires Enabled(w, t, Advance(id)) && t.ranks >= 2 && Shape(Advanced(w, t, id), t) && PcInv(w, t, id)
    requires var pc := w.cores[id].pc; pc.Start? || pc.Store? || pc.WaitDone?
    ensures PcInv(Advanced(w, t, id), t, id)
  {
  }

  lemma AdvanceFold(w: World, t: Task, id: Id, k: nat)
    requires Enabled(w, t, Advance(id)) && t.ranks >= 2 && Shape(Advanced(w, t, id), t) && CoreInv(w, t, id)
    requires w.cores[id].pc == Accumulate(k)
    ensures PcInv(Advanced(w, t, id), t, id)
  {
    assert AllStarted(w, t) && Advanced(w, t, id).started == w.started;
    if k < t.ranks {
      BeforeFold(w, t, id, k);
      FoldStep(w, t, id, k);
    }
  }

  lemma BeforeFold(w: World, t: Task, id: Id, k: nat)
    requires TaskOk(t) && t.ranks >= 2 && Shape(w, t) && IsId(t.ranks, id) && CoreInv(w, t, id)
    requires w.cores[id].pc == Accumulate(k) && k < t.ranks
    ensures 1 <= k && w.cores[id].cal == Carry(t, id, k - 1)
    ensures View(t, w.data[k], id) == View(t, t.input[k], id)
  {
    assert k in w.started && BlockInv(w, t, id, k);
  }

  lemma AdvanceWait(w: World, t: Task, id: Id)
    requires Enabled(w, t, Advance(id)) && t.ranks >= 2 && Shape(Advanced(w, t, id), t) && CoreInv(w, t, id)
    requires w.cores[id].pc.WaitReady? && (w.cores[id].pc.k == t.ranks ==> AllStarted(w, t))
    ensures PcInv(Advanced(w, t, id), t, id)
  {
    assert BlockInv(w, t, id, 0);
    assert w.cores[id].pc.k == t.ranks ==> View(t, w.data[0], id) == View(t, t.input[0], id) == Carry(t, id, 0);
  }

  /** A step changes no other core's registers, flags or blocks. */
  ghost predicate Undisturbed(w: World, v: World, t: Task, id: Id)
    requires TaskOk(t) && IsId(t.ranks, id) && Shape(w, t) && Shape(v, t)
  {
    && v.cores[id] == w.cores[id] && v.started == w.started
    && w.ready <= v.ready && w.done <= v.done && (id in v.ready ==> id in w.ready) && (id in v.done ==> id in w.done)
    && forall r: nat :: r < t.ranks ==> View(t, v.data[r], id) == View(t, w.data[r], id)
  }

  lemma AdvanceOther(w: World, t: Task, id: Id, other: Id)
    requires Enabled(w, t, Advance(id)) && IsId(t.ranks, other) && other != id && Shape(Advanced(w, t, id), t)
    ensures Undisturbed(w, Advanced(w, t, id), t, other)
  {
    var v := Advanced(w, t, id);
    forall r: nat | r < t.ranks ensures View(t, v.data[r], other) == View(t, w.data[r], other) {
      PutOther(t, w.data[r], id, w.cores[id].out, other);
    }
  }

  lemma UndisturbedInv(w: World, v: World, t: Task, id: Id)
    requires TaskOk(t) && t.ranks >= 2 && IsId(t.ranks, id) && Shape(w, t) && Shape(v, t)
    requires CoreInv(w, t, id) && Undisturbed(w, v, t, id)
    ensures CoreInv(v, t, id)
  {
    forall r: nat | r < t.ranks ensures BlockInv(v, t, id, r) {
      assert BlockInv(w, t, id, r);
    }
  }

  lemma LoadKeepsInv(w: World, t: Task, r: nat)
    requires Inv(w, t) && Enabled(w, t, LoadInput(r))
    ensures Inv(Next(w, t, LoadInput(r)), t)
  {
    var v := Next(w, t, LoadInput(r));
    assert Shape(v, t);
    forall id | IsId(t.ranks, id) ensures CoreInv(v, t, id) {
      assert CoreInv(w, t, id);
      forall q: nat | q < t.ranks ensures BlockInv(v, t, id, q) {
        assert BlockInv(w, t, id, q);
      }
    }
  }

  lemma NextKeepsInv(w: World, t: Task, s: Step)
    requires Inv(w, t) && Enabled(w, t, s)
    ensures Inv(Next(w, t, s), t)
  {
    match s
    case LoadInput(r) => LoadKeepsInv(w, t, r);
    case Advance(id) =>
      AdvanceKeepsShape(w, t, id);
      AdvanceOutside(w, t, id);
      forall other | IsId(t.ranks, other) ensures CoreInv(Advanced(w, t, id), t, other) {
        if other == id {
          AdvanceOwn(w, t, id);
        } else {
          AdvanceOther(w, t, id, other);
          UndisturbedInv(w, Advanced(w, t, id), t, other);
        }
      }
  }

  lemma {:induction false} ReachedInv(w: World, t: Task, steps: seq<Step>, v: World)
    requires Inv(w, t) && Reaches(w, t, steps, v)
    ensures Inv(v, t)
    decreases |steps|
  {
    if steps != [] {
      NextKeepsInv(w, t, steps[0]);
      ReachedInv(Next(w, t, steps[0]), t, steps[1..], v);
    }
  }

  lemma InitialInv(w: World, t: Task)
    requires TaskOk(t) && t.ranks >= 2 && Initial(w, t)
    ensures Inv(w, t)
  {
    forall id | IsId(t.ranks, id) ensures CoreInv(w, t, id) {
      forall r: nat | r < t.ranks ensures BlockInv(w, t, id, r) {
      }
    }
  }

  ghost predicate RankFinished(v: World, t: Task, rank: nat) {
    forall c: nat :: c < CORES ==> Id(rank, c) in v.cores && v.cores[Id(rank, c)].pc == WaitDone(t.ranks)
  }

  /**
   * For every interleaving of two ranks or more, once the cores of any one rank have finished, every block of
   * every rank holds its owner's result, and what no block covers is as loaded.
   */
  lemma FinishedRankSeesAllResults(w: World, t: Task, steps: seq<Step>, v: World, rank: nat)
    requires TaskOk(t) && t.ranks >= 2 && Initial(w, t) && Reaches(w, t, steps, v) && rank < t.ranks
    requires RankFinished(v, t, rank)
    ensures |v.data| == t.ranks
    ensures forall r: nat, id :: r < t.ranks && IsId(t.ranks, id) ==> View(t, v.data[r], id) == Result(t, id)
    ensures forall r: nat, i: nat :: r < t.ranks && i < TOTAL && Outside(t, i) ==> v.data[r][i] == t.input[r][i]
  {
    InitialInv(w, t);
    ReachedInv(w, t, steps, v);
    forall r: nat, id | r < t.ranks && IsId(t.ranks, id) ensures View(t, v.data[r], id) == Result(t, id) {
      assert CoreInv(v, t, Id(rank, id.core));
      assert CoreInv(v, t, id) && BlockInv(v, t, id, r);
    }
    assert CoreInv(v, t, Id(rank, 0)) && AllStarted(v, t);
  }

  // ---------- When the result is the fold ----------

  /** The result of every block is the rank-order fold of the original inputs. */
  ghost predicate Reduces(t: Task)
    requires TaskOk(t) && t.ranks >= 2
  {
    forall id :: IsId(t.ranks, id) ==> Result(t, id) == Fold(t.add, Inputs(t, id), t.ranks - 1)
  }

  /** No tail is lost between additions: there is only one, or the copies move whole blocks. */
  ghost predicate WholeCopies(ranks: nat, len: nat) {
    ranks == 2 || len % COPY_MASK == 0
  }

  lemma {:induction false} CarriesFold(add: (int, int) -> int, inputs: seq<Block>, k: nat)
    requires k < |inputs| && SameLength(inputs) && (k > 0 ==> |inputs[0]| % COPY_MASK == 0)
    ensures Carried(add, inputs, k) == Fold(add, inputs, k)
  {
    if k > 0 {
      CarriesFold(add, inputs, k - 1);
    }
  }

  lemma WholeReduces(t: Task)
    requires TaskOk(t) && t.ranks >= 2 && WholeCopies(t.ranks, t.len)
    ensures Reduces(t)
  {
    forall id | IsId(t.ranks, id) ensures Result(t, id) == Fold(t.add, Inputs(t, id), t.ranks - 1) {
      CarriesFold(t.add, Inputs(t, id), t.ranks - 2);
    }
  }

  /** An element past the last whole repeat is never copied: it carries rank 0's input throughout. */
  lemma {:induction false} TailStays(add: (int, int) -> int, inputs: seq<Block>, k: nat, i: nat)
    requires k < |inputs| && SameLength(inputs) && PastRepeats(|inputs[0]|, i)
    ensures Carried(add, inputs, k)[i] == inputs[0][i]
  {
    if k > 0 {
      TailStays(add, inputs, k - 1, i);
      var cal := Carried(add, inputs, k - 1);
      TailKept(cal, VecAdd(add, inputs[k], cal), i);
    }
  }

  ghost predicate PastRepeats(len: nat, i: nat) {
    len / COPY_MASK * COPY_MASK <= i < len
  }

  lemma {:induction false} OnesFold(add: (int, int) -> int, inputs: seq<Block>, k: nat, i: nat)
    requires k < |inputs| && SameLength(inputs) && i < |inputs[0]|
    requires (forall x :: add(1, x) == 1 + x) && forall j :: 0 <= j < |inputs| ==> inputs[j][i] == 1
    ensures Fold(add, inputs, k)[i] == k + 1
  {
    if k > 0 {
      OnesFold(add, inputs, k - 1, i);
      assert inputs[k][i] == 1;
    }
  }

  lemma TailKept(dst: Block, src: Block, i: nat)
    requires |dst| == |src| && PastRepeats(|src|, i)
    ensures CopyRepeats(dst, src)[i] == dst[i]
  {
  }

  const ONE: Memory := seq(TOTAL, _ => 1)

  /** Every rank contributes ones. */
  ghost predicate AllOnes(t: Task) {
    (forall x :: t.add(1, x) == 1 + x) && forall j :: 0 <= j < |t.input| ==> t.input[j] == ONE
  }

  lemma Ones(ranks: nat) returns (t: Task)
    requires ranks > 0
    ensures Kernel(t) && t.ranks == ranks && AllOnes(t)
  {
    t := KernelTask(ranks, (a, b) => a + b, seq(ranks, _ => ONE));
  }

  lemma OnesLostIn(add: (int, int) -> int, inputs: seq<Block>, i: nat)
    requires |inputs| > 2 && SameLength(inputs) && PastRepeats(|inputs[0]|, i)
    requires (forall x :: add(1, x) == 1 + x) && forall j :: 0 <= j < |inputs| ==> inputs[j][i] == 1
    ensures VecAdd(add, inputs[|inputs| - 1], Carried(add, inputs, |inputs| - 2))[i] == 2
    ensures Fold(add, inputs, |inputs| - 1)[i] == |inputs|
  {
    OnesFold(add, inputs, |inputs| - 1, i);
    TailStays(add, inputs, |inputs| - 2, i);
  }

  lemma OnesAreLost(t: Task)
    requires TaskOk(t) && t.ranks > 2 && t.len % COPY_MASK != 0 && AllOnes(t)
    ensures IsId(t.ranks, Id(0, 0)) && t.len > 0
    ensures Result(t, Id(0, 0))[t.len - 1] != Fold(t.add, Inputs(t, Id(0, 0)), t.ranks - 1)[t.len - 1]
  {
    var id, last := Id(0, 0), t.len - 1;
    assert IsId(t.ranks, id);
    var inputs := Inputs(t, id);
    OnesEverywhere(t, id, last);
    OnesLostIn(t.add, inputs, last);
    assert View(t, t.input[t.ranks - 1], id) == inputs[t.ranks - 1];
  }

  lemma OnesFail(t: Task)
    requires TaskOk(t) && t.ranks > 2 && t.len % COPY_MASK != 0 && AllOnes(t)
    ensures !Reduces(t)
  {
    OnesAreLost(t);
    assert IsId(t.ranks, Id(0, 0));
  }

  lemma OnesEverywhere(t: Task, id: Id, i: nat)
    requires TaskOk(t) && AllOnes(t) && IsId(t.ranks, id) && i < t.len
    ensures forall j :: 0 <= j < t.ranks ==> Inputs(t, id)[j][i] == 1
  {
    assert View(t, ONE, id)[i] == 1;
  }

  ghost predicate AlwaysReduces(ranks: nat)
    requires ranks >= 2
  {
    forall t: Task :: Kernel(t) && t.ranks == ranks ==> Reduces(t)
  }

  /** The kernel folds every block over all ranks, for any addition and inputs, exactly when no tail is lost. */
  lemma ReducesIff(ranks: nat)
    requires ranks >= 2
    ensures AlwaysReduces(ranks) <==> WholeCopies(ranks, BlockLen(ranks))
  {
    if WholeCopies(ranks, BlockLen(ranks)) {
      forall t: Task | Kernel(t) && t.ranks == ranks ensures Reduces(t) {
        WholeReduces(t);
      }
    } else {
      var t := Ones(ranks);
      OnesFail(t);
    }
  }

  // ---------- Which rank counts are right ----------

  ghost predicate Covers(t: Task)
    requires TaskOk(t)
  {
    forall i: nat :: i < TOTAL ==> !Outside(t, i)
  }

  /** The blocks reach every element exactly when no division in the kernel rounds. */
  lemma CoversIff(t: Task)
    requires Kernel(t)
    ensures Covers(t) <==> CORES * t.ranks * BlockLen(t.ranks) == TOTAL
  {
    var len, n := BlockLen(t.ranks), CORES * t.ranks;
    Capacity(t.ranks);
    if n * len == TOTAL {
      forall i: nat | i < TOTAL ensures !Outside(t, i) {
        var id := OwnerOf(t.ranks, i);
        assert InBlock(t, id, i);
      }
    } else {
      forall id | IsId(t.ranks, id) ensures !InBlock(t, id, TOTAL - 1) {
        MulStep(CORES * id.rank + id.core, n, len);
      }
      assert Outside(t, TOTAL - 1);
    }
  }

  lemma OwnerOf(ranks: nat, i: nat) returns (id: Id)
    requires ranks > 0 && i < CORES * ranks * BlockLen(ranks)
    ensures IsId(ranks, id) && Offset(ranks, id) <= i < Offset(ranks, id) + BlockLen(ranks)
  {
    var len := BlockLen(ranks);
    Quotient(i, len, CORES * ranks);
    var b := i / len;
    id := Id(b / CORES, b % CORES);
    assert CORES * id.rank + id.core == b && IsId(ranks, id);
    assert Offset(ranks, id) == b * len;
  }

  /** Within the kernel's limit of 32 ranks, no tail is lost for exactly the powers of two above one; they cover. */
  lemma RankCounts(ranks: nat)
    requires 2 <= ranks <= 32
    ensures WholeCopies(ranks, BlockLen(ranks)) <==> ranks in {2, 4, 8, 16, 32}
    ensures ranks in {2, 4, 8, 16, 32} ==> CORES * ranks * BlockLen(ranks) == TOTAL
  {
    if ranks <= 16 {
      assert BlockLen(ranks) == [4096, 2048, 1365, 1024, 819, 682, 585, 512,
                                 455, 409, 372, 341, 315, 292, 273, 256][ranks - 1];
    } else {
      assert BlockLen(ranks) == [240, 227, 215, 204, 195, 186, 178, 170,
                                 163, 157, 151, 146, 141, 136, 132, 128][ranks - 17];
    }
  }

  /** One element folded over the ranks. */
  ghost function FoldAt(add: (int, int) -> int, input: seq<Memory>, k: nat, i: nat): int
    requires k < |input| && i < TOTAL
  {
    if k == 0 then input[0][i] else add(input[k][i], FoldAt(add, input, k - 1, i))
  }

  lemma {:induction false} FoldElement(t: Task, id: Id, k: nat, i: nat)
    requires TaskOk(t) && IsId(t.ranks, id) && k < t.ranks && i < t.len
    ensures Fold(t.add, Inputs(t, id), k)[i] == FoldAt(t.add, t.input, k, t.offset[id] + i)
  {
    if k > 0 {
      FoldElement(t, id, k - 1, i);
    }
  }

  /**
   * For 2, 4, 8, 16 or 32 ranks and every interleaving, once the cores of any one rank have finished, every element of
   * every rank's data is the rank-order fold of the original inputs.
   */
  lemma AllReduceIsFold(w: World, t: Task, steps: seq<Step>, v: World, rank: nat)
    requires Kernel(t) && t.ranks in {2, 4, 8, 16, 32} && rank < t.ranks
    requires Initial(w, t) && Reaches(w, t, steps, v) && RankFinished(v, t, rank)
    ensures |v.data| == t.ranks
    ensures forall r: nat, i: nat :: r < t.ranks && i < TOTAL ==> v.data[r][i] == FoldAt(t.add, t.input, t.ranks - 1, i)
  {
    RankCounts(t.ranks);
    WholeReduces(t);
    FinishedRankSeesAllResults(w, t, steps, v, rank);
    forall r: nat, i: nat | r < t.ranks && i < TOTAL ensures v.data[r][i] == FoldAt(t.add, t.input, t.ranks - 1, i) {
      var id := OwnerOf(t.ranks, i);
      FinishedElement(t, v.data[r], id, i);
    }
  }

  lemma FinishedElement(t: Task, m: Memory, id: Id, i: nat)
    requires TaskOk(t) && t.ranks >= 2 && Reduces(t) && IsId(t.ranks, id) && InBlock(t, id, i)
    requires View(t, m, id) == Result(t, id)
    ensures i < TOTAL && m[i] == FoldAt(t.add, t.input, t.ranks - 1, i)
  {
    var j := i - t.offset[id];
    FoldElement(t, id, t.ranks - 1, j);
    assert m[i] == View(t, m, id)[j];
  }

  /** Of 2 to 32 ranks these are the only ones: any other count has an input whose finished runs are all wrong. */
  lemma OtherCountsFail(ranks: nat) returns (t: Task, i: nat)
    requires 2 <= ranks <= 32 && ranks !in {2, 4, 8, 16, 32}
    ensures Kernel(t) && t.ranks == ranks && i < TOTAL
    ensures forall w, steps, v, rank :: FinishedRun(w, t, steps, v, rank) ==>
              |v.data| == ranks && forall r :: 0 <= r < ranks ==> v.data[r][i] != FoldAt(t.add, t.input, ranks - 1, i)
  {
    RankCounts(ranks);
    t := Ones(ranks);
    i := LostElement(t);
    forall w, steps, v, rank | FinishedRun(w, t, steps, v, rank)
      ensures |v.data| == ranks
      ensures forall r :: 0 <= r < ranks ==> v.data[r][i] != FoldAt(t.add, t.input, ranks - 1, i)
    {
      LostInRun(w, t, steps, v, rank, i);
    }
  }

  lemma LostElement(t: Task) returns (i: nat)
    requires TaskOk(t) && t.ranks > 2 && t.len % COPY_MASK != 0 && AllOnes(t)
    ensures i < TOTAL
    ensures forall m: Memory :: View(t, m, Id(0, 0)) == Result(t, Id(0, 0)) ==>
              m[i] != FoldAt(t.add, t.input, t.ranks - 1, i)
  {
    OnesAreLost(t);
    i := t.offset[Id(0, 0)] + (t.len - 1);
    forall m: Memory | View(t, m, Id(0, 0)) == Result(t, Id(0, 0))
      ensures m[i] != FoldAt(t.add, t.input, t.ranks - 1, i)
    {
      WrongElement(t, m, Id(0, 0), t.len - 1);
    }
  }

  /** Some schedule brought the cores of the rank to their end. */
  ghost predicate FinishedRun(w: World, t: Task, steps: seq<Step>, v: World, rank: nat) {
    Initial(w, t) && Reaches(w, t, steps, v) && rank < t.ranks && RankFinished(v, t, rank)
  }

  lemma LostInRun(w: World, t: Task, steps: seq<Step>, v: World, rank: nat, i: nat)
    requires TaskOk(t) && t.ranks >= 2 && FinishedRun(w, t, steps, v, rank) && i < TOTAL
    requires forall m: Memory :: View(t, m, Id(0, 0)) == Result(t, Id(0, 0)) ==>
               m[i] != FoldAt(t.add, t.input, t.ranks - 1, i)
    ensures |v.data| == t.ranks
    ensures forall r :: 0 <= r < t.ranks ==> v.data[r][i] != FoldAt(t.add, t.input, t.ranks - 1, i)
  {
    FinishedRankSeesAllResults(w, t, steps, v, rank);
    forall r | 0 <= r < t.ranks ensures v.data[r][i] != FoldAt(t.add, t.input, t.ranks - 1, i) {
      assert View(t, v.data[r], Id(0, 0)) == Result(t, Id(0, 0));
    }
  }

  lemma WrongElement(t: Task, m: Memory, id: Id, j: nat)
    requires TaskOk(t) && t.ranks >= 2 && IsId(t.ranks, id) && j < t.len && View(t, m, id) == Result(t, id)
    requires Result(t, id)[j] != Fold(t.add, Inputs(t, id), t.ranks - 1)[j]
    ensures m[t.offset[id] + j] != FoldAt(t.add, t.input, t.ranks - 1, t.offset[id] + j)
  {
    FoldElement(t, id, t.ranks - 1, j);
    assert View(t, m, id)[j] == m[t.offset[id] + j];
  }

  /** With one rank no addition runs, and the core stores whatever its result buffer held. */
  lemma SingleRankStoresLeftover(w: World, t: Task, id: Id) returns (steps: seq<Step>, v: World)
    requires TaskOk(t) && t.ranks == 1 && Initial(w, t) && IsId(1, id)
    ensures Reaches(w, t, steps, v) && |v.data| == 1 && View(t, v.data[0], id) == w.cores[id].out
  {
    var a := Advance(id);
    var w1 := Next(w, t, LoadInput(0));
    var w4 := ToStore(w1, t, id);
    v := Next(w4, t, a);
    PutView(t, w4.data[0], id, w.cores[id].out);
    var w2, w3 := Next(w1, t, a), Next(Next(w1, t, a), t, a);
    StepThen(w4, t, a, [], v);
    StepThen(Next(w3, t, a), t, a, [a] + [], v);
    StepThen(w3, t, a, [a] + ([a] + []), v);
    StepThen(w2, t, a, [a] + ([a] + ([a] + [])), v);
    StepThen(w1, t, a, [a] + ([a] + ([a] + ([a] + []))), v);
    StepThen(w, t, LoadInput(0), [a] + ([a] + ([a] + ([a] + ([a] + [])))), v);
    steps := [LoadInput(0)] + ([a] + ([a] + ([a] + ([a] + ([a] + [])))));
  }

  lemma ToStore(w: World, t: Task, id: Id) returns (v: World)
    requires TaskOk(t) && t.ranks == 1 && IsId(1, id) && Shape(w, t) && 0 in w.started && w.cores[id].pc == Start
    requires id == Id(0, id.core)
    ensures Enabled(w, t, Advance(id))
    ensures var w2 := Next(w, t, Advance(id));
            && Enabled(w2, t, Advance(id))
            && var w3 := Next(w2, t, Advance(id));
               && Enabled(w3, t, Advance(id))
               && var w4 := Next(w3, t, Advance(id));
                  Enabled(w4, t, Advance(id)) && v == Next(w4, t, Advance(id))
    ensures Shape(v, t) && v.cores[id].pc == Store(0) && v.cores[id].out == w.cores[id].out && v.data == w.data
  {
    v := Next(Next(Next(Next(w, t, Advance(id)), t, Advance(id)), t, Advance(id)), t, Advance(id));
  }

  lemma StepThen(w: World, t: Task, s: Step, rest: seq<Step>, v: World)
    requires Enabled(w, t, s) && Reaches(Next(w, t, s), t, rest, v)
    ensures Reaches(w, t, [s] + rest, v)
  {
    assert ([s] + rest)[1..] == rest && ([s] + rest)[0] == s;
  }
}
