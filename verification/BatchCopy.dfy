/**
 * The batch-copy kernel: blocks copy their share of the descriptors in any interleaving and then pass a token,
 * block by block, through a shared mask word.
 */
module BatchCopy {
  import opened Arithmetic
  import opened ChunkedCopy

  datatype Item = Item(src: nat, dst: nat, len: nat)

  // ---------- Shares ----------

  function Share(count: nat, num: nat): nat
    requires num > 0
  {
    (count + num - 1) / num
  }

  function First(count: nat, num: nat, b: nat): nat
    requires num > 0
  {
    Share(count, num) * b
  }

  function End(count: nat, num: nat, b: nat): nat
    requires num > 0
  {
    var e := First(count, num, b) + Share(count, num);
    if e < count then e else count
  }

  function Owner(count: nat, num: nat, i: nat): nat
    requires num > 0 && i < count
  {
    ShareCovers(count, num);
    i / Share(count, num)
  }

  lemma ShareCovers(count: nat, num: nat)
    requires num > 0
    ensures count <= num * Share(count, num) && (count > 0 ==> Share(count, num) > 0)
  {
    DivMod(count + num - 1, num);
  }

  /** Every descriptor belongs to exactly one block's share. */
  lemma SharesPartition(count: nat, num: nat, i: nat, b: nat)
    requires num > 0 && i < count && b < num
    ensures Owner(count, num, i) < num
    ensures First(count, num, b) <= i < End(count, num, b) <==> b == Owner(count, num, i)
  {
    var s, q := Share(count, num), Owner(count, num, i);
    ShareCovers(count, num);
    Quotient(i, s, num);
    if b < q {
      MulStep(b, q, s);
    } else if q < b {
      MulStep(q, b, s);
    }
  }

  // ---------- The machine ----------

  /** Between chunks of descriptor `i`, holding a chunk of it, waiting for the token, or through. */
  datatype Phase = Copying(i: nat, off: nat) | Loaded(i: nat, off: nat, buf: Memory) | Spinning | Finished

  /** `copies[i]` counts how often descriptor `i` has been completed. */
  datatype World = World(mem: Memory, blocks: seq<Phase>, mask: nat, copies: seq<nat>)

  /** The descriptors, and for each block the share it runs through; `owner` names the block of a descriptor. */
  datatype Batch = Batch(items: seq<Item>, num: nat, size: nat, first: seq<nat>, end: seq<nat>, owner: seq<nat>)

  ghost predicate Shares(t: Batch) {
    && |t.first| == |t.end| == t.num && |t.owner| == |t.items|
    && (forall b :: 0 <= b < t.num ==> t.end[b] <= |t.items|)
    && (forall i :: 0 <= i < |t.items| ==> t.owner[i] < t.num)
    && (forall i, b :: 0 <= i < |t.items| && 0 <= b < t.num ==> (t.first[b] <= i < t.end[b] <==> b == t.owner[i]))
  }

  /** The shares the kernel computes from the block index partition the descriptors. */
  ghost function KernelBatch(items: seq<Item>, num: nat, size: nat): (t: Batch)
    requires num > 0
    ensures Shares(t) && t.items == items && t.num == num && t.size == size
  {
    OwnersInRange(|items|, num);
    Batch(items, num, size,
          seq(num, b requires 0 <= b => First(|items|, num, b)),
          seq(num, b requires 0 <= b => End(|items|, num, b)),
          seq(|items|, i requires 0 <= i < |items| => Owner(|items|, num, i)))
  }

  lemma OwnersInRange(count: nat, num: nat)
    requires num > 0
    ensures forall i: nat :: i < count ==> Owner(count, num, i) < num
    ensures forall i: nat, b: nat :: i < count && b < num ==>
              (First(count, num, b) <= i < End(count, num, b) <==> b == Owner(count, num, i))
  {
    forall i: nat, b: nat | i < count && b < num
      ensures First(count, num, b) <= i < End(count, num, b) <==> b == Owner(count, num, i)
    {
      SharesPartition(count, num, i, b);
    }
    forall i: nat | i < count ensures Owner(count, num, i) < num {
      SharesPartition(count, num, i, 0);
    }
  }

  predicate Hits(at: nat, len: nat, p: nat) {
    at <= p < at + len
  }

  /** No destination meets another destination or any source. */
  ghost predicate Apart(items: seq<Item>) {
    && (forall i, j, p: nat :: 0 <= i < |items| && 0 <= j < |items| && i != j && Hits(items[i].dst, items[i].len, p) ==>
          !Hits(items[j].dst, items[j].len, p))
    && (forall i, j, p: nat :: 0 <= i < |items| && 0 <= j < |items| && Hits(items[i].dst, items[i].len, p) ==>
          !Hits(items[j].src, items[j].len, p))
  }

  ghost predicate ItemsOk(items: seq<Item>, size: nat) {
    && Apart(items)
    && forall i :: 0 <= i < |items| ==>
         items[i].len < U32 && items[i].src + items[i].len <= size && items[i].dst + items[i].len <= size
  }

  ghost predicate BatchOk(t: Batch) {
    t.num > 0 && Shares(t) && ItemsOk(t.items, t.size)
  }

  ghost predicate Shape(w: World, t: Batch) {
    && Shares(t) && |w.mem| == t.size && |w.blocks| == t.num && |w.copies| == |t.items|
    && forall b :: 0 <= b < t.num ==>
         match w.blocks[b]
         case Copying(i, off) => i < t.end[b] ==> off <= t.items[i].len
         case Loaded(i, off, buf) => i < t.end[b] && 0 < |buf| && off + |buf| <= t.items[i].len
         case _ => true
  }

  /** A block takes a step unless it waits for a token it has not been given or is through. */
  ghost predicate Enabled(w: World, t: Batch, b: nat) {
    && BatchOk(t) && Shape(w, t) && b < t.num
    && (w.blocks[b].Spinning? ==> w.mask == b) && !w.blocks[b].Finished?
  }

  function ChunkSize(left: nat): nat {
    if left < UB_SIZE then left else UB_SIZE
  }

  ghost function Next(w: World, t: Batch, b: nat): World
    requires Enabled(w, t, b)
  {
    match w.blocks[b]
    case Copying(i, off) =>
      if i >= t.end[b] then w.(blocks := w.blocks[b := Spinning])
      else if off < t.items[i].len then
        var at := t.items[i].src + off;
        w.(blocks := w.blocks[b := Loaded(i, off, w.mem[at..at + ChunkSize(t.items[i].len - off)])])
      else w.(blocks := w.blocks[b := Copying(i + 1, 0)], copies := w.copies[i := w.copies[i] + 1])
    case Loaded(i, off, buf) =>
      w.(mem := Written(w.mem, t.items[i].dst + off, buf), blocks := w.blocks[b := Copying(i, off + |buf|)])
    case Spinning => w.(blocks := w.blocks[b := Finished], mask := b + 1)
  }

  ghost function Written(m: Memory, at: nat, buf: Memory): (r: Memory)
    requires at + |buf| <= |m|
    ensures |r| == |m|
    ensures forall p :: 0 <= p < |m| ==> r[p] == if Hits(at, |buf|, p) then buf[p - at] else m[p]
  {
    seq(|m|, p requires 0 <= p < |m| => if Hits(at, |buf|, p) then buf[p - at] else m[p])
  }

  ghost function Initial(t: Batch, mem: Memory): World
    requires Shares(t)
  {
    World(mem, seq(t.num, b requires 0 <= b < t.num => Copying(t.first[b], 0)), 0, seq(|t.items|, _ => 0))
  }

  ghost predicate Reaches(w: World, t: Batch, schedule: seq<nat>, v: World)
    decreases |schedule|
  {
    if schedule == [] then w == v
    else Enabled(w, t, schedule[0]) && Reaches(Next(w, t, schedule[0]), t, schedule[1..], v)
  }

  // ---------- What every step keeps ----------

  /** The owner has completed descriptor `i`. */
  ghost predicate Passed(phase: Phase, i: nat) {
    match phase
    case Copying(j, _) => i < j
    case Loaded(j, _, _) => i < j
    case _ => true
  }

  /** Bytes of descriptor `i` that have arrived. */
  ghost function Arrived(phase: Phase, i: nat, len: nat): nat {
    if Passed(phase, i) then len
    else match phase
         case Copying(j, off) => if i == j then off else 0
         case Loaded(j, off, _) => if i == j then off else 0
         case _ => 0
  }

  /** Byte `j` of the descriptor has reached its destination. */
  ghost predicate Landed(mem: Memory, init: Memory, item: Item, j: nat) {
    item.dst + j < |mem| && item.src + j < |init| && mem[item.dst + j] == init[item.src + j]
  }

  /** What has arrived of a descriptor, and what its owner holds of it, is right. */
  ghost predicate ItemOk(phase: Phase, copied: nat, mem: Memory, init: Memory, item: Item, i: nat)
    requires item.src + item.len <= |init|
  {
    && copied == (if Passed(phase, i) then 1 else 0)
    && Arrived(phase, i, item.len) <= item.len
    && (forall j: nat :: j < Arrived(phase, i, item.len) ==> Landed(mem, init, item, j))
    && (phase.Loaded? && phase.i == i ==>
          phase.off + |phase.buf| <= item.len &&
          forall j :: 0 <= j < |phase.buf| ==> phase.buf[j] == init[item.src + (phase.off + j)])
  }

  ghost predicate ItemInv(w: World, t: Batch, init: Memory, i: nat)
    requires BatchOk(t) && Shape(w, t) && |init| == t.size && i < |t.items|
  {
    ItemOk(w.blocks[t.owner[i]], w.copies[i], w.mem, init, t.items[i], i)
  }

  /** Memory that no destination covers is as it was; all sources are of this kind. */
  ghost predicate OutsideKept(w: World, t: Batch, init: Memory)
    requires |w.mem| == |init|
  {
    forall p :: 0 <= p < |init| && (forall i :: 0 <= i < |t.items| ==> !Hits(t.items[i].dst, t.items[i].len, p)) ==>
      w.mem[p] == init[p]
  }

  ghost predicate TokenInv(w: World, t: Batch)
    requires |w.blocks| == t.num
  {
    w.mask <= t.num && forall b :: 0 <= b < t.num ==> (w.blocks[b].Finished? <==> b < w.mask)
  }

  ghost predicate StartsInShare(w: World, t: Batch)
    requires Shares(t) && |w.blocks| == t.num
  {
    forall b :: 0 <= b < t.num ==>
      match w.blocks[b]
      case Copying(i, _) => t.first[b] <= i
      case Loaded(i, _, _) => t.first[b] <= i
      case _ => true
  }

  ghost predicate Inv(w: World, t: Batch, init: Memory) {
    && BatchOk(t) && Shape(w, t) && |init| == t.size
    && TokenInv(w, t) && StartsInShare(w, t) && OutsideKept(w, t, init)
    && forall i :: 0 <= i < |t.items| ==> ItemInv(w, t, init, i)
  }

  /** The block whose step it is, and the descriptor it is on, if it is on one. */
  lemma OnOwnItem(w: World, t: Batch, init: Memory, b: nat)
    requires Inv(w, t, init) && b < t.num
    ensures w.blocks[b].Copying? && w.blocks[b].i < t.end[b] ==>
              t.owner[w.blocks[b].i] == b
    ensures w.blocks[b].Loaded? ==> t.owner[w.blocks[b].i] == b
  {
  }

  /** A source byte is never a destination byte, so it still holds its first value. */
  lemma SourceKept(w: World, t: Batch, init: Memory, i: nat, j: nat)
    requires Inv(w, t, init) && i < |t.items| && j < t.items[i].len
    ensures w.mem[t.items[i].src + j] == init[t.items[i].src + j]
  {
    var p := t.items[i].src + j;
    assert Hits(t.items[i].src, t.items[i].len, p);
    assert forall k :: 0 <= k < |t.items| ==> !Hits(t.items[k].dst, t.items[k].len, p);
  }

  ghost predicate Loads(w: World, t: Batch, b: nat)
    requires Enabled(w, t, b)
  {
    w.blocks[b].Copying? && w.blocks[b].i < t.end[b] && w.blocks[b].off < t.items[w.blocks[b].i].len
  }

  lemma LoadKeepsInv(w: World, t: Batch, init: Memory, b: nat)
    requires Inv(w, t, init) && Enabled(w, t, b) && Loads(w, t, b)
    ensures Inv(Next(w, t, b), t, init)
  {
    OnOwnItem(w, t, init, b);
    forall k | 0 <= k < |t.items| ensures ItemInv(Next(w, t, b), t, init, k) {
      if k == w.blocks[b].i {
        LoadItem(w, t, init, b);
      } else {
        LoadOther(w, t, init, b, k);
      }
    }
  }

  lemma LoadItem(w: World, t: Batch, init: Memory, b: nat)
    requires Inv(w, t, init) && Enabled(w, t, b) && Loads(w, t, b) && t.owner[w.blocks[b].i] == b
    ensures Shape(Next(w, t, b), t) && ItemInv(Next(w, t, b), t, init, w.blocks[b].i)
  {
    var i, off := w.blocks[b].i, w.blocks[b].off;
    assert ItemInv(w, t, init, i);
    LoadedBytes(w, t, init, i, off, Next(w, t, b).blocks[b].buf);
  }

  lemma LoadOther(w: World, t: Batch, init: Memory, b: nat, k: nat)
    requires Inv(w, t, init) && Enabled(w, t, b) && Loads(w, t, b)
    requires k < |t.items| && k != w.blocks[b].i
    ensures Shape(Next(w, t, b), t) && ItemInv(Next(w, t, b), t, init, k)
  {
    assert ItemInv(w, t, init, k);
    assert t.owner[k] != b ==> Next(w, t, b).blocks[t.owner[k]] == w.blocks[t.owner[k]];
  }

  lemma LoadedBytes(w: World, t: Batch, init: Memory, i: nat, off: nat, buf: Memory)
    requires Inv(w, t, init) && i < |t.items| && off + |buf| <= t.items[i].len
    requires buf == w.mem[t.items[i].src + off..t.items[i].src + off + |buf|]
    ensures forall j :: 0 <= j < |buf| ==> buf[j] == init[t.items[i].src + (off + j)]
  {
    forall j | 0 <= j < |buf| ensures buf[j] == init[t.items[i].src + (off + j)] {
      SourceKept(w, t, init, i, off + j);
    }
  }

  lemma StoreKeepsInv(w: World, t: Batch, init: Memory, b: nat)
    requires Inv(w, t, init) && Enabled(w, t, b) && w.blocks[b].Loaded?
    ensures Inv(Next(w, t, b), t, init)
  {
    var v, i, off, buf := Next(w, t, b), w.blocks[b].i, w.blocks[b].off, w.blocks[b].buf;
    var item := t.items[i];
    OnOwnItem(w, t, init, b);
    forall p | 0 <= p < |v.mem| && v.mem[p] != w.mem[p] ensures Hits(item.dst, item.len, p) {
    }
    assert OutsideKept(v, t, init);
    forall k | 0 <= k < |t.items| ensures ItemInv(v, t, init, k) {
      if k == i {
        StoreItem(w, t, init, b);
      } else {
        StoreOther(w, t, init, b, k);
      }
    }
  }

  lemma StoreShape(w: World, t: Batch, b: nat)
    requires Enabled(w, t, b) && w.blocks[b].Loaded?
    ensures var v, c := Next(w, t, b), w.blocks[b];
            && Shape(v, t) && v.mask == w.mask && v.copies == w.copies
            && v.blocks == w.blocks[b := Copying(c.i, c.off + |c.buf|)]
            && v.mem == Written(w.mem, t.items[c.i].dst + c.off, c.buf)
  {
  }

  lemma StoreItem(w: World, t: Batch, init: Memory, b: nat)
    requires Enabled(w, t, b) && w.blocks[b].Loaded? && t.owner[w.blocks[b].i] == b && |init| == t.size
    requires ItemInv(w, t, init, w.blocks[b].i)
    ensures Shape(Next(w, t, b), t) && ItemInv(Next(w, t, b), t, init, w.blocks[b].i)
  {
    var c := w.blocks[b];
    StoreShape(w, t, b);
    StoredOk(c, w.copies[c.i], w.mem, init, t.items[c.i]);
  }

  lemma StoredOk(c: Phase, copied: nat, mem: Memory, init: Memory, item: Item)
    requires c.Loaded? && item.src + item.len <= |init| && item.dst + item.len <= |mem|
    requires ItemOk(c, copied, mem, init, item, c.i)
    ensures ItemOk(Copying(c.i, c.off + |c.buf|), copied, Written(mem, item.dst + c.off, c.buf), init, item, c.i)
  {
    StoredBytes(mem, Written(mem, item.dst + c.off, c.buf), init, item, c.off, c.buf);
  }

  lemma StoredBytes(mem: Memory, mem': Memory, init: Memory, item: Item, off: nat, buf: Memory)
    requires item.dst + (off + |buf|) <= |mem| && item.src + (off + |buf|) <= |init|
    requires forall j: nat :: j < off ==> Landed(mem, init, item, j)
    requires forall j :: 0 <= j < |buf| ==> buf[j] == init[item.src + (off + j)]
    requires mem' == Written(mem, item.dst + off, buf)
    ensures forall j: nat :: j < off + |buf| ==> Landed(mem', init, item, j)
  {
    forall j: nat | j < off + |buf| ensures Landed(mem', init, item, j) {
      if off <= j {
        assert buf[j - off] == init[item.src + (off + (j - off))];
      } else {
        assert Landed(mem, init, item, j);
      }
    }
  }

  lemma StoreOther(w: World, t: Batch, init: Memory, b: nat, k: nat)
    requires Inv(w, t, init) && Enabled(w, t, b) && w.blocks[b].Loaded? && t.owner[w.blocks[b].i] == b
    requires k < |t.items| && k != w.blocks[b].i
    ensures Shape(Next(w, t, b), t) && ItemInv(Next(w, t, b), t, init, k)
  {
    var v, item := Next(w, t, b), t.items[k];
    StoreShape(w, t, b);
    assert ItemInv(w, t, init, k);
    forall j: nat | j < Arrived(w.blocks[t.owner[k]], k, item.len) ensures Landed(v.mem, init, item, j) {
      assert Landed(w.mem, init, item, j);
      assert Hits(item.dst, item.len, item.dst + j);
    }
  }

  lemma PassItem(w: World, t: Batch, init: Memory, b: nat)
    requires Inv(w, t, init) && Enabled(w, t, b) && w.blocks[b].Copying?
    requires w.blocks[b].i < t.end[b] && w.blocks[b].off == t.items[w.blocks[b].i].len
    ensures Inv(Next(w, t, b), t, init)
  {
    var v := Next(w, t, b);
    OnOwnItem(w, t, init, b);
    forall k | 0 <= k < |t.items| ensures ItemInv(v, t, init, k) {
      assert ItemInv(w, t, init, k);
      assert t.owner[k] != b ==> v.blocks[t.owner[k]] == w.blocks[t.owner[k]];
    }
  }

  lemma WaitOrPassToken(w: World, t: Batch, init: Memory, b: nat)
    requires Inv(w, t, init) && Enabled(w, t, b)
    requires w.blocks[b].Spinning? || (w.blocks[b].Copying? && w.blocks[b].i >= t.end[b])
    ensures Inv(Next(w, t, b), t, init)
  {
    var v := Next(w, t, b);
    forall k | 0 <= k < |t.items| ensures ItemInv(v, t, init, k) {
      assert ItemInv(w, t, init, k);
      assert t.owner[k] != b ==> v.blocks[t.owner[k]] == w.blocks[t.owner[k]];
      assert t.owner[k] == b ==> t.first[b] <= k < t.end[b];
    }
  }

  lemma NextKeepsInv(w: World, t: Batch, init: Memory, b: nat)
    requires Inv(w, t, init) && Enabled(w, t, b)
    ensures Inv(Next(w, t, b), t, init)
  {
    if w.blocks[b].Loaded? {
      StoreKeepsInv(w, t, init, b);
    } else if Loads(w, t, b) {
      LoadKeepsInv(w, t, init, b);
    } else if w.blocks[b].Copying? && w.blocks[b].i < t.end[b] {
      PassItem(w, t, init, b);
    } else {
      WaitOrPassToken(w, t, init, b);
    }
  }

  lemma {:induction false} ReachedInv(w: World, t: Batch, init: Memory, schedule: seq<nat>, v: World)
    requires Inv(w, t, init) && Reaches(w, t, schedule, v)
    ensures Inv(v, t, init)
    decreases |schedule|
  {
    if schedule != [] {
      NextKeepsInv(w, t, init, schedule[0]);
      ReachedInv(Next(w, t, schedule[0]), t, init, schedule[1..], v);
    }
  }

  lemma InitialInv(t: Batch, init: Memory)
    requires BatchOk(t) && |init| == t.size
    ensures Inv(Initial(t, init), t, init)
  {
    forall i | 0 <= i < |t.items| ensures ItemInv(Initial(t, init), t, init, i) {
    }
  }

  /** When the token has reached `k`, the blocks before `k` are through and their descriptors are copied, once. */
  lemma TokenMeansCopied(t: Batch, init: Memory, schedule: seq<nat>, v: World, i: nat)
    requires BatchOk(t) && |init| == t.size && Reaches(Initial(t, init), t, schedule, v)
    requires i < |t.items| && t.owner[i] < v.mask
    ensures |v.mem| == t.size && |v.copies| == |t.items| && v.copies[i] == 1
    ensures forall j: nat :: j < t.items[i].len ==> Landed(v.mem, init, t.items[i], j)
  {
    InitialInv(t, init);
    ReachedInv(Initial(t, init), t, init, schedule, v);
    assert ItemInv(v, t, init, i);
  }

  /** When every block of the kernel has passed the token on, memory is what one copy per descriptor makes it. */
  lemma AllThrough(items: seq<Item>, num: nat, init: Memory, schedule: seq<nat>, v: World)
    requires num > 0 && ItemsOk(items, |init|)
    requires var t := KernelBatch(items, num, |init|); Reaches(Initial(t, init), t, schedule, v)
    requires v.mask == num
    ensures |v.mem| == |init| && |v.copies| == |items|
    ensures forall i :: 0 <= i < |items| ==> v.copies[i] == 1
    ensures forall i, j: nat :: 0 <= i < |items| && j < items[i].len ==> Landed(v.mem, init, items[i], j)
    ensures OutsideKept(v, KernelBatch(items, num, |init|), init)
  {
    var t := KernelBatch(items, num, |init|);
    InitialInv(t, init);
    ReachedInv(Initial(t, init), t, init, schedule, v);
    forall i | 0 <= i < |items|
      ensures v.copies[i] == 1 && forall j: nat :: j < items[i].len ==> Landed(v.mem, init, items[i], j)
    {
      TokenMeansCopied(t, init, schedule, v, i);
    }
  }

  // ---------- Every run ends ----------

  /** Chunks it takes to move so many bytes. */
  ghost function Chunks(left: nat): nat {
    (left + UB_SIZE - 1) / UB_SIZE
  }

  lemma ChunkOff(left: nat)
    requires left > 0
    ensures Chunks(left) == 1 + Chunks(left - ChunkSize(left))
  {
  }

  ghost function ItemsWork(items: seq<Item>, i: nat, end: nat): nat
    requires end <= |items|
    decreases end - i
  {
    if i >= end then 0 else 2 * Chunks(items[i].len) + 1 + ItemsWork(items, i + 1, end)
  }

  ghost predicate Sized(t: Batch, b: nat, phase: Phase)
    requires Shares(t) && b < t.num
  {
    match phase
    case Copying(i, off) => i < t.end[b] ==> off <= t.items[i].len
    case Loaded(i, off, buf) => i < t.end[b] && off + |buf| <= t.items[i].len
    case _ => true
  }

  /** The steps a block has left: a load and a store a chunk, one more a descriptor, and two for the token. */
  ghost function BlockWork(t: Batch, b: nat, phase: Phase): nat
    requires Shares(t) && b < t.num && Sized(t, b, phase)
  {
    match phase
    case Copying(i, off) =>
      if i < t.end[b] then 2 * Chunks(t.items[i].len - off) + 1 + ItemsWork(t.items, i + 1, t.end[b]) + 2 else 2
    case Loaded(i, off, buf) =>
      2 * Chunks(t.items[i].len - (off + |buf|)) + 2 + ItemsWork(t.items, i + 1, t.end[b]) + 2
    case Spinning => 1
    case Finished => 0
  }

  ghost function Work(t: Batch, blocks: seq<Phase>, n: nat): nat
    requires Shares(t) && n <= t.num == |blocks| && forall b :: 0 <= b < t.num ==> Sized(t, b, blocks[b])
  {
    if n == 0 then 0 else Work(t, blocks, n - 1) + BlockWork(t, n - 1, blocks[n - 1])
  }

  lemma {:induction false} OneBlockMoves(t: Batch, blocks: seq<Phase>, n: nat, b: nat, phase: Phase)
    requires Shares(t) && n <= t.num == |blocks| && forall b :: 0 <= b < t.num ==> Sized(t, b, blocks[b])
    requires b < t.num && Sized(t, b, phase)
    ensures Work(t, blocks[b := phase], n) == Work(t, blocks, n) +
            if b < n then BlockWork(t, b, phase) - BlockWork(t, b, blocks[b]) else 0
  {
    if n > 0 {
      OneBlockMoves(t, blocks, n - 1, b, phase);
    }
  }

  lemma BlockTakesOne(w: World, t: Batch, b: nat)
    requires Enabled(w, t, b)
    ensures Next(w, t, b).blocks == w.blocks[b := Next(w, t, b).blocks[b]] && Sized(t, b, Next(w, t, b).blocks[b])
    ensures BlockWork(t, b, Next(w, t, b).blocks[b]) == BlockWork(t, b, w.blocks[b]) - 1
  {
    if Loads(w, t, b) {
      ChunkOff(t.items[w.blocks[b].i].len - w.blocks[b].off);
    }
  }

  /** Every step takes one off. */
  lemma StepTakesOne(w: World, t: Batch, b: nat)
    requires Enabled(w, t, b) && Shape(Next(w, t, b), t)
    ensures Work(t, Next(w, t, b).blocks, t.num) == Work(t, w.blocks, t.num) - 1
  {
    BlockTakesOne(w, t, b);
    OneBlockMoves(t, w.blocks, t.num, b, Next(w, t, b).blocks[b]);
  }

  lemma {:induction false} RunLength(w: World, t: Batch, init: Memory, schedule: seq<nat>, v: World)
    requires Inv(w, t, init) && Reaches(w, t, schedule, v)
    ensures Inv(v, t, init) && |schedule| == Work(t, w.blocks, t.num) - Work(t, v.blocks, t.num)
    decreases |schedule|
  {
    if schedule != [] {
      NextKeepsInv(w, t, init, schedule[0]);
      StepTakesOne(w, t, schedule[0]);
      RunLength(Next(w, t, schedule[0]), t, init, schedule[1..], v);
    }
  }

  lemma {:induction false} NoWork(t: Batch, blocks: seq<Phase>, n: nat)
    requires Shares(t) && n <= t.num == |blocks| && forall b :: 0 <= b < t.num ==> Sized(t, b, blocks[b])
    ensures Work(t, blocks, n) == 0 <==> forall b :: 0 <= b < n ==> blocks[b].Finished?
  {
    if n > 0 {
      NoWork(t, blocks, n - 1);
    }
  }

  ghost predicate Stuck(w: World, t: Batch) {
    forall b :: !Enabled(w, t, b)
  }

  /**
   * Under every schedule: the number of steps is bounded, and a run has nothing left to do, has taken that many
   * steps, and has the token through every block all at the same moment.
   */
  lemma EveryRunCompletes(t: Batch, init: Memory, schedule: seq<nat>, v: World)
    requires BatchOk(t) && |init| == t.size && Reaches(Initial(t, init), t, schedule, v)
    ensures |schedule| <= Work(t, Initial(t, init).blocks, t.num)
    ensures |schedule| == Work(t, Initial(t, init).blocks, t.num) <==> v.mask == t.num
    ensures Stuck(v, t) <==> v.mask == t.num
  {
    InitialInv(t, init);
    RunLength(Initial(t, init), t, init, schedule, v);
    NoWork(t, v.blocks, t.num);
    assert v.mask < t.num ==> Enabled(v, t, v.mask);
  }

  /** So every run of the kernel that can go no further has copied every descriptor once and touched nothing else. */
  lemma EveryRunCopies(items: seq<Item>, num: nat, init: Memory, schedule: seq<nat>, v: World)
    requires num > 0 && ItemsOk(items, |init|)
    requires var t := KernelBatch(items, num, |init|);
             Reaches(Initial(t, init), t, schedule, v) && Stuck(v, t)
    ensures |v.mem| == |init| && |v.copies| == |items|
    ensures forall i :: 0 <= i < |items| ==> v.copies[i] == 1
    ensures forall i, j: nat :: 0 <= i < |items| && j < items[i].len ==> Landed(v.mem, init, items[i], j)
    ensures OutsideKept(v, KernelBatch(items, num, |init|), init)
  {
    EveryRunCompletes(KernelBatch(items, num, |init|), init, schedule, v);
    AllThrough(items, num, init, schedule, v);
  }
}
