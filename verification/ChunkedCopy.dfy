/** Copying global memory through a fixed on-chip buffer, chunk by chunk. */
module ChunkedCopy {
  import opened Arithmetic

  type Byte = x: int | 0 <= x < 256

  const UB_SIZE: nat := 64 * 1024
  const U32: nat := 0x1_0000_0000

  type Memory = seq<Byte>

  predicate InBounds(m: Memory, at: nat, n: nat) {
    at + n <= |m|
  }

  /** One copy of the old contents, whatever overlaps. */
  function Flat(m: Memory, dst: nat, src: nat, n: nat): (r: Memory)
    requires InBounds(m, dst, n) && InBounds(m, src, n)
    ensures |r| == |m|
    ensures forall i :: 0 <= i < |m| ==> r[i] == if dst <= i < dst + n then m[src + (i - dst)] else m[i]
  {
    seq(|m|, i requires 0 <= i < |m| => if dst <= i < dst + n then m[src + (i - dst)] else m[i])
  }

  /** Chunk after chunk of at most `ub` bytes, each reading what the ones before it left. */
  function Chunked(m: Memory, dst: nat, src: nat, ub: nat, n: nat): (r: Memory)
    requires ub > 0 && InBounds(m, dst, n) && InBounds(m, src, n)
    ensures |r| == |m|
    decreases n
  {
    if n <= ub then Flat(m, dst, src, n)
    else Chunked(Flat(m, dst, src, ub), dst + ub, src + ub, ub, n - ub)
  }

  /** The kernel's loop: whole chunks, then what remains. */
  method CopyGm2Gm(mem: array<Byte>, dst: nat, src: nat, ub: nat, n: nat)
    requires ub > 0 && dst + n <= mem.Length && src + n <= mem.Length
    modifies mem
    ensures mem[..] == Chunked(old(mem[..]), dst, src, ub, n)
  {
    var repeatTimes, remain := Repeats(n, ub);
    var at := CopyWhole(mem, dst, src, ub, n, repeatTimes);
    Remainder(mem[..], dst, src, ub, n, at);
    if remain > 0 {
      CopyOne(mem, dst + at, src + at, remain);
    }
  }

  method CopyWhole(mem: array<Byte>, dst: nat, src: nat, ub: nat, n: nat, times: nat) returns (at: nat)
    requires ub > 0 && dst + n <= mem.Length && src + n <= mem.Length && Chunks(ub, times) <= n
    modifies mem
    ensures at == Chunks(ub, times)
    ensures ChunkedFrom(mem[..], dst, src, ub, n, at) == Chunked(old(mem[..]), dst, src, ub, n)
  {
    at := 0;
    ghost var m := mem[..];
    for i := 0 to times
      invariant at == Chunks(ub, i) <= n && |m| == mem.Length && mem[..] == m
      invariant ChunkedFrom(m, dst, src, ub, n, at) == Chunked(old(mem[..]), dst, src, ub, n)
    {
      ChunkFits(ub, i, times);
      Peel(m, dst, src, ub, n, at);
      CopyOne(mem, dst + at, src + at, ub);
      m := Flat(m, dst + at, src + at, ub);
      at := at + ub;
    }
  }

  /** What is left to do from offset `at` on. */
  ghost function ChunkedFrom(m: Memory, dst: nat, src: nat, ub: nat, n: nat, at: nat): Memory
    requires ub > 0 && at <= n && InBounds(m, dst, n) && InBounds(m, src, n)
  {
    Chunked(m, dst + at, src + at, ub, n - at)
  }

  lemma Remainder(m: Memory, dst: nat, src: nat, ub: nat, n: nat, at: nat)
    requires ub > 0 && at <= n < at + ub && InBounds(m, dst, n) && InBounds(m, src, n)
    ensures ChunkedFrom(m, dst, src, ub, n, at) == Flat(m, dst + at, src + at, n - at)
    ensures at == n ==> Flat(m, dst + at, src + at, n - at) == m
  {
  }

  method Repeats(n: nat, ub: nat) returns (times: nat, remain: nat)
    requires ub > 0
    ensures Chunks(ub, times) + remain == n && remain < ub
  {
    times, remain := n / ub, n % ub;
    DivMod(n, ub);
    ChunksIsProduct(ub, times);
  }

  /** The offset of chunk `i`. */
  function Chunks(ub: nat, i: nat): nat {
    if i == 0 then 0 else Chunks(ub, i - 1) + ub
  }

  lemma {:induction false} ChunksIsProduct(ub: nat, i: nat)
    ensures Chunks(ub, i) == i * ub
  {
    if i > 0 {
      ChunksIsProduct(ub, i - 1);
      Distribute(i - 1, ub);
    }
  }

  lemma {:induction false} ChunkFits(ub: nat, i: nat, times: nat)
    requires i < times
    ensures Chunks(ub, i) + ub <= Chunks(ub, times)
  {
    if i + 1 < times {
      ChunkFits(ub, i, times - 1);
    }
  }

  /** A first whole chunk can be taken off, also when nothing remains. */
  lemma Peel(m: Memory, dst: nat, src: nat, ub: nat, n: nat, at: nat)
    requires ub > 0 && at + ub <= n && InBounds(m, dst, n) && InBounds(m, src, n)
    ensures ChunkedFrom(m, dst, src, ub, n, at) ==
            ChunkedFrom(Flat(m, dst + at, src + at, ub), dst, src, ub, n, at + ub)
  {
    if n == at + ub {
      Remainder(Flat(m, dst + at, src + at, ub), dst, src, ub, n, n);
    }
  }

  /** Through the buffer: read the chunk, then write it. */
  method CopyOne(mem: array<Byte>, dst: nat, src: nat, n: nat)
    requires dst + n <= mem.Length && src + n <= mem.Length
    modifies mem
    ensures mem[..] == Flat(old(mem[..]), dst, src, n)
  {
    var buf := mem[src..src + n];
    forall i | 0 <= i < n {
      mem[dst + i] := buf[i];
    }
  }

  // ---------- When chunks amount to one copy ----------

  /** Forward overlap never bites; backward overlap does as soon as there is a second chunk. */
  predicate Safe(dst: nat, src: nat, ub: nat, n: nat) {
    dst <= src || src + n <= dst || n <= ub
  }

  lemma {:induction false} SafeIsFlat(m: Memory, dst: nat, src: nat, ub: nat, n: nat)
    requires ub > 0 && InBounds(m, dst, n) && InBounds(m, src, n) && Safe(dst, src, ub, n)
    ensures Chunked(m, dst, src, ub, n) == Flat(m, dst, src, n)
    decreases n
  {
    if n > ub {
      var f := Flat(m, dst, src, ub);
      SafeIsFlat(f, dst + ub, src + ub, ub, n - ub);
      FlatJoins(m, dst, src, ub, n);
    }
  }

  lemma FlatJoins(m: Memory, dst: nat, src: nat, k: nat, n: nat)
    requires k <= n && InBounds(m, dst, n) && InBounds(m, src, n) && (dst <= src || src + n <= dst)
    ensures Flat(Flat(m, dst, src, k), dst + k, src + k, n - k) == Flat(m, dst, src, n)
  {
    var f := Flat(m, dst, src, k);
    var g := Flat(f, dst + k, src + k, n - k);
    forall i | 0 <= i < |m| ensures g[i] == Flat(m, dst, src, n)[i] {
      assert dst + k <= i < dst + n ==> g[i] == f[src + k + (i - (dst + k))];
    }
  }

  ghost predicate Zeros(m: Memory) {
    forall i :: 0 <= i < |m| ==> m[i] == 0
  }

  lemma {:induction false} ZerosStay(m: Memory, dst: nat, src: nat, ub: nat, n: nat)
    requires ub > 0 && InBounds(m, dst, n) && InBounds(m, src, n) && Zeros(m)
    ensures Zeros(Chunked(m, dst, src, ub, n))
    decreases n
  {
    if n > ub {
      ZerosStay(Flat(m, dst, src, ub), dst + ub, src + ub, ub, n - ub);
    }
  }

  /** A memory of zeros but for one byte. */
  function Marked(size: nat, p: nat): (m: Memory)
    requires p < size
    ensures |m| == size && forall i :: 0 <= i < size ==> m[i] == if i == p then 1 else 0
  {
    seq(size, i => if i == p then 1 else 0)
  }

  /** A byte the first chunk overwrites before it is read is lost. */
  lemma UnsafeDiffers(size: nat, dst: nat, src: nat, ub: nat, n: nat) returns (m: Memory)
    requires ub > 0 && dst + n <= size && src + n <= size && !Safe(dst, src, ub, n)
    ensures |m| == size && Chunked(m, dst, src, ub, n) != Flat(m, dst, src, n)
  {
    var p := if dst > src + ub then dst else src + ub;
    m := Marked(size, p);
    var f := Flat(m, dst, src, ub);
    assert Zeros(f);
    ZerosStay(f, dst + ub, src + ub, ub, n - ub);
    assert Flat(m, dst, src, n)[dst + (p - src)] == 1;
  }

  /** Chunked copying is one copy, for every content, exactly when the overlap is safe. */
  lemma ChunkedIsFlatIff(size: nat, dst: nat, src: nat, ub: nat, n: nat)
    requires ub > 0 && dst + n <= size && src + n <= size
    ensures (forall m: Memory :: |m| == size ==> Chunked(m, dst, src, ub, n) == Flat(m, dst, src, n)) <==>
            Safe(dst, src, ub, n)
  {
    if Safe(dst, src, ub, n) {
      forall m: Memory | |m| == size ensures Chunked(m, dst, src, ub, n) == Flat(m, dst, src, n) {
        SafeIsFlat(m, dst, src, ub, n);
      }
    } else {
      var m := UnsafeDiffers(size, dst, src, ub, n);
    }
  }

  // ---------- The 64-bit length passed as 32 bits ----------

  /** What the batch kernel does with one descriptor. */
  function CopyItem(m: Memory, dst: nat, src: nat, len: nat): Memory
    requires InBounds(m, dst, len) && InBounds(m, src, len)
  {
    Chunked(m, dst, src, UB_SIZE, len % U32)
  }

  lemma {:induction false} UntouchedBeyond(m: Memory, dst: nat, src: nat, ub: nat, n: nat, i: nat)
    requires ub > 0 && InBounds(m, dst, n) && InBounds(m, src, n) && dst + n <= i < |m|
    ensures Chunked(m, dst, src, ub, n)[i] == m[i]
    decreases n
  {
    if n > ub {
      UntouchedBeyond(Flat(m, dst, src, ub), dst + ub, src + ub, ub, n - ub, i);
    }
  }

  lemma SelfCopy(m: Memory, at: nat, n: nat)
    requires InBounds(m, at, n)
    ensures Flat(m, at, at, n) == m
  {
  }

  lemma LongSelfCopy(m: Memory, at: nat, len: nat)
    requires InBounds(m, at, len)
    ensures CopyItem(m, at, at, len) == Flat(m, at, at, len)
  {
    SafeIsFlat(m, at, at, UB_SIZE, len % U32);
    SelfCopy(m, at, len % U32);
    SelfCopy(m, at, len);
  }

  /** Of a longer copy only the low 32 bits of the length are honoured, so its last byte stays behind. */
  lemma LongCopyDiffers(size: nat, dst: nat, src: nat, len: nat) returns (m: Memory)
    requires dst + len <= size && src + len <= size && dst != src && len >= U32
    ensures |m| == size && CopyItem(m, dst, src, len) != Flat(m, dst, src, len)
  {
    m := Marked(size, src + len - 1);
    var n := len % U32;
    assert n < len;
    UntouchedBeyond(m, dst, src, UB_SIZE, n, dst + len - 1);
    assert Flat(m, dst, src, len)[dst + len - 1] == 1;
  }

  ghost predicate CopiesAll(size: nat, dst: nat, src: nat, len: nat)
    requires dst + len <= size && src + len <= size
  {
    forall m: Memory :: |m| == size ==> CopyItem(m, dst, src, len) == Flat(m, dst, src, len)
  }

  /**
   * A descriptor is copied as asked, for every content, exactly when source and destination coincide or the
   * length fits 32 bits and the overlap is safe.
   */
  lemma CopyItemIff(size: nat, dst: nat, src: nat, len: nat)
    requires dst + len <= size && src + len <= size
    ensures CopiesAll(size, dst, src, len) <==> dst == src || (len < U32 && Safe(dst, src, UB_SIZE, len))
  {
    if dst == src {
      forall m: Memory | |m| == size ensures CopyItem(m, dst, src, len) == Flat(m, dst, src, len) {
        LongSelfCopy(m, dst, len);
      }
    } else if len >= U32 {
      var m := LongCopyDiffers(size, dst, src, len);
    } else if Safe(dst, src, UB_SIZE, len) {
      forall m: Memory | |m| == size ensures CopyItem(m, dst, src, len) == Flat(m, dst, src, len) {
        SafeIsFlat(m, dst, src, UB_SIZE, len);
      }
    } else {
      var m := UnsafeDiffers(size, dst, src, UB_SIZE, len);
      assert CopyItem(m, dst, src, len) != Flat(m, dst, src, len);
    }
  }
}
