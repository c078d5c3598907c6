/** Reserving a device's global address space in equal chunks that are whole numbers of ranks. */
module ReserveChunks {
  import opened Arithmetic

  const GB: nat := 0x4000_0000
  const MAX_CHUNK: nat := 128 * GB

  predicate Divides(d: nat, n: nat) {
    d > 0 && n % d == 0
  }

  lemma MultipleDivides(k: nat, d: nat)
    requires d > 0
    ensures Divides(d, k * d) && k * d / d == k
  {
    if k > 0 {
      MultipleDivides(k - 1, d);
      Distribute(k - 1, d);
      var m := (k - 1) * d;
      assert (m + d) % d == m % d && (m + d) / d == m / d + 1;
    }
  }

  lemma MulAssoc(a: nat, b: nat, c: nat)
    ensures a * (b * c) == a * b * c
  {
  }

  /** Scaling by the rank size neither creates nor loses divisors. */
  lemma ScaledDivides(m: nat, n: nat, s: nat)
    requires m > 0 && s > 0
    ensures Divides(m * s, n * s) <==> Divides(m, n)
  {
    if Divides(m, n) {
      DivMod(n, m);
      MulAssoc(n / m, m, s);
      MultipleDivides(n / m, m * s);
    }
    if Divides(m * s, n * s) {
      var q := n * s / (m * s);
      DivMod(n * s, m * s);
      MulAssoc(q, m, s);
      Cancel(n, q * m, s);
      MultipleDivides(q, m);
    }
  }

  lemma Cancel(a: nat, b: nat, s: nat)
    requires s > 0 && a * s == b * s
    ensures a == b
  {
    if a < b {
      MulStep(a, b, s);
    } else if b < a {
      MulStep(b, a, s);
    }
  }

  lemma DividesTrans(a: nat, b: nat, c: nat)
    requires a > 0 && b > 0 && Divides(a, b) && Divides(b, c)
    ensures Divides(a, c)
  {
    DivMod(b, a);
    DivMod(c, b);
    MulAssoc(c / b, b / a, a);
    MultipleDivides(c / b * (b / a), a);
  }

  /** `m` ranks make a chunk within the limit that divides the total. */
  ghost predicate Candidate(total: nat, single: nat, m: nat) {
    m > 0 && m * single <= MAX_CHUNK && Divides(m * single, total)
  }

  /**
   * The largest whole number of ranks within the limit that divides the total, one rank when a rank exceeds the
   * limit, everything when it fits; zero exactly when the total is not a whole number of ranks.
   */
  ghost predicate IsChunk(total: nat, single: nat, chunk: nat) {
    if total == 0 || single == 0 then chunk == 0
    else if total <= MAX_CHUNK then chunk == total
    else
      && (chunk > 0 <==> Divides(single, total))
      && (chunk > 0 ==> Divides(chunk, total) && Divides(single, chunk))
      && (chunk > 0 && single > MAX_CHUNK ==> chunk == single)
      && (chunk > 0 && single <= MAX_CHUNK ==>
            chunk <= MAX_CHUNK && forall m: nat :: Candidate(total, single, m) ==> m * single <= chunk)
  }

  /** The description determines the chunk, so reserving and releasing agree on it. */
  lemma ChunkUnique(total: nat, single: nat, a: nat, b: nat)
    requires IsChunk(total, single, a) && IsChunk(total, single, b)
    ensures a == b
  {
    if total > MAX_CHUNK && 0 < single <= MAX_CHUNK && a > 0 {
      DivMod(a, single);
      DivMod(b, single);
      assert a / single > 0 && b / single > 0;
      assert Candidate(total, single, a / single) && Candidate(total, single, b / single);
    }
  }

  method GetReserveChunkSize(total: nat, single: nat) returns (chunk: nat)
    ensures IsChunk(total, single, chunk)
  {
    if total == 0 || single == 0 {
      return 0;
    }
    if total <= MAX_CHUNK {
      return total;
    }
    var n := total / single;
    var maxM := MAX_CHUNK / single;
    var baseM := LargestDivisor(n, maxM);
    BestChunk(total, single, n, maxM, baseM);
    var result := baseM * single;
    if total % result != 0 {
      return 0;
    }
    return result;
  }

  /** The greatest number up to the bound that divides, by counting down; one when the bound is zero. */
  method LargestDivisor(n: nat, maxM: nat) returns (baseM: nat)
    ensures baseM >= 1
    ensures if maxM == 0 then baseM == 1 else baseM <= maxM && n % baseM == 0
    ensures forall k: nat :: baseM < k <= maxM ==> n % k != 0
  {
    var m := maxM;
    while m >= 1
      invariant 0 <= m <= maxM && (maxM > 0 ==> m > 0)
      invariant forall k: nat :: m < k <= maxM ==> n % k != 0
    {
      if n % m == 0 {
        return m;
      }
      m := m - 1;
    }
    return 1;
  }

  lemma BestChunk(total: nat, single: nat, n: nat, maxM: nat, baseM: nat)
    requires single > 0 && n == total / single && maxM == MAX_CHUNK / single && baseM >= 1
    requires if maxM == 0 then baseM == 1 else baseM <= maxM && n % baseM == 0
    requires forall k: nat :: baseM < k <= maxM ==> n % k != 0
    ensures baseM * single > 0 && Divides(single, baseM * single)
    ensures Divides(baseM * single, total) <==> Divides(single, total)
    ensures maxM > 0 <==> single <= MAX_CHUNK
    ensures maxM > 0 ==> baseM * single <= MAX_CHUNK
    ensures maxM > 0 ==> forall m: nat :: Candidate(total, single, m) ==> m * single <= baseM * single
  {
    MultipleDivides(baseM, single);
    MulStep(0, baseM, single);
    DivMod(total, single);
    DivMod(MAX_CHUNK, single);
    ScaledDivides(baseM, n, single);
    if Divides(baseM * single, total) {
      DividesTrans(single, baseM * single, total);
    }
    if maxM > 0 {
      MulMono(baseM, maxM, single);
      MulMono(1, maxM, single);
      forall m: nat | Candidate(total, single, m) ensures m * single <= baseM * single {
        CandidateBelow(total, single, n, maxM, baseM, m);
      }
    }
  }

  lemma CandidateBelow(total: nat, single: nat, n: nat, maxM: nat, baseM: nat, m: nat)
    requires single > 0 && n == total / single && maxM == MAX_CHUNK / single
    requires forall k: nat :: baseM < k <= maxM ==> n % k != 0
    requires Candidate(total, single, m)
    ensures m * single <= baseM * single
  {
    MultipleDivides(m, single);
    DividesTrans(single, m * single, total);
    DivMod(total, single);
    ScaledDivides(m, n, single);
    DivMod(MAX_CHUNK, single);
    if m > maxM {
      MulMono(maxM + 1, m, single);
      Distribute(maxM, single);
    }
    if m <= baseM {
      MulMono(m, baseM, single);
    }
  }

  // ---------- Reserving and releasing ----------

  /** The driver's answer to one reservation: a status, zero for success, and a base address. */
  datatype Reply = Reply(ret: int, base: nat)

  /** What the driver is asked for: a size, and the base of the chunk before as a hint. */
  datatype Request = Request(hint: nat, size: nat)

  /** Answer `i` grants a chunk directly below the one before. */
  ghost predicate Follows(replies: nat -> Reply, i: nat, chunk: nat) {
    i > 0 && replies(i).ret == 0 && replies(i).base != 0 && replies(i).base + chunk == replies(i - 1).base
  }

  /** Every answer after the first does, for as many chunks as the size takes. */
  ghost predicate AllFollow(replies: nat -> Reply, size: nat, chunk: nat)
    requires chunk > 0
  {
    forall i :: 1 <= i < size / chunk ==> Follows(replies, i, chunk)
  }

  ghost predicate Asked(asked: seq<Request>, bases: seq<nat>, chunk: nat) {
    forall i :: 0 <= i < |asked| ==> i <= |bases| && asked[i] == Request(if i == 0 then 0 else bases[i - 1], chunk)
  }

  /** The chunks touch each other downwards from the first. */
  ghost predicate Descends(bases: seq<nat>, chunk: nat) {
    forall i, j :: 0 <= i < |bases| && j == i + 1 < |bases| ==> bases[j] + chunk == bases[i]
  }

  ghost function Bases(bases: seq<nat>): set<nat> {
    set b | b in bases
  }

  /** What the driver granted in its first `n` answers. */
  ghost function Granted(replies: nat -> Reply, n: nat): set<nat> {
    set i: nat | i < n && replies(i).ret == 0 :: replies(i).base
  }

  /**
   * Reserves chunk after chunk; `bases` are the addresses it took note of and `held` what the driver still has
   * reserved for it on return. A failure after the first chunk gives back only the first.
   */
  method GvaReserveMemory(size: nat, single: nat, replies: nat -> Reply)
    returns (ok: bool, address: nat, chunk: nat, bases: seq<nat>, asked: seq<Request>, ghost held: set<nat>)
    requires Reservable(size, single)
    ensures IsChunk(size, single, chunk) && Asked(asked, bases, chunk)
    ensures size > 0 ==> chunk > 0 && (ok <==> AllFollow(replies, size, chunk))
    ensures |asked| == if size == 0 then 0 else if ok then |bases| else |bases| + 1
    ensures !ok && size > 0 ==> !Follows(replies, |bases|, chunk)
    ensures size == 0 ==> !ok && held == {}
    ensures ok ==> size > 0 && bases != [] && |bases| * chunk == size && address == bases[|bases| - 1]
    ensures ok ==> held == Granted(replies, |bases|)
    ensures ok ==> Descends(bases, chunk) && (GoodFirst(replies) ==> held == Bases(bases))
    ensures !ok && size > 0 ==> bases != [] && held == Granted(replies, |bases| + 1) - {bases[0]}
    ensures !ok && size > 0 && GoodFirst(replies) ==> (held == {} <==> NothingLeft(replies, bases))
  {
    var maxChunk := GetReserveChunkSize(size, single);
    chunk := maxChunk;
    if size == 0 {
      return false, 0, chunk, [], [], {};
    }
    ChunkSplits(size, single, chunk);
    ok, address, bases, asked, held := ReserveAll(size, maxChunk, replies);
    if !ok && GoodFirst(replies) {
      LeakIff(replies, bases);
    }
  }

  ghost predicate GoodFirst(replies: nat -> Reply) {
    replies(0).ret == 0 && replies(0).base != 0
  }

  /** Each base noted after a good first one is an answer that touches the base before it. */
  ghost predicate Noted(replies: nat -> Reply, bases: seq<nat>) {
    && (forall i :: 0 <= i < |bases| ==> bases[i] == replies(i).base)
    && (forall i :: 1 <= i < |bases| ==> replies(i).ret == 0)
  }

  /** The call failed on its second answer, and that granted nothing new. */
  ghost predicate NothingLeft(replies: nat -> Reply, bases: seq<nat>)
    requires bases != []
  {
    |bases| == 1 && (replies(1).ret != 0 || replies(1).base == bases[0])
  }

  /** After a good first answer, a failed call leaves nothing reserved exactly in that case. */
  lemma LeakIff(replies: nat -> Reply, bases: seq<nat>)
    requires bases != [] && Noted(replies, bases) && GoodFirst(replies)
    requires |bases| > 1 ==> bases[1] != bases[0]
    ensures Granted(replies, |bases| + 1) - {bases[0]} == {} <==> NothingLeft(replies, bases)
  {
    var all := Granted(replies, |bases| + 1);
    if |bases| > 1 {
      assert replies(1).ret == 0 && bases[1] in all - {bases[0]};
    } else {
      GrantedNext(replies, 1);
      GrantedNext(replies, 0);
      assert replies(1).ret == 0 && replies(1).base != bases[0] ==> replies(1).base in all - {bases[0]};
    }
  }

  method ReserveAll(size: nat, maxChunk: nat, replies: nat -> Reply)
    returns (ok: bool, address: nat, bases: seq<nat>, asked: seq<Request>, ghost held: set<nat>)
    requires size > 0 && Divides(maxChunk, size)
    ensures maxChunk > 0 && (ok <==> AllFollow(replies, size, maxChunk))
    ensures !ok ==> !Follows(replies, |bases|, maxChunk)
    ensures Asked(asked, bases, maxChunk) && |asked| == if ok then |bases| else |bases| + 1
    ensures bases != [] && Noted(replies, bases)
    ensures |bases| > 1 && GoodFirst(replies) ==> bases[1] != bases[0]
    ensures ok ==> |bases| * maxChunk == size && address == bases[|bases| - 1]
    ensures ok ==> held == Granted(replies, |bases|)
    ensures ok ==> Descends(bases, maxChunk) && (GoodFirst(replies) ==> held == Bases(bases))
    ensures !ok ==> held == Granted(replies, |bases| + 1) - {bases[0]}
  {
    held, asked := {}, [];
    var chunkMaps: seq<nat> := [];
    var reserved := 0;
    while reserved < size
      invariant reserved == |chunkMaps| * maxChunk && reserved <= size
      invariant Taken(replies, chunkMaps, asked, maxChunk) && held == Granted(replies, |chunkMaps|)
      decreases size - reserved
    {
      NextChunk(|chunkMaps|, size, maxChunk);
      var chunk := if maxChunk < size - reserved then maxChunk else size - reserved;
      var reply := replies(|chunkMaps|);
      asked := asked + [Request(if chunkMaps == [] then 0 else chunkMaps[|chunkMaps| - 1], chunk)];
      GrantedNext(replies, |chunkMaps|);
      held := if reply.ret == 0 then held + {reply.base} else held;
      if reply.ret != 0 || reply.base == 0 ||
         (chunkMaps != [] && reply.base + maxChunk != chunkMaps[|chunkMaps| - 1]) {
        if chunkMaps != [] {
          TakenApart(replies, chunkMaps, asked[..|chunkMaps|], maxChunk);
          assert !Follows(replies, |chunkMaps|, maxChunk);
          return false, 0, chunkMaps, asked, held - {chunkMaps[0]};
        }
      }
      TakeOne(replies, chunkMaps, asked[..|chunkMaps|], maxChunk);
      reserved := reserved + chunk;
      chunkMaps := chunkMaps + [reply.base];
    }
    AllTaken(replies, chunkMaps, asked, maxChunk);
    ok, address, bases := true, chunkMaps[|chunkMaps| - 1], chunkMaps;
  }

  /** The loop so far: one request for each base, and every base but the first directly below the one before. */
  ghost predicate Taken(replies: nat -> Reply, bases: seq<nat>, asked: seq<Request>, chunk: nat) {
    && Noted(replies, bases) && Asked(asked, bases, chunk) && |asked| == |bases|
    && forall i :: 1 <= i < |bases| ==> Follows(replies, i, chunk)
  }

  lemma TakeOne(replies: nat -> Reply, bases: seq<nat>, asked: seq<Request>, chunk: nat)
    requires Taken(replies, bases, asked, chunk) && (bases != [] ==> Follows(replies, |bases|, chunk))
    ensures Taken(replies, bases + [replies(|bases|).base],
                  asked + [Request(if bases == [] then 0 else bases[|bases| - 1], chunk)], chunk)
  {
  }

  lemma TakenApart(replies: nat -> Reply, bases: seq<nat>, asked: seq<Request>, chunk: nat)
    requires Taken(replies, bases, asked, chunk) && chunk > 0
    ensures |bases| > 1 ==> bases[1] != bases[0]
  {
    assert |bases| > 1 ==> Follows(replies, 1, chunk);
  }

  lemma AllTaken(replies: nat -> Reply, bases: seq<nat>, asked: seq<Request>, chunk: nat)
    requires Taken(replies, bases, asked, chunk) && chunk > 0
    ensures AllFollow(replies, |bases| * chunk, chunk) && Descends(bases, chunk)
    ensures |bases| > 1 ==> bases[1] != bases[0]
    ensures GoodFirst(replies) ==> Granted(replies, |bases|) == Bases(bases)
  {
    MultipleDivides(|bases|, chunk);
    TakenApart(replies, bases, asked, chunk);
    forall i, j | 0 <= i < |bases| && j == i + 1 < |bases| ensures bases[j] + chunk == bases[i] {
      assert Follows(replies, j, chunk);
    }
    if GoodFirst(replies) {
      GrantedNoted(replies, bases);
    }
  }

  /** Three chunks, the third one refused: the first is given back and the second stays reserved. */
  method SecondChunkLeaks(chunk: nat, base: nat) returns (ok: bool, ghost held: set<nat>)
    requires 0 < chunk < base
    ensures !ok && held == {base - chunk}
  {
    var replies := (i: nat) =>
      if i == 0 then Reply(0, base) else if i == 1 then Reply(0, base - chunk) else Reply(1, 0);
    MultipleDivides(3, chunk);
    var address, bases, asked;
    ok, address, bases, asked, held := ReserveAll(3 * chunk, chunk, replies);
    assert replies(2).ret != 0 && |bases| <= 2;
    GrantedNext(replies, 2);
    GrantedNext(replies, 1);
    GrantedNext(replies, 0);
  }

  lemma GrantedNext(replies: nat -> Reply, n: nat)
    ensures Granted(replies, n + 1) == Granted(replies, n) + if replies(n).ret == 0 then {replies(n).base} else {}
  {
  }

  lemma GrantedNoted(replies: nat -> Reply, bases: seq<nat>)
    requires Noted(replies, bases) && GoodFirst(replies)
    ensures Granted(replies, |bases|) == Bases(bases)
  {
    forall b | b in bases ensures b in Granted(replies, |bases|) {
      var i :| 0 <= i < |bases| && bases[i] == b;
      assert replies(i).ret == 0;
    }
  }

  /** Either it all fits one chunk or it is a whole number of ranks. */
  predicate Reservable(total: nat, single: nat) {
    total > 0 ==> single > 0 && (total <= MAX_CHUNK || Divides(single, total))
  }

  /** The chunk is positive, so that the loops over it end, exactly for reservable sizes; then it divides the size. */
  lemma ChunkSplits(size: nat, single: nat, chunk: nat)
    requires size > 0 && IsChunk(size, single, chunk)
    ensures chunk > 0 <==> Reservable(size, single)
    ensures chunk > 0 ==> Divides(chunk, size)
  {
    MultipleDivides(1, size);
  }

  lemma NextChunk(k: nat, size: nat, chunk: nat)
    requires chunk > 0 && Divides(chunk, size) && k * chunk < size
    ensures k * chunk + chunk <= size && (k + 1) * chunk == k * chunk + chunk && k + 1 <= size / chunk
  {
    DivMod(size, chunk);
    Distribute(k, chunk);
    if k >= size / chunk {
      MulMono(size / chunk, k, chunk);
    }
    MulStep(k, size / chunk, chunk);
  }

  /** Releases upwards from the lowest address, chunk by chunk. */
  method GvaUnreserveMemory(address: nat, total: nat, single: nat) returns (released: seq<nat>, chunk: nat)
    requires Reservable(total, single)
    ensures IsChunk(total, single, chunk) && |released| * chunk == total
    ensures forall i :: 0 <= i < |released| ==> released[i] == address + i * chunk
  {
    var maxChunk := GetReserveChunkSize(total, single);
    chunk := maxChunk;
    released := [];
    if total > 0 {
      ChunkSplits(total, single, chunk);
    }
    var ptr := address;
    while ptr < address + total
      invariant ptr == address + |released| * chunk && |released| * chunk <= total
      invariant forall i :: 0 <= i < |released| ==> released[i] == address + i * chunk
      decreases address + total - ptr
    {
      NextChunk(|released|, total, chunk);
      released := released + [ptr];
      ptr := ptr + maxChunk;
    }
  }

  /** A successful reservation tiles `[address, address + total)`. */
  lemma {:induction false} DescendingTiles(bases: seq<nat>, chunk: nat, i: nat)
    requires Descends(bases, chunk) && i < |bases|
    ensures bases[|bases| - 1 - i] == bases[|bases| - 1] + i * chunk
  {
    if i > 0 {
      DescendingTiles(bases, chunk, i - 1);
      Distribute(i - 1, chunk);
    }
  }

  /** Releasing walks over exactly the reserved bases, each once. */
  lemma ReleaseMatchesReserve(bases: seq<nat>, released: seq<nat>, total: nat, chunk: nat)
    requires chunk > 0 && bases != [] && Descends(bases, chunk) && |bases| * chunk == total == |released| * chunk
    requires forall i :: 0 <= i < |released| ==> released[i] == bases[|bases| - 1] + i * chunk
    ensures |released| == |bases| && forall i :: 0 <= i < |released| ==> released[i] == bases[|bases| - 1 - i]
    ensures forall i, j :: 0 <= i < j < |released| ==> released[i] < released[j]
  {
    Cancel(|bases|, |released|, chunk);
    forall i | 0 <= i < |released| ensures released[i] == bases[|bases| - 1 - i] {
      DescendingTiles(bases, chunk, i);
    }
    forall i, j | 0 <= i < j < |released| ensures released[i] < released[j] {
      MulStep(i, j, chunk);
    }
  }
}
