/**
 * What the containers of the user device segment hold, told key by key from the calls alone: the first filing under a
 * key counts, and lasts until the rank or the slice it came with is removed.
 */
module UserHistory {
  import opened OrderedSets
  import opened UserSegment

  ghost function Look<K, V>(m: map<K, V>, k: K): Option<V> {
    if k in m then Some(m[k]) else None
  }

  ghost predicate Opens(op: Op) {
    op.Import? && op.address != Word(0, 0)
  }

  ghost predicate Files(op: Op) {
    op.Register? && op.local != Word(0, 0) && op.size > 0
  }

  ghost function Front(ops: seq<Op>): seq<Op>
    requires ops != []
  {
    ops[..|ops| - 1]
  }

  ghost function Last(ops: seq<Op>): Op
    requires ops != []
  {
    ops[|ops| - 1]
  }

  /** Indices given out. */
  ghost function Given(ops: seq<Op>): nat {
    if ops == [] then 0 else Given(Front(ops)) + if Opens(Last(ops)) || Files(Last(ops)) then 1 else 0
  }

  /** The slice that an import after these calls makes. */
  ghost function SliceOf(ops: seq<Op>, op: Op): Remote
    requires op.Import?
  {
    Remote(Given(ops) % INDEX_LIMIT, Tag(op.address, op.info.rank), op.info.size)
  }

  /** The slices of a rank: those imported since it was last removed. */
  ghost function ListAt(ops: seq<Op>, rank: Rank): seq<Remote> {
    if ops == [] then []
    else
      var before, op := ListAt(Front(ops), rank), Last(ops);
      if Opens(op) && op.info.rank == rank then before + [SliceOf(Front(ops), op)]
      else if op == Remove(rank) then []
      else before
  }

  /** The slice under an index. */
  ghost function SliceAt(ops: seq<Op>, k: nat): Option<Named> {
    if ops == [] then None
    else
      var before, op := SliceAt(Front(ops), k), Last(ops);
      if Opens(op) && before.None? && Given(Front(ops)) % INDEX_LIMIT == k then
        Some(Named(SliceOf(Front(ops), op), op.info.name))
      else if op.Remove? && before.Some? && Belongs(before.value.slice.addr, op.rank) then None
      else before
  }

  /** The own memory under an index. */
  ghost function LocalAt(ops: seq<Op>, k: nat): Option<Word> {
    if ops == [] then None
    else
      var before, op := LocalAt(Front(ops), k), Last(ops);
      if Files(op) && before.None? && Given(Front(ops)) % INDEX_LIMIT == k then Some(op.local)
      else if op == Release(k) then None
      else before
  }

  /** The size under an address. */
  ghost function SizeAt(ops: seq<Op>, a: Word): Option<nat> {
    if ops == [] then None
    else
      var before, op := SizeAt(Front(ops), a), Last(ops);
      if Opens(op) && before.None? && Tag(op.address, op.info.rank) == a then Some(op.info.size)
      else if Files(op) && before.None? && op.local == a then Some(op.size)
      else if op.Remove? && Belongs(a, op.rank) then None
      else if op.Release? && LocalAt(Front(ops), op.index) == Some(a) then None
      else before
  }

  /** What was exported under a name. */
  ghost function ExportAt(ops: seq<Op>, name: string): Option<Export> {
    if ops == [] then None
    else
      var before, op := ExportAt(Front(ops), name), Last(ops);
      if Opens(op) && before.None? && op.info.name == name then Some(op.info)
      else if op.Remove? && before.Some? && before.value.rank == op.rank then None
      else before
  }

  ghost predicate OpenedAt(ops: seq<Op>, a: Word) {
    ops != [] &&
    var op := Last(ops);
    if Opens(op) && Tag(op.address, op.info.rank) == a then true
    else OpenedAt(Front(ops), a) && !(op.Remove? && Belongs(a, op.rank))
  }

  // ---------- The containers hold that ----------

  lemma {:induction false} CountIsGiven(ops: seq<Op>)
    ensures Run(ops).count == Given(ops)
  {
    if ops != [] {
      CountIsGiven(Front(ops));
    }
  }

  /** The calls are orderly and do not run out of indices. */
  ghost predicate Proper(ops: seq<Op>, owner: map<string, Rank>) {
    Orderly(ops, owner) && Given(ops) <= INDEX_LIMIT
  }

  /** The last call, and that removal before it was exact. */
  lemma LastStep(ops: seq<Op>, owner: map<string, Rank>)
    requires ops != [] && Proper(ops, owner)
    ensures Proper(Front(ops), owner) && Run(ops) == Do(Run(Front(ops)), Last(ops))
    ensures Run(Front(ops)).count == Given(Front(ops))
    ensures forall rank :: Removed(Run(Front(ops)).tables, rank) == WithoutRank(Run(Front(ops)).tables, rank)
  {
    CountIsGiven(Front(ops));
    HistoryStaysInStep(Front(ops), owner);
  }

  lemma {:induction false} ListHeld(ops: seq<Op>, owner: map<string, Rank>, rank: Rank)
    requires Proper(ops, owner)
    ensures ListOf(Run(ops).tables, rank) == ListAt(ops, rank)
    decreases |ops|
  {
    if ops != [] {
      LastStep(ops, owner);
      ListHeld(Front(ops), owner, rank);
    }
  }

  lemma {:induction false} SliceHeld(ops: seq<Op>, owner: map<string, Rank>, k: nat)
    requires Proper(ops, owner)
    ensures Look(Run(ops).tables.remoteSlices, k) == SliceAt(ops, k)
    decreases |ops|
  {
    if ops != [] {
      LastStep(ops, owner);
      SliceHeld(Front(ops), owner, k);
    }
  }

  lemma {:induction false} LocalHeld(ops: seq<Op>, k: nat)
    ensures Look(Run(ops).locals, k) == LocalAt(ops, k)
  {
    if ops != [] {
      CountIsGiven(Front(ops));
      LocalHeld(Front(ops), k);
    }
  }

  lemma {:induction false} SizeHeld(ops: seq<Op>, owner: map<string, Rank>, a: Word)
    requires Proper(ops, owner)
    ensures Look(Run(ops).tables.addressed, a) == SizeAt(ops, a)
    decreases |ops|
  {
    if ops != [] {
      LastStep(ops, owner);
      SizeHeld(Front(ops), owner, a);
      if Last(ops).Release? {
        LocalHeld(Front(ops), Last(ops).index);
      }
    }
  }

  lemma {:induction false} ExportHeld(ops: seq<Op>, owner: map<string, Rank>, name: string)
    requires Proper(ops, owner)
    ensures Look(Run(ops).tables.imported, name) == ExportAt(ops, name)
    decreases |ops|
  {
    if ops != [] {
      LastStep(ops, owner);
      ExportHeld(Front(ops), owner, name);
    }
  }

  lemma {:induction false} OpenedHeld(ops: seq<Op>, owner: map<string, Rank>, a: Word)
    requires Proper(ops, owner)
    ensures a in Run(ops).tables.registerAddrs <==> OpenedAt(ops, a)
    decreases |ops|
  {
    if ops != [] {
      LastStep(ops, owner);
      OpenedHeld(Front(ops), owner, a);
    }
  }

  /** After every orderly history, all six containers hold, under every key, what the calls say. */
  lemma HistoryPerKey(ops: seq<Op>, owner: map<string, Rank>)
    requires Orderly(ops, owner) && Given(ops) <= INDEX_LIMIT
    ensures forall rank :: ListOf(Run(ops).tables, rank) == ListAt(ops, rank)
    ensures forall k :: Look(Run(ops).tables.remoteSlices, k) == SliceAt(ops, k)
    ensures forall k :: Look(Run(ops).locals, k) == LocalAt(ops, k)
    ensures forall a :: Look(Run(ops).tables.addressed, a) == SizeAt(ops, a)
    ensures forall name :: Look(Run(ops).tables.imported, name) == ExportAt(ops, name)
    ensures forall a :: a in Run(ops).tables.registerAddrs <==> OpenedAt(ops, a)
  {
    forall rank ensures ListOf(Run(ops).tables, rank) == ListAt(ops, rank) {
      ListHeld(ops, owner, rank);
    }
    forall k ensures Look(Run(ops).tables.remoteSlices, k) == SliceAt(ops, k) {
      SliceHeld(ops, owner, k);
    }
    forall k ensures Look(Run(ops).locals, k) == LocalAt(ops, k) {
      LocalHeld(ops, k);
    }
    forall a ensures Look(Run(ops).tables.addressed, a) == SizeAt(ops, a) {
      SizeHeld(ops, owner, a);
    }
    forall name ensures Look(Run(ops).tables.imported, name) == ExportAt(ops, name) {
      ExportHeld(ops, owner, name);
    }
    forall a ensures a in Run(ops).tables.registerAddrs <==> OpenedAt(ops, a) {
      OpenedHeld(ops, owner, a);
    }
  }

  // ---------- Bytes of a slice, over the calls ----------

  /** Where a slice of `n` bytes at `w` overlaps no other, the bytes from its `i`th on are in it or in none. */
  lemma OwnBytes(addressed: map<Word, nat>, w: Word, i: nat, m: nat)
    requires w in addressed && Spread(addressed) && i < addressed[w] && w.low + i + m < TAG_UNIT
    ensures InSomeSlice(addressed, Word(w.tag, w.low + i), m) <==> i + m <= addressed[w]
    ensures m > 0 ==> !InSomeSlice(addressed - {w}, Word(w.tag, w.low + i), m)
  {
    var a := Word(w.tag, w.low + i);
    forall v | v in addressed && v != w && m > 0 ensures !Covers(v, addressed[v], a, m) {
      assert v.tag == w.tag ==> v.low != w.low;
    }
    if i + m <= addressed[w] {
      assert Covers(w, addressed[w], a, m);
    }
  }

  /** Asks for bytes of a slice, from its `i`th on. */
  method AskIn(segment: Segment, w: Word, i: nat, m: nat) returns (hit: bool)
    requires w in segment.addressed && Within(segment.addressed) && Spread(segment.addressed)
    requires i < segment.addressed[w] && w.low + i + m < TAG_UNIT
    ensures hit <==> i + m <= segment.addressed[w]
  {
    OwnBytes(segment.addressed, w, i, m);
    hit := segment.MemoryInRange(Word(w.tag, w.low + i), m);
  }

  /** Asks for them where that slice of `n` bytes is not. */
  method AskOut(segment: Segment, w: Word, n: nat, i: nat, m: nat) returns (hit: bool)
    requires w !in segment.addressed
    requires Within(segment.addressed[w := n]) && Spread(segment.addressed[w := n])
    requires i < n && m > 0 && w.low + i + m < TAG_UNIT
    ensures !hit
  {
    OwnBytes(segment.addressed[w := n], w, i, m);
    Fewer(segment.addressed, w, n);
    hit := segment.MemoryInRange(Word(w.tag, w.low + i), m);
  }

  lemma Fewer(slices: map<Word, nat>, a: Word, n: nat)
    requires a !in slices && Within(slices[a := n]) && Spread(slices[a := n])
    ensures Within(slices) && Spread(slices) && slices[a := n] - {a} == slices
  {
    assert forall w :: w in slices ==> slices[a := n][w] == slices[w];
  }

  /** Some of the slices that were there, each of the same size. */
  lemma StillSpread(slices: map<Word, nat>, some: map<Word, nat>, a: Word, n: nat)
    requires a !in some && Within(slices[a := n]) && Spread(slices[a := n])
    requires forall w :: w in some ==> w in slices && some[w] == slices[w]
    ensures Within(some[a := n]) && Spread(some[a := n])
  {
    var more, fewer := slices[a := n], some[a := n];
    assert forall w :: w in fewer ==> w in more && fewer[w] == more[w];
  }

  /**
   * Bytes are out of range before the import of their slice, in range while it is imported exactly as far as the slice
   * goes, and out of range again once its rank is removed.
   */
  method ImportedBytes(segment: Segment, info: Export, address: Word, i: nat, m: nat, ghost owner: map<string, Rank>)
    returns (before: bool, during: bool, after: bool)
    requires segment.Valid() && Proper(segment.ops + [Import(info, address)], owner) && address != Word(0, 0)
    requires var a := Tag(address, info.rank);
             && a !in segment.addressed
             && Within(segment.addressed[a := info.size]) && Spread(segment.addressed[a := info.size])
    requires i < info.size && m > 0 && address.low + i + m < TAG_UNIT
    modifies segment
    ensures !before && (during <==> i + m <= info.size) && !after
  {
    var a := Tag(address, info.rank);
    ghost var slices, ops := segment.addressed, segment.ops;
    before := AskOut(segment, a, info.size, i, m);
    var ok := segment.ImportSliceInfo(info, address);
    during := AskIn(segment, a, i, m);
    RankOf(ops, info, address, owner);
    segment.RemoveSliceInfo(info.rank, owner);
    StillSpread(slices, segment.addressed, a, info.size);
    after := AskOut(segment, a, info.size, i, m);
  }

  lemma RankOf(ops: seq<Op>, info: Export, address: Word, owner: map<string, Rank>)
    requires Proper(ops + [Import(info, address)], owner)
    ensures Belongs(Tag(address, info.rank), info.rank) && Run(ops + [Import(info, address)]).count <= INDEX_LIMIT
  {
    assert (ops + [Import(info, address)])[|ops|] == Import(info, address);
    assert OrderlyOp(Import(info, address), owner);
    TagRecoversIff(address, info.rank);
    CountIsGiven(ops + [Import(info, address)]);
  }

  /** The same for own memory, between its registration and its release. */
  method RegisteredBytes(segment: Segment, local: Word, size: nat, i: nat, m: nat)
    returns (before: bool, during: bool, after: bool)
    requires segment.Valid() && local != Word(0, 0) && segment.sliceCount !in segment.registerSlices
    requires local !in segment.addressed
    requires Within(segment.addressed[local := size]) && Spread(segment.addressed[local := size])
    requires i < size && m > 0 && local.low + i + m < TAG_UNIT
    modifies segment
    ensures !before && (during <==> i + m <= size) && !after
  {
    ghost var slices := segment.addressed;
    before := AskOut(segment, local, size, i, m);
    var ok, index := segment.RegisterMemory(local, size);
    during := AskIn(segment, local, i, m);
    ok := segment.ReleaseSliceMemory(index);
    StillSpread(slices, segment.addressed, local, size);
    after := AskOut(segment, local, size, i, m);
  }
}
