/** The user device segment: remote slices under rank-tagged addresses, tracked in five containers. */
module UserSegment {
  import opened OrderedSets

  type U16 = x: int | 0 <= x < 0x1_0000
  type U48 = x: int | 0 <= x < 0x1_0000_0000_0000

  /** A 64-bit address as its upper 16 and lower 48 bits. */
  datatype Word = Word(tag: U16, low: U48)

  type Rank = U16

  /** The one 16-bit rank whose tag does not fit. */
  const LAST_RANK: Rank := 0xffff
  const INDEX_LIMIT: nat := 0x1_0000

  // ---------- Tags ----------

  function Pow2(n: nat): nat {
    if n == 0 then 1 else 2 * Pow2(n - 1)
  }

  /** Bitwise or of two `bits`-bit numbers. */
  function Or(a: nat, b: nat, bits: nat): (r: nat)
    requires a < Pow2(bits) && b < Pow2(bits)
    ensures r < Pow2(bits)
  {
    if a == 0 then b
    else if b == 0 then a
    else (if a % 2 == 1 || b % 2 == 1 then 1 else 0) + 2 * Or(a / 2, b / 2, bits - 1)
  }

  lemma Pow2Of16()
    ensures Pow2(16) == 0x1_0000
  {
    assert Pow2(4) == 16 && Pow2(8) == 256 && Pow2(12) == 4096;
  }

  function Or16(a: U16, b: U16): U16 {
    Pow2Of16();
    Or(a, b, 16)
  }

  /** Rank plus one is merged into the upper bits; a carry out of them is lost. */
  function Tag(address: Word, rank: Rank): Word {
    Word(Or16(address.tag, (rank + 1) % 0x1_0000), address.low)
  }

  function GetRankIdByAddr(value: Word): Option<Rank> {
    if value.tag == 0 then None else Some(value.tag - 1)
  }

  function Valid48BitsAddress(value: Word): Word {
    Word(0, value.low)
  }

  /** Rank and address come back exactly when the address was untagged and the rank is not the last one. */
  lemma TagRecoversIff(address: Word, rank: Rank)
    ensures GetRankIdByAddr(Tag(address, rank)) == Some(rank) && Valid48BitsAddress(Tag(address, rank)) == address <==>
            address.tag == 0 && rank != LAST_RANK
  {
    if address.tag != 0 {
      assert Valid48BitsAddress(Tag(address, rank)).tag != address.tag;
    }
  }

  // ---------- Remote slices ----------

  datatype Remote = Remote(index: nat, addr: Word, size: nat)

  datatype Named = Named(slice: Remote, name: string)

  datatype Export = Export(name: string, rank: Rank, size: nat)

  predicate Belongs(value: Word, rank: Rank) {
    GetRankIdByAddr(value) == Some(rank)
  }

  datatype Tables = Tables(
    remoteSlices: map<nat, Named>,
    addressed: map<Word, nat>,
    byRank: map<Rank, seq<Remote>>,
    imported: map<string, Export>,
    registerAddrs: set<Word>)

  ghost predicate InList(t: Tables, rank: Rank, x: Remote) {
    rank in t.byRank && x in t.byRank[rank]
  }

  /** What each slice in a rank's list has in the other four containers. */
  ghost predicate Backed(t: Tables, rank: Rank, x: Remote) {
    && Belongs(x.addr, rank) && x.addr in t.addressed && x.addr in t.registerAddrs
    && x.index in t.remoteSlices && t.remoteSlices[x.index].slice == x
    && t.remoteSlices[x.index].name in t.imported && t.imported[t.remoteSlices[x.index].name].rank == rank
  }

  ghost predicate ListsBacked(t: Tables) {
    && (forall r, x :: InList(t, r, x) ==> Backed(t, r, x))
    && (forall r, i, j :: r in t.byRank && 0 <= i < j < |t.byRank[r]| ==> t.byRank[r][i].index != t.byRank[r][j].index)
  }

  // Every entry of the four containers that carries a rank comes from that rank's list.

  ghost predicate SlicesFrom(t: Tables) {
    forall k :: k in t.remoteSlices ==> SliceFrom(t, k)
  }

  ghost predicate SliceFrom(t: Tables, k: nat)
    requires k in t.remoteSlices
  {
    t.remoteSlices[k].slice.index == k && exists r :: InList(t, r, t.remoteSlices[k].slice)
  }

  ghost predicate AddressedFrom(t: Tables) {
    forall a, r :: a in t.addressed && Belongs(a, r) ==> AddrFrom(t, r, a)
  }

  ghost predicate RegisteredFrom(t: Tables) {
    forall a :: a in t.registerAddrs ==> exists r :: AddrFrom(t, r, a)
  }

  ghost predicate NamesFrom(t: Tables) {
    forall n :: n in t.imported ==> NameFrom(t, t.imported[n].rank, n)
  }

  ghost predicate AddrFrom(t: Tables, rank: Rank, a: Word) {
    exists x :: InList(t, rank, x) && x.addr == a
  }

  ghost predicate NameFrom(t: Tables, rank: Rank, name: string) {
    exists x :: InList(t, rank, x) && x.index in t.remoteSlices && t.remoteSlices[x.index].name == name
  }

  ghost predicate Consistent(t: Tables) {
    ListsBacked(t) && SlicesFrom(t) && AddressedFrom(t) && RegisteredFrom(t) && NamesFrom(t)
  }

  // ---------- Import ----------

  /** `emplace`: an existing key keeps its value. */
  function Emplace<K, V>(m: map<K, V>, k: K, v: V): map<K, V> {
    if k in m then m else m[k := v]
  }

  function Imported(t: Tables, info: Export, x: Remote): Tables {
    Tables(
      Emplace(t.remoteSlices, x.index, Named(x, info.name)),
      Emplace(t.addressed, x.addr, x.size),
      t.byRank[info.rank := (if info.rank in t.byRank then t.byRank[info.rank] else []) + [x]],
      Emplace(t.imported, info.name, info),
      t.registerAddrs + {x.addr})
  }

  /** The slice's index is free, and its name is not known from another rank. */
  ghost predicate Importable(t: Tables, info: Export, index: nat) {
    index !in t.remoteSlices && (info.name in t.imported ==> t.imported[info.name].rank == info.rank)
  }

  lemma InListAfter(t: Tables, info: Export, x: Remote, r: Rank, y: Remote)
    ensures InList(Imported(t, info, x), r, y) <==> InList(t, r, y) || (r == info.rank && y == x)
  {
  }

  lemma ImportKeepsBacked(t: Tables, info: Export, x: Remote, r: Rank, y: Remote)
    requires ListsBacked(t) && Belongs(x.addr, info.rank) && Importable(t, info, x.index)
    requires InList(Imported(t, info, x), r, y)
    ensures Backed(Imported(t, info, x), r, y)
  {
    InListAfter(t, info, x, r, y);
    if InList(t, r, y) {
      assert Backed(t, r, y);
    }
  }

  lemma ImportKeepsLists(t: Tables, info: Export, x: Remote)
    requires ListsBacked(t) && Belongs(x.addr, info.rank) && Importable(t, info, x.index)
    ensures ListsBacked(Imported(t, info, x))
  {
    var t' := Imported(t, info, x);
    forall r, y | InList(t', r, y) ensures Backed(t', r, y) {
      ImportKeepsBacked(t, info, x, r, y);
    }
    forall r, i, j | r in t'.byRank && 0 <= i < j < |t'.byRank[r]|
      ensures t'.byRank[r][i].index != t'.byRank[r][j].index
    {
      if r == info.rank && j == |t'.byRank[r]| - 1 {
        assert InList(t, r, t.byRank[r][i]) && Backed(t, r, t.byRank[r][i]);
      }
    }
  }

  lemma ImportKeepsAddr(t: Tables, info: Export, x: Remote, r: Rank, a: Word)
    requires AddrFrom(t, r, a) || (r == info.rank && a == x.addr)
    ensures AddrFrom(Imported(t, info, x), r, a)
  {
    if AddrFrom(t, r, a) {
      var y :| InList(t, r, y) && y.addr == a;
      InListAfter(t, info, x, r, y);
    } else {
      InListAfter(t, info, x, r, x);
    }
  }

  lemma ImportKeepsSlices(t: Tables, info: Export, x: Remote)
    requires SlicesFrom(t)
    ensures SlicesFrom(Imported(t, info, x))
  {
    var t' := Imported(t, info, x);
    forall k | k in t'.remoteSlices ensures SliceFrom(t', k) {
      if k in t.remoteSlices {
        assert SliceFrom(t, k);
        var r :| InList(t, r, t.remoteSlices[k].slice);
        InListAfter(t, info, x, r, t.remoteSlices[k].slice);
      } else {
        InListAfter(t, info, x, info.rank, x);
      }
    }
  }

  lemma ImportKeepsAddrs(t: Tables, info: Export, x: Remote)
    requires AddressedFrom(t) && RegisteredFrom(t) && Belongs(x.addr, info.rank)
    ensures AddressedFrom(Imported(t, info, x)) && RegisteredFrom(Imported(t, info, x))
  {
    var t' := Imported(t, info, x);
    forall a, r | a in t'.addressed && Belongs(a, r) ensures AddrFrom(t', r, a) {
      ImportKeepsAddr(t, info, x, r, a);
    }
    forall a | a in t'.registerAddrs ensures exists r :: AddrFrom(t', r, a) {
      if a in t.registerAddrs {
        var r :| AddrFrom(t, r, a);
        ImportKeepsAddr(t, info, x, r, a);
      } else {
        ImportKeepsAddr(t, info, x, info.rank, a);
      }
    }
  }

  lemma ImportKeepsNames(t: Tables, info: Export, x: Remote)
    requires NamesFrom(t) && Importable(t, info, x.index)
    ensures NamesFrom(Imported(t, info, x))
  {
    var t' := Imported(t, info, x);
    forall n | n in t'.imported ensures NameFrom(t', t'.imported[n].rank, n) {
      var r := t'.imported[n].rank;
      if n in t.imported {
        var y :| InList(t, r, y) && y.index in t.remoteSlices && t.remoteSlices[y.index].name == n;
        InListAfter(t, info, x, r, y);
        assert t'.remoteSlices[y.index].name == n;
      } else {
        InListAfter(t, info, x, r, x);
        assert t'.remoteSlices[x.index].name == n;
      }
    }
  }

  /** The containers stay in step exactly when the index is free and the name is not another rank's. */
  lemma ImportConsistentIff(t: Tables, info: Export, x: Remote)
    requires Consistent(t) && Belongs(x.addr, info.rank)
    ensures Consistent(Imported(t, info, x)) <==> Importable(t, info, x.index)
  {
    if Importable(t, info, x.index) {
      ImportKeepsLists(t, info, x);
      ImportKeepsSlices(t, info, x);
      ImportKeepsAddrs(t, info, x);
      ImportKeepsNames(t, info, x);
    } else if x.index !in t.remoteSlices {
      ForeignName(t, info, x);
    } else if t.remoteSlices[x.index].slice == x {
      SameSliceTwice(t, info, x);
    } else {
      SharedIndex(t, info, x);
    }
  }

  /** An import under a fresh tag leaves the containers in step exactly when neither index nor name is taken. */
  lemma ImportStepIff(t: Tables, info: Export, index: nat, address: Word)
    requires Consistent(t) && address.tag == 0 && info.rank != LAST_RANK
    ensures Consistent(Imported(t, info, Remote(index, Tag(address, info.rank), info.size)))
        <==> Importable(t, info, index)
  {
    TagRecoversIff(address, info.rank);
    ImportConsistentIff(t, info, Remote(index, Tag(address, info.rank), info.size));
  }

  lemma NotBacked(t: Tables, rank: Rank, x: Remote)
    requires InList(t, rank, x) && !Backed(t, rank, x)
    ensures !ListsBacked(t)
  {
  }

  lemma ForeignName(t: Tables, info: Export, x: Remote)
    requires x.index !in t.remoteSlices && info.name in t.imported && t.imported[info.name].rank != info.rank
    ensures !ListsBacked(Imported(t, info, x))
  {
    InListAfter(t, info, x, info.rank, x);
    NotBacked(Imported(t, info, x), info.rank, x);
  }

  lemma SharedIndex(t: Tables, info: Export, x: Remote)
    requires x.index in t.remoteSlices && t.remoteSlices[x.index].slice != x
    ensures !ListsBacked(Imported(t, info, x))
  {
    InListAfter(t, info, x, info.rank, x);
    NotBacked(Imported(t, info, x), info.rank, x);
  }

  lemma SameSliceTwice(t: Tables, info: Export, x: Remote)
    requires ListsBacked(t) && SlicesFrom(t) && Belongs(x.addr, info.rank)
    requires x.index in t.remoteSlices && t.remoteSlices[x.index].slice == x
    ensures !ListsBacked(Imported(t, info, x))
  {
    assert SliceFrom(t, x.index);
    var r :| InList(t, r, x);
    assert Backed(t, r, x) && r == info.rank;
    var list := t.byRank[r];
    var i :| 0 <= i < |list| && list[i] == x;
    var list' := Imported(t, info, x).byRank[r];
    assert list'[i].index == list'[|list|].index;
  }

  // ---------- Removal ----------

  /** Every container without the entries of one rank. */
  ghost function WithoutRank(t: Tables, rank: Rank): Tables {
    Tables(
      map k | k in t.remoteSlices && !Belongs(t.remoteSlices[k].slice.addr, rank) :: t.remoteSlices[k],
      map a | a in t.addressed && !Belongs(a, rank) :: t.addressed[a],
      t.byRank - {rank},
      map n | n in t.imported && t.imported[n].rank != rank :: t.imported[n],
      set a | a in t.registerAddrs && !Belongs(a, rank))
  }

  ghost function Indices(list: seq<Remote>): set<nat> {
    set x | x in list :: x.index
  }

  ghost function Addrs(list: seq<Remote>): set<Word> {
    set x | x in list :: x.addr
  }

  ghost function Names(t: Tables, list: seq<Remote>): set<string> {
    set x | x in list && x.index in t.remoteSlices :: t.remoteSlices[x.index].name
  }

  /** The containers after the entries of the listed slices are erased. */
  ghost function Without(t: Tables, list: seq<Remote>): Tables {
    Tables(t.remoteSlices - Indices(list), t.addressed - Addrs(list), t.byRank,
           t.imported - Names(t, list), t.registerAddrs - Addrs(list))
  }

  ghost function Erased(t: Tables, x: Remote): Tables {
    Tables(t.remoteSlices - {x.index}, t.addressed - {x.addr}, t.byRank,
           if x.index in t.remoteSlices then t.imported - {t.remoteSlices[x.index].name} else t.imported,
           t.registerAddrs - {x.addr})
  }

  /** The containers after the loop over a list, whatever they hold. */
  ghost function ErasedAll(t: Tables, list: seq<Remote>): Tables {
    if list == [] then t else Erased(ErasedAll(t, list[..|list| - 1]), list[|list| - 1])
  }

  /** The containers after a rank is removed, whatever they hold. */
  ghost function Removed(t: Tables, rank: Rank): Tables {
    if rank in t.byRank then ErasedAll(t, t.byRank[rank]).(byRank := t.byRank - {rank}) else t
  }

  ghost function ListOf(t: Tables, rank: Rank): seq<Remote> {
    if rank in t.byRank then t.byRank[rank] else []
  }

  lemma IndexReached(t: Tables, rank: Rank, k: nat)
    requires ListsBacked(t) && SlicesFrom(t) && k in t.remoteSlices
    ensures k in Indices(ListOf(t, rank)) <==> Belongs(t.remoteSlices[k].slice.addr, rank)
  {
    var slice := t.remoteSlices[k].slice;
    assert SliceFrom(t, k);
    var r :| InList(t, r, slice);
    assert Backed(t, r, slice);
    if k in Indices(ListOf(t, rank)) {
      var x :| x in ListOf(t, rank) && x.index == k;
      assert InList(t, rank, x) && Backed(t, rank, x);
    }
  }

  lemma RegisteredAddressed(t: Tables, a: Word)
    requires ListsBacked(t) && RegisteredFrom(t) && a in t.registerAddrs
    ensures a in t.addressed
  {
    var r :| AddrFrom(t, r, a);
    var x :| InList(t, r, x) && x.addr == a;
    assert Backed(t, r, x);
  }

  lemma AddrReached(t: Tables, rank: Rank, a: Word)
    requires ListsBacked(t) && AddressedFrom(t) && a in t.addressed
    ensures a in Addrs(ListOf(t, rank)) <==> Belongs(a, rank)
  {
    if a in Addrs(ListOf(t, rank)) {
      var x :| x in ListOf(t, rank) && x.addr == a;
      assert InList(t, rank, x) && Backed(t, rank, x);
    }
    assert Belongs(a, rank) ==> AddrFrom(t, rank, a);
  }

  lemma NameReached(t: Tables, rank: Rank, n: string)
    requires ListsBacked(t) && NamesFrom(t) && n in t.imported
    ensures n in Names(t, ListOf(t, rank)) <==> t.imported[n].rank == rank
  {
    if n in Names(t, ListOf(t, rank)) {
      var x :| x in ListOf(t, rank) && x.index in t.remoteSlices && t.remoteSlices[x.index].name == n;
      assert InList(t, rank, x) && Backed(t, rank, x);
    }
    assert NameFrom(t, t.imported[n].rank, n);
  }

  lemma SlicesReached(t: Tables, rank: Rank)
    requires ListsBacked(t) && SlicesFrom(t)
    ensures WithoutRank(t, rank).remoteSlices == t.remoteSlices - Indices(ListOf(t, rank))
  {
    forall k | k in t.remoteSlices
      ensures k in Indices(ListOf(t, rank)) <==> Belongs(t.remoteSlices[k].slice.addr, rank)
    {
      IndexReached(t, rank, k);
    }
  }

  lemma AddrsReached(t: Tables, rank: Rank)
    requires ListsBacked(t) && AddressedFrom(t) && RegisteredFrom(t)
    ensures WithoutRank(t, rank).addressed == t.addressed - Addrs(ListOf(t, rank))
    ensures WithoutRank(t, rank).registerAddrs == t.registerAddrs - Addrs(ListOf(t, rank))
  {
    forall a | a in t.addressed ensures a in Addrs(ListOf(t, rank)) <==> Belongs(a, rank) {
      AddrReached(t, rank, a);
    }
    forall a | a in t.registerAddrs ensures a in t.addressed {
      RegisteredAddressed(t, a);
    }
  }

  lemma NamesReached(t: Tables, rank: Rank)
    requires ListsBacked(t) && NamesFrom(t)
    ensures WithoutRank(t, rank).imported == t.imported - Names(t, ListOf(t, rank))
  {
    forall n | n in t.imported ensures n in Names(t, ListOf(t, rank)) <==> t.imported[n].rank == rank {
      NameReached(t, rank, n);
    }
  }

  /** Going through the rank's list reaches exactly the rank's entries in every container. */
  lemma ListReachesAll(t: Tables, rank: Rank)
    requires Consistent(t)
    ensures WithoutRank(t, rank) == Without(t, ListOf(t, rank)).(byRank := t.byRank - {rank})
    ensures rank !in t.byRank ==> WithoutRank(t, rank) == t
  {
    SlicesReached(t, rank);
    AddrsReached(t, rank);
    NamesReached(t, rank);
    if rank !in t.byRank {
      NothingListed(t, rank);
    }
  }

  lemma NothingListed(t: Tables, rank: Rank)
    requires rank !in t.byRank
    ensures Without(t, []).(byRank := t.byRank - {rank}) == t
  {
    assert Indices([]) == {} && Addrs([]) == {} && Names(t, []) == {};
    assert t.remoteSlices - {} == t.remoteSlices && t.addressed - {} == t.addressed;
    assert t.imported - {} == t.imported && t.byRank - {rank} == t.byRank;
  }

  lemma KeptAddr(t: Tables, rank: Rank, r: Rank, a: Word)
    requires AddrFrom(t, r, a) && r != rank
    ensures AddrFrom(WithoutRank(t, rank), r, a)
  {
    var x :| InList(t, r, x) && x.addr == a;
    assert InList(WithoutRank(t, rank), r, x);
  }

  lemma KeptLists(t: Tables, rank: Rank)
    requires ListsBacked(t)
    ensures ListsBacked(WithoutRank(t, rank))
  {
    var w := WithoutRank(t, rank);
    forall r, x | InList(w, r, x) ensures Backed(w, r, x) {
      assert InList(t, r, x) && Backed(t, r, x);
    }
  }

  lemma KeptSlices(t: Tables, rank: Rank)
    requires ListsBacked(t) && SlicesFrom(t)
    ensures SlicesFrom(WithoutRank(t, rank))
  {
    var w := WithoutRank(t, rank);
    forall k | k in w.remoteSlices ensures SliceFrom(w, k) {
      assert SliceFrom(t, k);
      var r :| InList(t, r, t.remoteSlices[k].slice);
      assert Backed(t, r, t.remoteSlices[k].slice) && InList(w, r, w.remoteSlices[k].slice);
    }
  }

  lemma KeptAddrs(t: Tables, rank: Rank)
    requires ListsBacked(t) && AddressedFrom(t) && RegisteredFrom(t)
    ensures AddressedFrom(WithoutRank(t, rank)) && RegisteredFrom(WithoutRank(t, rank))
  {
    var w := WithoutRank(t, rank);
    forall a, r | a in w.addressed && Belongs(a, r) ensures AddrFrom(w, r, a) {
      KeptAddr(t, rank, r, a);
    }
    forall a | a in w.registerAddrs ensures exists r :: AddrFrom(w, r, a) {
      var r :| AddrFrom(t, r, a);
      var x :| InList(t, r, x) && x.addr == a;
      assert Backed(t, r, x);
      KeptAddr(t, rank, r, a);
    }
  }

  lemma KeptNames(t: Tables, rank: Rank)
    requires ListsBacked(t) && NamesFrom(t)
    ensures NamesFrom(WithoutRank(t, rank))
  {
    var w := WithoutRank(t, rank);
    forall n | n in w.imported ensures NameFrom(w, w.imported[n].rank, n) {
      var r := t.imported[n].rank;
      var x :| InList(t, r, x) && x.index in t.remoteSlices && t.remoteSlices[x.index].name == n;
      assert Backed(t, r, x) && InList(w, r, x);
    }
  }

  lemma RemovalKeepsInStep(t: Tables, rank: Rank)
    requires Consistent(t)
    ensures Consistent(WithoutRank(t, rank))
  {
    KeptLists(t, rank);
    KeptSlices(t, rank);
    KeptAddrs(t, rank);
    KeptNames(t, rank);
  }

  // ---------- Bytes in range ----------

  const WORD: nat := 0x1_0000_0000_0000_0000

  /** The address as a 64-bit number. */
  function Value(w: Word): (v: nat)
    ensures v < WORD && OfValue(v) == w
  {
    w.tag * TAG_UNIT + w.low
  }

  function OfValue(v: nat): Word
    requires v < WORD
  {
    Word(v / TAG_UNIT, v % TAG_UNIT)
  }

  /** The slices by the numbers of their addresses, each with its size. */
  function ByValue(addressed: map<Word, nat>): (slices: map<nat, nat>)
    ensures forall w :: w in addressed ==> Value(w) in slices && slices[Value(w)] == addressed[w]
    ensures forall k :: k in slices ==> k < WORD && OfValue(k) in addressed
  {
    var starts := set w | w in addressed :: Value(w);
    map v | v in starts :: addressed[OfValue(v)]
  }

  /** One past the last byte, in the arithmetic of 64-bit start and size. */
  function End(start: nat, size: nat): nat {
    if start + size < WORD then start + size else start + size - WORD
  }

  ghost predicate NearestReaches(slices: map<nat, nat>, a: nat, end: nat) {
    exists k :: IsFloor(slices.Keys, a, Some(k)) && end <= End(k, slices[k])
  }

  /** Some slice that starts at or below `a` ends at or above `end`: a scan of them all. */
  ghost predicate Reached(slices: map<nat, nat>, a: nat, end: nat) {
    exists k :: k in slices && k <= a && end <= k + slices[k]
  }

  ghost predicate Inside(slices: map<nat, nat>) {
    forall k :: k in slices ==> k + slices[k] < WORD
  }

  /** No slice ends after one that starts later. */
  ghost predicate EndsAscend(slices: map<nat, nat>) {
    forall j, k :: j in slices && k in slices && j < k ==> j + slices[j] <= k + slices[k]
  }

  ghost predicate Disjoint(slices: map<nat, nat>) {
    forall j, k :: j in slices && k in slices && j < k ==> j + slices[j] <= k
  }

  lemma {:induction false} NearestFrom(slices: map<nat, nat>, a: nat, k0: nat) returns (k: nat)
    requires k0 in slices && k0 <= a
    ensures IsFloor(slices.Keys, a, Some(k)) && k0 <= k
    decreases a - k0
  {
    if j: nat :| j in slices && k0 < j <= a {
      k := NearestFrom(slices, a, j);
    } else {
      k := k0;
    }
  }

  lemma NearestIsScan(slices: map<nat, nat>, a: nat, end: nat)
    requires Inside(slices) && EndsAscend(slices)
    ensures NearestReaches(slices, a, end) <==> Reached(slices, a, end)
  {
    if Reached(slices, a, end) {
      var k0 :| k0 in slices && k0 <= a && end <= k0 + slices[k0];
      var k := NearestFrom(slices, a, k0);
      assert end <= End(k, slices[k]);
    }
  }

  lemma NearestAt(slices: map<nat, nat>, a: nat, end: nat, pos: Option<nat>)
    requires IsFloor(slices.Keys, a, pos)
    ensures NearestReaches(slices, a, end) <==> pos.Some? && end <= End(pos.value, slices[pos.value])
  {
    forall k: nat | IsFloor(slices.Keys, a, Some(k)) ensures pos == Some(k) {
      assert k in slices.Keys;
    }
  }

  method EndsInReach(slices: map<nat, nat>, a: nat, end: nat) returns (hit: bool)
    ensures hit <==> NearestReaches(slices, a, end)
    ensures Inside(slices) && EndsAscend(slices) ==> (hit <==> Reached(slices, a, end))
  {
    var pos := Floor(slices.Keys, a);
    NearestAt(slices, a, end, pos);
    if Inside(slices) && EndsAscend(slices) {
      NearestIsScan(slices, a, end);
    }
    if pos.None? {
      return false;
    }
    return End(pos.value, slices[pos.value]) >= end;
  }

  /** The lookup answers as a scan does whether the `n` bytes from `a` on lie in one slice. */
  ghost predicate Agrees(slices: map<nat, nat>, a: nat, n: nat) {
    NearestReaches(slices, a, End(a, n)) <==> Reached(slices, a, a + n)
  }

  /**
   * It does so for all bytes of the address space exactly when no slice ends after one that starts later; disjoint
   * slices are of this kind.
   */
  lemma InRangeIff(slices: map<nat, nat>)
    requires Inside(slices)
    ensures EndsAscend(slices) <==> forall a: nat, n: nat :: a + n < WORD ==> Agrees(slices, a, n)
    ensures Disjoint(slices) ==> EndsAscend(slices)
  {
    if EndsAscend(slices) {
      forall a: nat, n: nat | a + n < WORD ensures Agrees(slices, a, n) {
        NearestIsScan(slices, a, a + n);
      }
    } else {
      var j, k :| j in slices && k in slices && j < k && j + slices[j] > k + slices[k];
      Outlasted(slices, j, k);
    }
  }

  lemma Outlasted(slices: map<nat, nat>, j: nat, k: nat)
    requires Inside(slices) && j in slices && k in slices && j < k && j + slices[j] > k + slices[k]
    ensures !Agrees(slices, k, j + slices[j] - k)
  {
    assert Reached(slices, k, j + slices[j]);
    forall q | IsFloor(slices.Keys, k, Some(q)) ensures q == k {
      assert k in slices.Keys;
    }
  }

  /** Bytes that run past the end of the address space are found exactly when they come round into reach. */
  lemma WrappedIff(slices: map<nat, nat>, a: nat, n: nat)
    requires Inside(slices) && EndsAscend(slices) && a < WORD && n < WORD
    ensures Agrees(slices, a, n) <==> a + n < WORD || !Reached(slices, a, a + n - WORD)
  {
    NearestIsScan(slices, a, End(a, n));
  }

  /** The last byte of the address space and one more: in range of any slice at all. */
  lemma PastTheEnd(slices: map<nat, nat>, k: nat)
    requires Inside(slices) && k in slices && k < WORD
    ensures NearestReaches(slices, WORD - 1, End(WORD - 1, 1)) && !Reached(slices, WORD - 1, WORD)
  {
    var q := NearestFrom(slices, WORD - 1, k);
    assert End(q, slices[q]) >= 0;
  }

  // The same in terms of tags and the 48 bits below them.

  const TAG_UNIT: nat := 0x1_0000_0000_0000

  /** The slices lie inside the address space of their tags. */
  ghost predicate Within(addressed: map<Word, nat>) {
    forall w :: w in addressed ==> w.low + addressed[w] < TAG_UNIT
  }

  /** Slices under one tag do not overlap. */
  ghost predicate Spread(addressed: map<Word, nat>) {
    forall v, w :: v in addressed && w in addressed && v.tag == w.tag && v.low < w.low ==> v.low + addressed[v] <= w.low
  }

  /** The `m` bytes from `a` on lie in the slice of `n` bytes at `w`. */
  predicate Covers(w: Word, n: nat, a: Word, m: nat) {
    w.tag == a.tag && w.low <= a.low && a.low + m <= w.low + n
  }

  ghost predicate InSomeSlice(addressed: map<Word, nat>, a: Word, m: nat) {
    exists w :: w in addressed && Covers(w, addressed[w], a, m)
  }

  lemma ValueOf(v: nat)
    requires v < WORD
    ensures Value(OfValue(v)) == v
  {
  }

  /** A slice inside the address space of its tag ends before any slice of a higher tag starts. */
  lemma WordOrder(v: Word, n: nat, w: Word)
    requires v.low + n < TAG_UNIT
    ensures Value(v) + n < WORD
    ensures Value(v) < Value(w) ==> v.tag < w.tag || (v.tag == w.tag && v.low < w.low)
    ensures v.tag < w.tag ==> Value(v) + n < Value(w)
  {
  }

  lemma WordsSpread(addressed: map<Word, nat>)
    requires Within(addressed) && Spread(addressed)
    ensures Inside(ByValue(addressed)) && EndsAscend(ByValue(addressed))
  {
    var slices := ByValue(addressed);
    forall k | k in slices ensures k + slices[k] < WORD {
      ValueOf(k);
      WordOrder(OfValue(k), slices[k], OfValue(k));
    }
    forall j, k | j in slices && k in slices && j < k ensures j + slices[j] <= k + slices[k] {
      ValueOf(j);
      ValueOf(k);
      WordOrder(OfValue(j), slices[j], OfValue(k));
    }
  }

  lemma WordScan(addressed: map<Word, nat>, a: Word, m: nat)
    requires Within(addressed) && a.low + m < TAG_UNIT
    ensures Reached(ByValue(addressed), Value(a), Value(a) + m) <==> InSomeSlice(addressed, a, m)
  {
    var slices := ByValue(addressed);
    if Reached(slices, Value(a), Value(a) + m) {
      var k :| k in slices && k <= Value(a) && Value(a) + m <= k + slices[k];
      var w := OfValue(k);
      ValueOf(k);
      WordOrder(w, addressed[w], a);
      assert Covers(w, addressed[w], a, m);
    }
    if InSomeSlice(addressed, a, m) {
      var w :| w in addressed && Covers(w, addressed[w], a, m);
      assert Value(w) in slices && slices[Value(w)] == addressed[w];
    }
  }

  // ---------- The segment ----------

  class Segment {
    var sliceCount: nat
    var remoteSlices: map<nat, Named>
    var addressed: map<Word, nat>
    var byRank: map<Rank, seq<Remote>>
    var imported: map<string, Export>
    var registerAddrs: set<Word>
    var registerSlices: map<nat, Word>
    ghost var ops: seq<Op>

    ghost function T(): Tables reads this {
      Tables(remoteSlices, addressed, byRank, imported, registerAddrs)
    }

    /** The containers are what the calls so far make of empty ones. */
    ghost predicate Valid() reads this {
      && T() == Run(ops).tables && registerSlices == Run(ops).locals
      && sliceCount == Run(ops).count % INDEX_LIMIT
    }

    constructor ()
      ensures Valid() && ops == []
    {
      sliceCount, remoteSlices, addressed, byRank, imported, registerAddrs := 0, map[], map[], map[], map[], {};
      registerSlices, ops := map[], [];
    }

    /** Registers own memory; it takes its index from the count that imported slices take theirs from. */
    method RegisterMemory(addr: Word, size: nat) returns (ok: bool, index: nat)
      requires Valid()
      modifies this`sliceCount, this`registerSlices, this`addressed, this`ops
      ensures Valid() && ops == old(ops) + [Register(addr, size)]
      ensures ok <==> addr != Word(0, 0) && size > 0
      ensures !ok ==> T() == old(T()) && sliceCount == old(sliceCount)
      ensures ok ==> index == old(sliceCount) && T() == WithLocal(old(T()), addr, size)
      ensures ok ==> addressed == Emplace(old(addressed), addr, size)
      ensures ok ==> registerSlices == Emplace(old(registerSlices), index, addr)
    {
      index := sliceCount;
      RunNext(ops, Register(addr, size));
      ops := ops + [Register(addr, size)];
      if addr == Word(0, 0) || size == 0 {
        return false, index;
      }
      NextIndex(Run(old(ops)).count);
      sliceCount := (sliceCount + 1) % INDEX_LIMIT;
      registerSlices := Emplace(registerSlices, index, addr);
      addressed := Emplace(addressed, addr, size);
      return true, index;
    }

    method ReleaseSliceMemory(index: nat) returns (ok: bool)
      requires Valid()
      modifies this`registerSlices, this`addressed, this`ops
      ensures Valid() && ops == old(ops) + [Release(index)]
      ensures ok <==> index in old(registerSlices)
      ensures T() == if ok then WithoutLocal(old(T()), old(registerSlices)[index]) else old(T())
      ensures ok ==> addressed == old(addressed) - {old(registerSlices)[index]}
    {
      RunNext(ops, Release(index));
      ops := ops + [Release(index)];
      if index !in registerSlices {
        return false;
      }
      addressed := addressed - {registerSlices[index]};
      registerSlices := registerSlices - {index};
      return true;
    }

    /**
     * Whether the nearest slice at or below the address reaches past the bytes. The map is ordered downwards, so that
     * `lower_bound` finds it.
     */
    method MemoryInRange(address: Word, size: nat) returns (hit: bool)
      requires size < WORD
      ensures hit <==> NearestReaches(ByValue(addressed), Value(address), End(Value(address), size))
      ensures Inside(ByValue(addressed)) && EndsAscend(ByValue(addressed)) && Value(address) + size < WORD ==>
                (hit <==> Reached(ByValue(addressed), Value(address), Value(address) + size))
      ensures Within(addressed) && Spread(addressed) && address.low + size < TAG_UNIT ==>
                (hit <==> InSomeSlice(addressed, address, size))
    {
      if Within(addressed) && Spread(addressed) && address.low + size < TAG_UNIT {
        WordsSpread(addressed);
        WordScan(addressed, address, size);
      }
      hit := EndsInReach(ByValue(addressed), Value(address), End(Value(address), size));
    }

    /** Records a remote slice under its tagged address; `address` is what opening it returned, null if nothing did. */
    method ImportSliceInfo(info: Export, address: Word) returns (ok: bool)
      requires Valid()
      modifies this
      ensures Valid() && ops == old(ops) + [Import(info, address)]
      ensures ok <==> address != Word(0, 0)
      ensures !ok ==> T() == old(T()) && sliceCount == old(sliceCount)
      ensures ok ==> T() == Imported(old(T()), info, NextSlice(old(sliceCount), info, address))
      ensures ok ==> addressed == Emplace(old(addressed), Tag(address, info.rank), info.size)
    {
      RunNext(ops, Import(info, address));
      ops := ops + [Import(info, address)];
      if address == Word(0, 0) {
        return false;
      }
      NextIndex(Run(old(ops)).count);
      CountWraps(Run(old(ops)).count, info, address);
      Record(info, NextSlice(sliceCount, info, address));
      return true;
    }

    method Record(info: Export, slice: Remote)
      modifies this
      ensures ops == old(ops) && registerSlices == old(registerSlices)
      ensures T() == Imported(old(T()), info, slice) && sliceCount == (old(sliceCount) + 1) % INDEX_LIMIT
    {
      registerAddrs := registerAddrs + {slice.addr};
      sliceCount := (sliceCount + 1) % INDEX_LIMIT;
      byRank := byRank[info.rank := (if info.rank in byRank then byRank[info.rank] else []) + [slice]];
      remoteSlices := Emplace(remoteSlices, slice.index, Named(slice, info.name));
      imported := Emplace(imported, info.name, info);
      addressed := Emplace(addressed, slice.addr, slice.size);
    }

    /** Whatever orderly history led here, the rank's entries go from all five containers and every other one stays. */
    method RemoveSliceInfo(rank: Rank, ghost owner: map<string, Rank>)
      requires Valid()
      modifies this`remoteSlices, this`addressed, this`byRank, this`imported, this`registerAddrs, this`ops
      ensures Valid() && ops == old(ops) + [Remove(rank)]
      ensures Orderly(old(ops), owner) && Run(old(ops)).count <= INDEX_LIMIT ==> T() == WithoutRank(old(T()), rank)
      ensures Orderly(old(ops), owner) && Run(old(ops)).count <= INDEX_LIMIT ==>
                forall a :: a in addressed <==> a in old(addressed) && !Belongs(a, rank)
    {
      if Orderly(ops, owner) && Run(ops).count <= INDEX_LIMIT {
        HistoryStaysInStep(ops, owner);
      }
      RunNext(ops, Remove(rank));
      ops := ops + [Remove(rank)];
      RemoveListed(rank);
    }

    method RemoveListed(rank: Rank)
      modifies this`remoteSlices, this`addressed, this`byRank, this`imported, this`registerAddrs
      ensures T() == Removed(old(T()), rank)
    {
      if rank in byRank {
        EraseAll(byRank[rank]);
        byRank := byRank - {rank};
      }
    }

    method EraseAll(list: seq<Remote>)
      modifies this`remoteSlices, this`addressed, this`imported, this`registerAddrs
      ensures T() == ErasedAll(old(T()), list)
    {
      ghost var t := T();
      for i := 0 to |list|
        invariant T() == ErasedAll(t, list[..i])
      {
        assert list[..i + 1][..i] == list[..i];
        Erase(list[i]);
      }
      assert list[..|list|] == list;
    }

    method Erase(x: Remote)
      modifies this`remoteSlices, this`addressed, this`imported, this`registerAddrs
      ensures T() == Erased(old(T()), x)
    {
      addressed := addressed - {x.addr};
      registerAddrs := registerAddrs - {x.addr};
      if x.index !in remoteSlices {
        assert remoteSlices == remoteSlices - {x.index};
        return;
      }
      var name := remoteSlices[x.index].name;
      if name !in imported {
        assert imported == imported - {name};
        remoteSlices := remoteSlices - {x.index};
        return;
      }
      imported := imported - {name};
      remoteSlices := remoteSlices - {x.index};
    }
  }

  lemma ListIndexed(t: Tables, rank: Rank)
    requires ListsBacked(t)
    ensures forall i :: 0 <= i < |ListOf(t, rank)| ==> ListOf(t, rank)[i].index in t.remoteSlices
    ensures forall i, j :: 0 <= i < j < |ListOf(t, rank)| ==> ListOf(t, rank)[i].index != ListOf(t, rank)[j].index
  {
    forall i | 0 <= i < |ListOf(t, rank)| ensures ListOf(t, rank)[i].index in t.remoteSlices {
      assert InList(t, rank, ListOf(t, rank)[i]) && Backed(t, rank, ListOf(t, rank)[i]);
    }
  }

  lemma EraseOne(t: Tables, list: seq<Remote>, i: nat)
    requires i < |list| && list[i].index in t.remoteSlices
    requires forall j, k :: 0 <= j < k < |list| ==> list[j].index != list[k].index
    ensures Erased(Without(t, list[..i]), list[i]) == Without(t, list[..i + 1])
  {
    var a, b, x := list[..i], list[..i + 1], list[i];
    assert b == a + [x];
    assert x.index !in Indices(a);
    assert Indices(b) == Indices(a) + {x.index};
    assert Addrs(b) == Addrs(a) + {x.addr};
    assert Names(t, b) == Names(t, a) + {t.remoteSlices[x.index].name};
  }

  lemma {:induction false} ErasedAllIsWithout(t: Tables, list: seq<Remote>, n: nat)
    requires n <= |list| && forall i :: 0 <= i < |list| ==> list[i].index in t.remoteSlices
    requires forall i, j :: 0 <= i < j < |list| ==> list[i].index != list[j].index
    ensures ErasedAll(t, list[..n]) == Without(t, list[..n])
  {
    if n == 0 {
      assert Without(t, list[..0]) == t;
    } else {
      ErasedAllIsWithout(t, list, n - 1);
      assert list[..n][..n - 1] == list[..n - 1];
      EraseOne(t, list, n - 1);
    }
  }

  /** From containers in step, removal takes exactly the entries of the rank, and leaves them in step. */
  lemma RemovedIsExact(t: Tables, rank: Rank)
    requires Consistent(t)
    ensures Removed(t, rank) == WithoutRank(t, rank) && Consistent(WithoutRank(t, rank))
  {
    ListReachesAll(t, rank);
    RemovalKeepsInStep(t, rank);
    ListIndexed(t, rank);
    ErasedAllIsWithout(t, ListOf(t, rank), |ListOf(t, rank)|);
    assert ListOf(t, rank)[..|ListOf(t, rank)|] == ListOf(t, rank);
  }

  // ---------- Histories ----------

  datatype Op =
    | Import(info: Export, address: Word)
    | Remove(rank: Rank)
    | Register(local: Word, size: nat)
    | Release(index: nat)

  /** The containers, the own registered memory by index, and how many indices have been given out. */
  datatype State = State(tables: Tables, locals: map<nat, Word>, count: nat)

  const Empty: State := State(Tables(map[], map[], map[], map[], {}), map[], 0)

  function NextSlice(count: nat, info: Export, address: Word): Remote {
    Remote(count % INDEX_LIMIT, Tag(address, info.rank), info.size)
  }

  /** Own memory shares one container with the imported slices. */
  function WithLocal(t: Tables, addr: Word, size: nat): Tables {
    t.(addressed := Emplace(t.addressed, addr, size))
  }

  function WithoutLocal(t: Tables, addr: Word): Tables {
    t.(addressed := t.addressed - {addr})
  }

  /** One call, as the methods of the segment carry it out. */
  ghost function Do(s: State, op: Op): State {
    match op
    case Import(info, address) =>
      if address == Word(0, 0) then s
      else s.(tables := Imported(s.tables, info, NextSlice(s.count, info, address)), count := s.count + 1)
    case Remove(rank) => s.(tables := Removed(s.tables, rank))
    case Register(local, size) =>
      if local == Word(0, 0) || size == 0 then s
      else State(WithLocal(s.tables, local, size), Emplace(s.locals, s.count % INDEX_LIMIT, local), s.count + 1)
    case Release(index) =>
      if index !in s.locals then s
      else State(WithoutLocal(s.tables, s.locals[index]), s.locals - {index}, s.count)
  }

  ghost function Run(ops: seq<Op>): State {
    if ops == [] then Empty else Do(Run(ops[..|ops| - 1]), ops[|ops| - 1])
  }

  lemma CountWraps(count: nat, info: Export, address: Word)
    ensures NextSlice(count % INDEX_LIMIT, info, address) == NextSlice(count, info, address)
  {
  }

  lemma NextIndex(count: nat)
    ensures (count % INDEX_LIMIT + 1) % INDEX_LIMIT == (count + 1) % INDEX_LIMIT
  {
  }

  lemma RunNext(ops: seq<Op>, op: Op)
    ensures Run(ops + [op]) == Do(Run(ops), op)
  {
    assert (ops + [op])[..|ops|] == ops;
  }

  /** Addresses come untagged, ranks have a tag, and every name belongs to one rank. */
  ghost predicate Orderly(ops: seq<Op>, owner: map<string, Rank>) {
    forall i :: 0 <= i < |ops| ==> OrderlyOp(ops[i], owner)
  }

  ghost predicate OrderlyOp(op: Op, owner: map<string, Rank>) {
    match op
    case Import(info, address) =>
      address.tag == 0 && info.rank != LAST_RANK && info.name in owner && owner[info.name] == info.rank
    case Register(local, _) => local.tag == 0
    case _ => true
  }

  /** Indices count up, and names are with their owners. */
  ghost predicate Counted(t: Tables, count: nat, owner: map<string, Rank>) {
    && (forall k :: k in t.remoteSlices ==> k < count)
    && (forall n :: n in t.imported ==> n in owner && t.imported[n].rank == owner[n])
  }

  ghost predicate Untagged(locals: map<nat, Word>) {
    forall k :: k in locals ==> locals[k].tag == 0
  }

  ghost predicate InStep(s: State, owner: map<string, Rank>) {
    Consistent(s.tables) && Counted(s.tables, s.count, owner) && Untagged(s.locals)
  }

  // Own memory is untagged, so what happens to its addresses concerns no rank.

  ghost predicate SameTagged(a: map<Word, nat>, b: map<Word, nat>) {
    forall w: Word :: w.tag != 0 ==> (w in a <==> w in b)
  }

  lemma LocalKeepsLists(t: Tables, addressed: map<Word, nat>)
    requires ListsBacked(t) && SameTagged(t.addressed, addressed)
    ensures ListsBacked(t.(addressed := addressed))
  {
    var t' := t.(addressed := addressed);
    forall r, x | InList(t', r, x) ensures Backed(t', r, x) {
      assert InList(t, r, x) && Backed(t, r, x);
    }
  }

  lemma LocalKeepsSlices(t: Tables, addressed: map<Word, nat>)
    requires SlicesFrom(t)
    ensures SlicesFrom(t.(addressed := addressed))
  {
    var t' := t.(addressed := addressed);
    forall k | k in t'.remoteSlices ensures SliceFrom(t', k) {
      assert SliceFrom(t, k);
      var r :| InList(t, r, t.remoteSlices[k].slice);
      assert InList(t', r, t'.remoteSlices[k].slice);
    }
  }

  lemma LocalKeepsAddr(t: Tables, addressed: map<Word, nat>, r: Rank, a: Word)
    requires AddrFrom(t, r, a)
    ensures AddrFrom(t.(addressed := addressed), r, a)
  {
    var x :| InList(t, r, x) && x.addr == a;
    assert InList(t.(addressed := addressed), r, x);
  }

  lemma LocalKeepsAddrs(t: Tables, addressed: map<Word, nat>)
    requires AddressedFrom(t) && RegisteredFrom(t) && SameTagged(t.addressed, addressed)
    ensures AddressedFrom(t.(addressed := addressed)) && RegisteredFrom(t.(addressed := addressed))
  {
    var t' := t.(addressed := addressed);
    forall a, r | a in t'.addressed && Belongs(a, r) ensures AddrFrom(t', r, a) {
      LocalKeepsAddr(t, addressed, r, a);
    }
    forall a | a in t'.registerAddrs ensures exists r :: AddrFrom(t', r, a) {
      var r :| AddrFrom(t, r, a);
      LocalKeepsAddr(t, addressed, r, a);
    }
  }

  lemma LocalKeepsNames(t: Tables, addressed: map<Word, nat>)
    requires NamesFrom(t)
    ensures NamesFrom(t.(addressed := addressed))
  {
    var t' := t.(addressed := addressed);
    forall n | n in t'.imported ensures NameFrom(t', t'.imported[n].rank, n) {
      var r := t.imported[n].rank;
      var x :| InList(t, r, x) && x.index in t.remoteSlices && t.remoteSlices[x.index].name == n;
      assert InList(t', r, x);
    }
  }

  lemma LocalStaysInStep(t: Tables, addressed: map<Word, nat>)
    requires Consistent(t) && SameTagged(t.addressed, addressed)
    ensures Consistent(t.(addressed := addressed))
  {
    LocalKeepsLists(t, addressed);
    LocalKeepsSlices(t, addressed);
    LocalKeepsAddrs(t, addressed);
    LocalKeepsNames(t, addressed);
  }

  lemma ImportCounted(t: Tables, owner: map<string, Rank>, info: Export, x: Remote)
    requires Counted(t, x.index, owner) && info.name in owner && owner[info.name] == info.rank
    ensures Importable(t, info, x.index) && Counted(Imported(t, info, x), x.index + 1, owner)
  {
  }

  lemma NextSliceTagged(count: nat, info: Export, address: Word)
    requires count < INDEX_LIMIT && address.tag == 0 && info.rank != LAST_RANK
    ensures NextSlice(count, info, address).index == count && Belongs(NextSlice(count, info, address).addr, info.rank)
  {
    TagRecoversIff(address, info.rank);
  }

  lemma ImportStaysInStep(t: Tables, owner: map<string, Rank>, info: Export, x: Remote)
    requires Consistent(t) && Counted(t, x.index, owner) && Belongs(x.addr, info.rank)
    requires info.name in owner && owner[info.name] == info.rank
    ensures Consistent(Imported(t, info, x)) && Counted(Imported(t, info, x), x.index + 1, owner)
  {
    ImportCounted(t, owner, info, x);
    ImportConsistentIff(t, info, x);
  }

  lemma RemovalStaysInStep(s: State, owner: map<string, Rank>, rank: Rank)
    requires InStep(s, owner)
    ensures InStep(Do(s, Remove(rank)), owner)
  {
    RemovedIsExact(s.tables, rank);
  }

  /**
   * After any history of imports, removals, registrations and releases that gives out at most 65536 indices, and in
   * which no two ranks share a name, the containers are in step, so that removing any rank clears exactly that rank.
   */
  lemma {:induction false} HistoryStaysInStep(ops: seq<Op>, owner: map<string, Rank>)
    requires Orderly(ops, owner) && Run(ops).count <= INDEX_LIMIT
    ensures InStep(Run(ops), owner)
    ensures forall rank :: Removed(Run(ops).tables, rank) == WithoutRank(Run(ops).tables, rank)
    decreases |ops|
  {
    if ops != [] {
      var front, last := ops[..|ops| - 1], ops[|ops| - 1];
      HistoryStaysInStep(front, owner);
      assert OrderlyOp(last, owner);
      StepStaysInStep(Run(front), owner, last);
    }
    forall rank ensures Removed(Run(ops).tables, rank) == WithoutRank(Run(ops).tables, rank) {
      RemovedIsExact(Run(ops).tables, rank);
    }
  }

  lemma StepStaysInStep(s: State, owner: map<string, Rank>, op: Op)
    requires InStep(s, owner) && OrderlyOp(op, owner) && Do(s, op).count <= INDEX_LIMIT
    ensures InStep(Do(s, op), owner)
  {
    match op
    case Import(info, address) =>
      if address != Word(0, 0) {
        NextSliceTagged(s.count, info, address);
        ImportStaysInStep(s.tables, owner, info, NextSlice(s.count, info, address));
      }
    case Remove(rank) => RemovalStaysInStep(s, owner, rank);
    case Register(local, size) => LocalStaysInStep(s.tables, Emplace(s.tables.addressed, local, size));
    case Release(index) =>
      if index in s.locals {
        LocalStaysInStep(s.tables, s.tables.addressed - {s.locals[index]});
      }
  }

  // ---------- What a shared name or index costs ----------

  lemma {:induction false} KeptByErase(t: Tables, list: seq<Remote>, k: nat)
    requires k in t.remoteSlices && forall i :: 0 <= i < |list| ==> list[i].index != k
    ensures k in ErasedAll(t, list).remoteSlices && ErasedAll(t, list).remoteSlices[k] == t.remoteSlices[k]
  {
    if list != [] {
      KeptByErase(t, list[..|list| - 1], k);
    }
  }

  /** A second rank imports a name of the first and is removed: the first rank's entry goes with it. */
  lemma SharedNameLost(t: Tables, info: Export, x: Remote)
    requires Consistent(t) && x.index !in t.remoteSlices
    requires info.name in t.imported && t.imported[info.name].rank != info.rank
    ensures info.name in WithoutRank(Imported(t, info, x), info.rank).imported
    ensures info.name !in Removed(Imported(t, info, x), info.rank).imported
  {
    var t', list := Imported(t, info, x), ListOf(t, info.rank);
    ListIndexed(t, info.rank);
    KeptByErase(t', list, x.index);
    assert t'.byRank[info.rank] == list + [x] && (list + [x])[..|list|] == list;
  }

  /** The 16-bit count has come round to an index another rank still uses: removing the newcomer takes that slice. */
  lemma SharedIndexLost(s: State, info: Export, address: Word)
    requires var k := s.count % INDEX_LIMIT;
             k in s.tables.remoteSlices && !Belongs(s.tables.remoteSlices[k].slice.addr, info.rank)
    requires address != Word(0, 0)
    ensures var k, t := s.count % INDEX_LIMIT, Do(s, Import(info, address)).tables;
            k in WithoutRank(t, info.rank).remoteSlices && k !in Removed(t, info.rank).remoteSlices
  {
    var t, list := Do(s, Import(info, address)).tables, ListOf(s.tables, info.rank);
    var x := NextSlice(s.count, info, address);
    assert t.byRank[info.rank] == list + [x] && (list + [x])[..|list|] == list;
  }

  /** Registrations move the count and nothing that carries a rank. */
  lemma {:induction false} RunRegisters(ops: seq<Op>, reg: Op, n: nat)
    requires reg.Register? && reg.local != Word(0, 0) && reg.size > 0
    ensures Run(ops + Repeated(reg, n)).count == Run(ops).count + n
    ensures Run(ops + Repeated(reg, n)).tables.remoteSlices == Run(ops).tables.remoteSlices
  {
    if n == 0 {
      assert ops + Repeated(reg, 0) == ops;
    } else {
      RunRegisters(ops, reg, n - 1);
      RunNext(ops + Repeated(reg, n - 1), reg);
      assert ops + Repeated(reg, n) == ops + Repeated(reg, n - 1) + [reg];
    }
  }

  function Repeated(op: Op, n: nat): (ops: seq<Op>)
    ensures |ops| == n && forall i :: 0 <= i < n ==> ops[i] == op
  {
    seq(n, _ => op)
  }

  /**
   * Two imports with 65535 registrations between them, under different names: the second takes the index of the
   * first, and removing its rank takes the slice of the other.
   */
  lemma CountComesRound(a: Export, b: Export, p: Word, q: Word, local: Word) returns (ops: seq<Op>)
    requires a.rank != b.rank && a.name != b.name && a.rank != LAST_RANK && b.rank != LAST_RANK
    requires p.tag == q.tag == local.tag == 0 && p.low > 0 && q.low > 0 && local.low > 0
    ensures Orderly(ops, map[a.name := a.rank, b.name := b.rank])
    ensures Run(ops).count == INDEX_LIMIT + 1
    ensures 0 in WithoutRank(Run(ops).tables, b.rank).remoteSlices
    ensures 0 !in Removed(Run(ops).tables, b.rank).remoteSlices
  {
    var middle := OneRound(a, p, local);
    NewcomerTakesSlice(middle, a, b, q);
    ops := middle + [Import(b, q)];
    RoundOrderly(middle, a, b, p, q, local);
  }

  lemma RoundOrderly(ops: seq<Op>, a: Export, b: Export, p: Word, q: Word, local: Word)
    requires a.name != b.name && a.rank != LAST_RANK && b.rank != LAST_RANK && p.tag == q.tag == local.tag == 0
    requires ops != [] && ops[0] == Import(a, p) && forall i :: 1 <= i < |ops| ==> ops[i] == Register(local, 1)
    ensures Orderly(ops + [Import(b, q)], map[a.name := a.rank, b.name := b.rank])
  {
    var owner := map[a.name := a.rank, b.name := b.rank];
    assert OrderlyOp(Import(a, p), owner) && OrderlyOp(Import(b, q), owner) && OrderlyOp(Register(local, 1), owner);
  }

  lemma NewcomerTakesSlice(ops: seq<Op>, a: Export, b: Export, q: Word)
    requires a.rank != b.rank && q.low > 0 && Run(ops).count == INDEX_LIMIT
    requires var slices := Run(ops).tables.remoteSlices; 0 in slices && Belongs(slices[0].slice.addr, a.rank)
    ensures var after := Run(ops + [Import(b, q)]);
            && after.count == INDEX_LIMIT + 1
            && 0 in WithoutRank(after.tables, b.rank).remoteSlices && 0 !in Removed(after.tables, b.rank).remoteSlices
  {
    SharedIndexLost(Run(ops), b, q);
    RunNext(ops, Import(b, q));
  }

  lemma FirstImport(a: Export, p: Word)
    requires a.rank != LAST_RANK && p.tag == 0 && p.low > 0
    ensures Run([Import(a, p)]).count == 1
    ensures var slices := Run([Import(a, p)]).tables.remoteSlices; 0 in slices && Belongs(slices[0].slice.addr, a.rank)
  {
    RunNext([], Import(a, p));
    assert [Import(a, p)] == [] + [Import(a, p)];
    NextSliceTagged(0, a, p);
  }

  lemma OneRound(a: Export, p: Word, local: Word) returns (ops: seq<Op>)
    requires a.rank != LAST_RANK && p.tag == local.tag == 0 && p.low > 0 && local.low > 0
    ensures |ops| == INDEX_LIMIT && ops[0] == Import(a, p) && Run(ops).count == INDEX_LIMIT
    ensures forall i :: 1 <= i < |ops| ==> ops[i] == Register(local, 1)
    ensures var slices := Run(ops).tables.remoteSlices; 0 in slices && Belongs(slices[0].slice.addr, a.rank)
  {
    ops := [Import(a, p)] + Repeated(Register(local, 1), INDEX_LIMIT - 1);
    FirstImport(a, p);
    RunRegisters([Import(a, p)], Register(local, 1), INDEX_LIMIT - 1);
  }

  /** The shortest history that goes wrong: two ranks import one name and the second is removed. */
  lemma TwoRanksOneName(name: string, a: Rank, b: Rank, p: Word, q: Word, size: nat)
    requires a != b && a != LAST_RANK && p.tag == 0 && p.low != 0 && q != Word(0, 0)
    ensures var t := Run([Import(Export(name, a, size), p), Import(Export(name, b, size), q)]).tables;
            name in t.imported && t.imported[name].rank == a && name !in Removed(t, b).imported
  {
    var first, second := Import(Export(name, a, size), p), Import(Export(name, b, size), q);
    assert [first, second][..1] == [first] && [first][..0] == [];
    var owner := map[name := a];
    HistoryStaysInStep([first], owner);
    var t := Run([first]).tables;
    SharedNameLost(t, second.info, Remote(1, Tag(q, b), size));
  }
}
