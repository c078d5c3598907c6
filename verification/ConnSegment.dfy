/**
 * The host memory segment: one slab of address space per rank, local slices cut from the front of the own slab,
 * remote slices imported from the other ranks, all registered with the address registry.
 */
module ConnSegment {
  import opened Arithmetic
  import opened OrderedSets
  import opened VaManager

  const LARGE_PAGE: nat := 2 * 1024 * 1024
  const MEM_TYPE_HOST: nat := 2
  const NO_RANK: nat := 0xFFFF_FFFF

  datatype Layout = Layout(base: nat, maxSize: nat, rankCnt: nat)

  ghost predicate LayoutOk(s: Layout) {
    s.base > 0 && s.base % LARGE_PAGE == 0 && s.maxSize > 0 && s.maxSize % LARGE_PAGE == 0 && s.rankCnt < INVALID_RANK
  }

  function SlabStart(s: Layout, rank: nat): nat {
    s.base + s.maxSize * rank
  }

  ghost predicate InSlab(s: Layout, rank: nat, addr: nat, size: nat) {
    rank < s.rankCnt && SlabStart(s, rank) <= addr && addr + size <= SlabStart(s, rank) + s.maxSize
  }

  ghost predicate InSegment(s: Layout, addr: nat, size: nat) {
    s.base <= addr && addr + size <= SlabStart(s, s.rankCnt)
  }

  lemma SlabInSegment(s: Layout, rank: nat, addr: nat, size: nat)
    requires InSlab(s, rank, addr, size)
    ensures InSegment(s, addr, size)
  {
    MulStep(rank, s.rankCnt, s.maxSize);
  }

  lemma SlabsApart(s: Layout, p: nat, a: nat, m: nat, q: nat, b: nat, n: nat)
    requires InSlab(s, p, a, m) && InSlab(s, q, b, n) && p != q
    ensures a + m <= b || b + n <= a
  {
    if p < q {
      MulStep(p, q, s.maxSize);
    } else {
      MulStep(q, p, s.maxSize);
    }
  }

  // ---------- Three answers to "whose byte is this" ----------

  /** The segment's own answer: the distance from its base, in slabs. */
  function SegmentRank(s: Layout, addr: nat): nat
    requires s.base <= addr && s.maxSize > 0
  {
    (addr - s.base) / s.maxSize
  }

  lemma SlabOfQuotient(s: Layout, addr: nat)
    requires s.maxSize > 0 && s.base <= addr
    ensures SlabStart(s, SegmentRank(s, addr)) <= addr < SlabStart(s, SegmentRank(s, addr) + 1)
  {
    var q := SegmentRank(s, addr);
    DivMod(addr - s.base, s.maxSize);
    Distribute(q, s.maxSize);
  }

  /** Slabs do not overlap, so an address is in one only. */
  lemma SlabOfIsUnique(s: Layout, p: nat, q: nat, addr: nat)
    requires SlabStart(s, p) <= addr < SlabStart(s, p + 1)
    ensures SlabStart(s, q) <= addr < SlabStart(s, q + 1) ==> p == q
  {
    if p < q {
      MulMono(p + 1, q, s.maxSize);
    } else if q < p {
      MulMono(q + 1, p, s.maxSize);
    }
  }

  lemma SlabByteRank(s: Layout, rank: nat, addr: nat, size: nat, a: nat)
    requires s.maxSize > 0 && InSlab(s, rank, addr, size) && addr <= a < addr + size
    ensures s.base <= a && SegmentRank(s, a) == rank
  {
    var d := a - s.base;
    Quotient(d, s.maxSize, rank + 1) by {
      Distribute(rank, s.maxSize);
    }
    if d / s.maxSize < rank {
      MulStep(d / s.maxSize, rank, s.maxSize);
    }
  }

  /** The spaces the data operators know, one per memory type. */
  class SpaceTable {
    var spaces: seq<Layout>

    ghost predicate Valid() reads this {
      |spaces| == MEM_TYPE_BUTT
    }

    constructor ()
      ensures Valid() && forall t :: 0 <= t < MEM_TYPE_BUTT ==> spaces[t] == Layout(0, 0, 0)
    {
      spaces := [Layout(0, 0, 0), Layout(0, 0, 0), Layout(0, 0, 0)];
    }

    method UpdateGvaSpace(memType: nat, gva: nat, localSpaceSize: nat, rankCount: nat)
      requires Valid() && memType <= MEM_TYPE_BUTT
      modifies this
      ensures Valid()
      ensures spaces == if memType == MEM_TYPE_BUTT || localSpaceSize == 0 then old(spaces)
                        else old(spaces)[memType := Layout(gva, localSpaceSize, rankCount)]
    {
      if memType == MEM_TYPE_BUTT || localSpaceSize == 0 {
        return;
      }
      spaces := spaces[memType := Layout(gva, localSpaceSize, rankCount)];
    }

    /** The first space that contains the address decides; no space, no rank. */
    method GetRankIdByGva(gva: nat) returns (rank: nat)
      requires Valid()
      ensures forall t :: 0 <= t < MEM_TYPE_BUTT && FirstSpace(spaces, gva, t) ==> rank == SegmentRank(spaces[t], gva)
      ensures (forall t :: 0 <= t < MEM_TYPE_BUTT ==> !InSpace(spaces[t], gva)) ==> rank == NO_RANK
    {
      for t := 0 to MEM_TYPE_BUTT
        invariant forall u :: 0 <= u < t ==> !InSpace(spaces[u], gva)
      {
        var s := spaces[t];
        if s.base <= gva && gva < s.base + s.rankCnt * s.maxSize {
          SpaceHasSize(s, gva);
          return (gva - s.base) / s.maxSize;
        }
      }
      return NO_RANK;
    }
  }

  ghost predicate InSpace(s: Layout, gva: nat) {
    s.maxSize > 0 && s.base <= gva < s.base + s.rankCnt * s.maxSize
  }

  ghost predicate FirstSpace(spaces: seq<Layout>, gva: nat, t: nat)
    requires t < |spaces|
  {
    InSpace(spaces[t], gva) && forall u :: 0 <= u < t ==> !InSpace(spaces[u], gva)
  }

  lemma SpaceHasSize(s: Layout, gva: nat)
    requires s.base <= gva < s.base + s.rankCnt * s.maxSize
    ensures s.maxSize > 0
  {
  }

  /** Host ranges lie in the slab of the rank they are registered for; other ranges keep out of the segment. */
  ghost predicate Placed(s: Layout, byGva: map<nat, Info>) {
    forall e :: Held(byGva, e) ==> PlacedOne(s, e)
  }

  ghost predicate PlacedOne(s: Layout, e: Info) {
    if e.memType == MEM_TYPE_HOST then InSlab(s, RankId(e), e.gva, e.size) && (e.lva == 0 || e.lva == e.gva)
    else
      && (e.gva + e.size <= s.base || SlabStart(s, s.rankCnt) <= e.gva)
      && (e.lva == 0 || e.lva + e.size <= s.base || SlabStart(s, s.rankCnt) <= e.lva)
  }

  /** For any byte of a registered host range, the division and the space table decide by the slab it is in. */
  lemma RanksAgree(s: Layout, byGva: map<nat, Info>, spaces: seq<Layout>, e: Info, a: nat)
    requires LayoutOk(s) && Placed(s, byGva) && Hit(byGva, a, e) && e.memType == MEM_TYPE_HOST
    requires |spaces| == MEM_TYPE_BUTT && spaces[MEM_TYPE_HOST] == s
    requires forall t :: 0 <= t < MEM_TYPE_HOST ==> !InSpace(spaces[t], a)
    ensures SlabStart(s, RankId(e)) <= a < SlabStart(s, RankId(e) + 1)
    ensures FirstSpace(spaces, a, MEM_TYPE_HOST) && SegmentRank(spaces[MEM_TYPE_HOST], a) == RankId(e)
  {
    assert PlacedOne(s, e);
    SlabByteRank(s, RankId(e), e.gva, e.size, a);
    SlabInSegment(s, RankId(e), e.gva, e.size);
    SlabOfQuotient(s, a);
  }

  // ---------- Slices ----------

  datatype Slice = Slice(addr: nat, size: nat)

  datatype Import = Import(rank: nat, addr: nat, size: nat)

  datatype Status = Ok | InvalidParam | MapFailed | RegisterFailed

  /** The slice starts on a page inside the used front of the slab. */
  ghost predicate SliceOk(start: nat, used: nat, c: Slice) {
    c.addr % LARGE_PAGE == 0 && start <= c.addr && c.addr + c.size <= start + used
  }

  ghost predicate SlicesOk(start: nat, used: nat, slices: seq<Slice>) {
    && (forall i :: 0 <= i < |slices| ==> SliceOk(start, used, slices[i]))
    && (forall i, j :: 0 <= i < j < |slices| ==> slices[i].addr + slices[i].size <= slices[j].addr)
  }

  /** Own host ranges in the registry stay within the used front of the own slab. */
  ghost predicate OwnUsed(s: Layout, rank: nat, used: nat, byGva: map<nat, Info>) {
    forall e :: Held(byGva, e) && e.memType == MEM_TYPE_HOST && RankId(e) == rank ==>
      e.gva + e.size <= SlabStart(s, rank) + used
  }

  function LocalInfo(addr: nat, size: nat, rank: nat): Info {
    Info(addr, size, MEM_TYPE_HOST, addr, false, rank, INVALID_RANK)
  }

  function ImportedInfo(im: Import, rank: nat): Info {
    Info(im.addr, im.size, MEM_TYPE_HOST, 0, im.rank == INVALID_RANK, rank, im.rank)
  }

  /** A new local slice lies beyond everything registered in the own slab and outside every other range. */
  lemma LocalIsClear(s: Layout, rank: nat, used: nat, byGva: map<nat, Info>, info: Info)
    requires LayoutOk(s) && Placed(s, byGva) && OwnUsed(s, rank, used, byGva) && Apart(byGva)
    requires info == LocalInfo(SlabStart(s, rank) + used, info.size, rank) && InSlab(s, rank, info.gva, info.size)
    ensures Clear(byGva, info)
  {
    SlabInSegment(s, rank, info.gva, info.size);
    forall g | g in byGva ensures !Overlaps(info, byGva[g]) && !OverlapsByLva(info, byGva[g]) {
      var e := byGva[g];
      assert Held(byGva, e) && PlacedOne(s, e);
      if e.memType == MEM_TYPE_HOST && RankId(e) != rank {
        SlabsApart(s, rank, info.gva, info.size, RankId(e), e.gva, e.size);
      }
    }
  }

  /** An imported slice that no host range opposes is outside every other range. */
  lemma ImportIsClear(s: Layout, byGva: map<nat, Info>, info: Info)
    requires Placed(s, byGva) && Apart(byGva) && InSlab(s, RankId(info), info.gva, info.size) && info.lva == 0
    requires forall e :: Held(byGva, e) && e.memType == MEM_TYPE_HOST ==> !Overlaps(info, e)
    ensures Clear(byGva, info)
  {
    SlabInSegment(s, RankId(info), info.gva, info.size);
    forall g | g in byGva ensures !Overlaps(info, byGva[g]) {
      assert Held(byGva, byGva[g]) && PlacedOne(s, byGva[g]);
    }
  }

  /** A host range recorded outside the slab of its rank is all it takes to lose the order by slabs. */
  lemma PlacedIff(s: Layout, byGva: map<nat, Info>, info: Info)
    requires Placed(s, byGva)
    ensures Placed(s, byGva[info.gva := info]) <==> PlacedOne(s, info)
  {
    var byGva' := byGva[info.gva := info];
    assert Held(byGva', info);
    forall e | Held(byGva', e) && e != info ensures PlacedOne(s, e) {
      assert Held(byGva, e);
    }
  }

  lemma AddKeepsOwnUsed(s: Layout, rank: nat, used: nat, byGva: map<nat, Info>, info: Info)
    requires OwnUsed(s, rank, used, byGva) && info.gva == SlabStart(s, rank) + used
    ensures OwnUsed(s, rank, used + info.size, byGva) && OwnUsed(s, rank, used + info.size, byGva[info.gva := info])
  {
    forall e | Held(byGva[info.gva := info], e) && e.memType == MEM_TYPE_HOST && RankId(e) == rank
      ensures e.gva + e.size <= SlabStart(s, rank) + (used + info.size)
    {
      assert e == info || Held(byGva, e);
    }
  }

  /** The range lies in the slab of its rank; when that is the own rank, in the used front of it. */
  ghost predicate Fits(s: Layout, rank: nat, used: nat, info: Info) {
    PlacedOne(s, info) && (RankId(info) == rank ==> info.gva + info.size <= SlabStart(s, rank) + used)
  }

  lemma ImportKeepsIff(s: Layout, rank: nat, used: nat, byGva: map<nat, Info>, info: Info)
    requires Placed(s, byGva) && OwnUsed(s, rank, used, byGva) && info.memType == MEM_TYPE_HOST
    ensures Placed(s, byGva[info.gva := info]) && OwnUsed(s, rank, used, byGva[info.gva := info]) <==>
            Fits(s, rank, used, info)
  {
    var byGva' := byGva[info.gva := info];
    PlacedIff(s, byGva, info);
    assert Held(byGva', info);
    forall e | Held(byGva', e) && e != info ensures Held(byGva, e) {
    }
  }

  /** A host range the registry keeps, in its set and in its list, although it does not fit. */
  ghost predicate Stray(s: Layout, rank: nat, used: nat, byGva: map<nat, Info>, byType: map<nat, seq<Info>>, e: Info) {
    e.memType == MEM_TYPE_HOST && e.size > 0 && !Fits(s, rank, used, e) && Held(byGva, e) && Listed(byType, e)
  }

  /** Nothing recorded later replaces it: it would overlap it. */
  lemma StrayStays(s: Layout, rank: nat, used: nat, byGva: map<nat, Info>, byType: map<nat, seq<Info>>, e: Info,
                   info: Info)
    requires Stray(s, rank, used, byGva, byType, e)
    requires info.memType == MEM_TYPE_HOST && info.size > 0 && Unopposed(byType, info)
    ensures Stray(s, rank, used, byGva[info.gva := info], Push(byType, info), e)
  {
    var i :| 0 <= i < |byType[e.memType]| && byType[e.memType][i] == e;
    assert !Overlaps(info, byType[info.memType][i]);
  }

  lemma StrayBreaks(s: Layout, rank: nat, used: nat, byGva: map<nat, Info>, byType: map<nat, seq<Info>>, e: Info)
    requires Stray(s, rank, used, byGva, byType, e)
    ensures !(Placed(s, byGva) && OwnUsed(s, rank, used, byGva))
  {
  }

  ghost function PutAll(byGva: map<nat, Info>, infos: seq<Info>): map<nat, Info> {
    if infos == [] then byGva
    else var last := infos[|infos| - 1]; PutAll(byGva, infos[..|infos| - 1])[last.gva := last]
  }

  /** What a batch has recorded so far, and the first slice among it that does not fit. */
  ghost predicate Batch(s: Layout, rank: nat, used: nat, infos: seq<Import>, before: map<nat, Info>,
                        byGva: map<nat, Info>, byType: map<nat, seq<Info>>, recorded: seq<Info>, stray: Option<Info>) {
    && byGva == PutAll(before, recorded)
    && (forall k :: 0 <= k < |recorded| ==> recorded[k].size > 0 && Among(infos, rank, recorded[k]))
    && match stray
       case None =>
         && (forall k :: 0 <= k < |recorded| ==> Fits(s, rank, used, recorded[k]))
         && (forall e :: Held(byGva, e) <==> Held(before, e) || e in recorded)
       case Some(e) => e in recorded && Stray(s, rank, used, byGva, byType, e)
  }

  lemma BatchStep(s: Layout, rank: nat, used: nat, infos: seq<Import>, i: nat, before: map<nat, Info>,
                  byGva: map<nat, Info>, byType: map<nat, seq<Info>>, recorded: seq<Info>, stray: Option<Info>)
    returns (stray': Option<Info>)
    requires Batch(s, rank, used, infos, before, byGva, byType, recorded, stray)
    requires i < |infos| && infos[i].rank != rank && infos[i].size > 0
    requires var info := ImportedInfo(infos[i], rank);
             Unopposed(byType, info) && (stray.None? && Fits(s, rank, used, info) ==> info.gva !in byGva)
    ensures var info := ImportedInfo(infos[i], rank);
            && Batch(s, rank, used, infos, before, byGva[info.gva := info], Push(byType, info), recorded + [info],
                     stray')
            && (stray'.None? <==> stray.None? && Fits(s, rank, used, info))
  {
    var info := ImportedInfo(infos[i], rank);
    assert (recorded + [info])[..|recorded|] == recorded;
    assert Among(infos, rank, info);
    stray' := stray;
    if stray.Some? {
      StrayStays(s, rank, used, byGva, byType, stray.value, info);
    } else if Fits(s, rank, used, info) {
      forall e ensures Held(byGva[info.gva := info], e) <==> Held(byGva, e) || e == info {
      }
    } else {
      stray' := Some(info);
      assert Push(byType, info)[info.memType][|Push(byType, info)[info.memType]| - 1] == info;
    }
  }

  lemma BatchDone(s: Layout, rank: nat, used: nat, infos: seq<Import>, before: map<nat, Info>,
                  byGva: map<nat, Info>, byType: map<nat, seq<Info>>, recorded: seq<Info>, stray: Option<Info>)
    requires Batch(s, rank, used, infos, before, byGva, byType, recorded, stray)
    ensures stray.None? <==> forall k :: 0 <= k < |recorded| ==> Fits(s, rank, used, recorded[k])
    ensures stray.Some? ==> !(Placed(s, byGva) && OwnUsed(s, rank, used, byGva))
  {
    if stray.Some? {
      StrayBreaks(s, rank, used, byGva, byType, stray.value);
    }
  }

  class Segment {
    const layout: Layout
    const rankId: nat
    const manager: Manager
    var used: nat
    var slices: seq<Slice>
    var imports: seq<Import>
    var mapped: set<nat>

    ghost predicate Valid() reads this, manager {
      && LayoutOk(layout) && rankId < layout.rankCnt && manager.Valid()
      && used <= layout.maxSize && used % LARGE_PAGE == 0
      && SlicesOk(SlabStart(layout, rankId), used, slices)
      && Placed(layout, manager.byGva) && OwnUsed(layout, rankId, used, manager.byGva)
    }

    constructor (layout: Layout, rankId: nat, manager: Manager)
      requires LayoutOk(layout) && rankId < layout.rankCnt && manager.Valid()
      requires Placed(layout, manager.byGva) && OwnUsed(layout, rankId, 0, manager.byGva)
      ensures Valid() && this.layout == layout && this.rankId == rankId && this.manager == manager
      ensures slices == [] && mapped == {} && imports == [] && used == 0
    {
      this.layout, this.rankId, this.manager := layout, rankId, manager;
      used, slices, imports, mapped := 0, [], [], {};
    }

    /** The rank whose slab the address is in, for bytes inside the segment; else the own rank, as a failure. */
    method GetRankIdByAddr(addr: nat, size: nat) returns (rank: nat, ok: bool)
      requires LayoutOk(layout)
      ensures ok <==> InSegment(layout, addr, size)
      ensures ok ==> SlabStart(layout, rank) <= addr < SlabStart(layout, rank + 1)
      ensures !ok ==> rank == rankId
    {
      if addr < layout.base || addr + size > SlabStart(layout, layout.rankCnt) {
        return rankId, false;
      }
      SlabOfQuotient(layout, addr);
      return SegmentRank(layout, addr), true;
    }

    /** Cuts the next slice off the own slab; `mapOk` is whether the system maps the memory. */
    method AllocLocalMemory(size: nat, mapOk: bool) returns (status: Status, addr: nat)
      requires Valid()
      modifies this`used, this`slices, manager
      ensures Valid()
      ensures status == if size % LARGE_PAGE != 0 || size + old(used) > layout.maxSize then InvalidParam
                        else if !mapOk then MapFailed else Ok
      ensures status != Ok ==> used == old(used) && slices == old(slices) && manager.byGva == old(manager.byGva)
      ensures status == Ok ==>
                && addr == SlabStart(layout, rankId) + old(used) && used == old(used) + size
                && slices == old(slices) + [Slice(addr, size)]
                && manager.byGva == if size == 0 then old(manager.byGva)
                                    else old(manager.byGva)[addr := LocalInfo(addr, size, rankId)]
    {
      if size % LARGE_PAGE != 0 || size + used > layout.maxSize {
        return InvalidParam, 0;
      }
      addr := SlabStart(layout, rankId) + used;
      if !mapOk {
        return MapFailed, addr;
      }
      SlabAligned(layout, rankId);
      NextSlice(SlabStart(layout, rankId), used, slices, size);
      var added := RegisterLocal(addr, size);
      used := used + size;
      slices := slices + [Slice(addr, size)];
      status := if added then Ok else RegisterFailed;
    }

    /** The registry never objects to the next slice of the own slab. */
    method RegisterLocal(addr: nat, size: nat) returns (added: bool)
      requires LayoutOk(layout) && manager.Valid() && Placed(layout, manager.byGva)
      requires OwnUsed(layout, rankId, used, manager.byGva) && rankId < layout.rankCnt
      requires addr == SlabStart(layout, rankId) + used && used + size <= layout.maxSize
      modifies manager
      ensures added && manager.Valid() && Placed(layout, manager.byGva)
      ensures OwnUsed(layout, rankId, used + size, manager.byGva)
      ensures manager.byGva == if size == 0 then old(manager.byGva)
                               else old(manager.byGva)[addr := LocalInfo(addr, size, rankId)]
    {
      var info := LocalInfo(addr, size, rankId);
      LocalIsClear(layout, rankId, used, manager.byGva, info);
      PlacedIff(layout, manager.byGva, info);
      AddKeepsOwnUsed(layout, rankId, used, manager.byGva, info);
      ClearMeansFree(manager.byGva, info);
      ghost var recorded;
      added, recorded := manager.AddVaInfo(info);
    }

    /** Registers one remote slice unless a different host range is in the way. */
    method ImportOne(im: Import) returns (ok: bool, ghost recorded: bool)
      modifies manager
      ensures recorded ==> im.size > 0 && Unopposed(old(manager.byType), ImportedInfo(im, rankId))
      ensures manager.byGva == (if recorded then old(manager.byGva)[im.addr := ImportedInfo(im, rankId)]
                                else old(manager.byGva))
      ensures manager.byType == (if recorded then Push(old(manager.byType), ImportedInfo(im, rankId))
                                 else old(manager.byType))
      ensures old(Valid()) ==>
                && (Valid() <==> (recorded ==> Fits(layout, rankId, used, ImportedInfo(im, rankId))))
                && (!ok <==> im.addr == 0 || (im.size > 0 && Opposed(old(manager.byGva), ImportedInfo(im, rankId))))
                && (!ok ==> !recorded)
                && (recorded ==> im.addr !in old(manager.byGva) || !Valid())
                && (ok ==> Handled(manager.byGva, im, rankId))
    {
      var info := ImportedInfo(im, rankId);
      ghost var before := manager.byGva;
      ghost var wasValid := Valid();
      if wasValid && Unopposed(manager.byType, info) {
        UnopposedInSet(before, manager.byType, info);
        ImportKeepsIff(layout, rankId, used, before, info);
        if Fits(layout, rankId, used, info) {
          ImportIsClear(layout, before, info);
        }
      }
      ok, recorded := manager.AddVaInfo(info);
      assert wasValid && ok && im.size > 0 ==> old(manager.Known(info)) || Held(manager.byGva, info);
    }

    /**
     * Takes over a batch of remote slices, own ones skipped. The segment is valid afterwards exactly when every
     * slice that was recorded fits.
     */
    method ImportSlices(infos: seq<Import>) returns (ok: bool, ghost recorded: seq<Info>)
      requires Valid()
      modifies this`imports, manager
      ensures imports == old(imports) + infos && manager.byGva == PutAll(old(manager.byGva), recorded)
      ensures forall k :: 0 <= k < |recorded| ==> recorded[k].size > 0 && Among(infos, rankId, recorded[k])
      ensures Valid() <==> forall k :: 0 <= k < |recorded| ==> Fits(layout, rankId, used, recorded[k])
      ensures Valid() ==> forall e :: Held(old(manager.byGva), e) || e in recorded <==> Held(manager.byGva, e)
      ensures Valid() && ok ==> AllHandled(manager.byGva, infos, rankId)
      ensures Valid() && !ok ==> exists i :: 0 <= i < |infos| && Refused(manager.byGva, infos[i], rankId)
    {
      imports := imports + infos;
      ghost var stray, at;
      ok, recorded, stray, at := ImportAll(infos);
      BatchDone(layout, rankId, used, infos, old(manager.byGva), manager.byGva, manager.byType, recorded, stray);
    }

    /** Slice after slice, up to the first refused; `stray` is the first recorded that does not fit. */
    method ImportAll(infos: seq<Import>)
      returns (ok: bool, ghost recorded: seq<Info>, ghost stray: Option<Info>, ghost at: nat)
      requires Valid()
      modifies manager
      ensures stray.None? ==> Valid()
      ensures Batch(layout, rankId, used, infos, old(manager.byGva), manager.byGva, manager.byType, recorded, stray)
      ensures stray.None? && ok ==> AllHandled(manager.byGva, infos, rankId)
      ensures stray.None? && !ok ==> at < |infos| && Refused(manager.byGva, infos[at], rankId)
    {
      ok, recorded, stray, at := true, [], None, 0;
      for i := 0 to |infos|
        invariant stray.None? ==> Valid() && AllHandled(manager.byGva, infos[..i], rankId)
        invariant Batch(layout, rankId, used, infos, old(manager.byGva), manager.byGva, manager.byType, recorded, stray)
      {
        ghost var g := manager.byGva;
        at := i;
        ok, recorded, stray := ImportNext(infos, i, old(manager.byGva), recorded, stray);
        if !ok {
          return;
        }
        if stray.None? {
          HandledStay(g, manager.byGva, infos, i, rankId);
        }
      }
      assert infos[..|infos|] == infos;
      ok := true;
    }

    method ImportNext(infos: seq<Import>, i: nat, ghost before: map<nat, Info>, ghost recorded: seq<Info>,
                      ghost stray: Option<Info>)
      returns (ok: bool, ghost recorded': seq<Info>, ghost stray': Option<Info>)
      requires i < |infos| && (stray.None? ==> Valid())
      requires Batch(layout, rankId, used, infos, before, manager.byGva, manager.byType, recorded, stray)
      modifies manager
      ensures stray'.None? ==> stray.None? && Valid()
      ensures Batch(layout, rankId, used, infos, before, manager.byGva, manager.byType, recorded', stray')
      ensures stray'.None? ==> forall e :: Held(old(manager.byGva), e) ==> Held(manager.byGva, e)
      ensures ok && stray'.None? ==> Handled(manager.byGva, infos[i], rankId)
      ensures !ok && stray'.None? ==> Refused(manager.byGva, infos[i], rankId)
    {
      recorded', stray' := recorded, stray;
      if infos[i].rank == rankId {
        return true, recorded, stray;
      }
      ghost var took;
      ghost var g, t := manager.byGva, manager.byType;
      ok, took := ImportOne(infos[i]);
      if took {
        stray' := BatchStep(layout, rankId, used, infos, i, before, g, t, recorded, stray);
        recorded' := recorded + [ImportedInfo(infos[i], rankId)];
      }
    }

    method Mmap()
      modifies this`imports, this`mapped
      ensures imports == [] && mapped == old(mapped) + RemoteAddrs(old(imports), rankId)
    {
      for i := 0 to |imports|
        invariant imports == old(imports) && mapped == old(mapped) + RemoteAddrs(imports[..i], rankId)
      {
        assert imports[..i + 1] == imports[..i] + [imports[i]];
        if imports[i].rank != rankId {
          mapped := mapped + {imports[i].addr};
        }
      }
      assert imports[..|imports|] == imports;
      imports := [];
    }

    /** Takes out the range that starts at an address of the segment; an address nobody registered takes out nothing. */
    method RemoveOne(v: nat) returns (defined: bool)
      requires Valid() && InSegment(layout, v, 1)
      modifies manager
      ensures Valid() && (defined <==> old(manager.byGva) != map[])
      ensures manager.byGva == old(manager.byGva) - {v}
    {
      OnlyItsOwn(layout, manager.byGva, v);
      KeepsPlaced(layout, manager.byGva, v);
      ghost var target;
      defined, target := manager.RemoveOneVaInfo(v);
      assert manager.byGva == old(manager.byGva) - {v};
    }

    method RemoveLeast(part: set<nat>) returns (rest: set<nat>, defined: bool)
      requires Valid() && part != {} && forall v :: v in part ==> InSegment(layout, v, 1)
      modifies manager
      ensures Valid() && rest < part && manager.byGva == old(manager.byGva) - (part - rest)
      ensures Covered(old(manager.byGva.Keys), part) <==> defined && Covered(manager.byGva.Keys, rest)
    {
      var v := First(part);
      CoveredNext(manager.byGva, part, v);
      defined := RemoveOne(v);
      rest := part - {v};
      assert part - rest == {v};
    }

    /** In ascending order, as the set is walked; the run ends when a lookup has no registry to look at. */
    method RemoveAll(part: set<nat>) returns (defined: bool)
      requires Valid() && forall v :: v in part ==> InSegment(layout, v, 1)
      modifies manager
      ensures Valid() && (defined <==> Covered(old(manager.byGva.Keys), part))
      ensures defined ==> manager.byGva == old(manager.byGva) - part
    {
      ghost var all := manager.byGva;
      var rest := part;
      while rest != {}
        invariant rest <= part && Valid() && manager.byGva == all - (part - rest)
        invariant Covered(all.Keys, part) <==> Covered(manager.byGva.Keys, rest)
        decreases rest
      {
        ghost var before := rest;
        rest, defined := RemoveLeast(rest);
        if !defined {
          return;
        }
        MinusBoth({}, all, part - before, before - rest);
        assert (part - before) + (before - rest) == part - rest;
      }
      defined := true;
    }

    /** Drops what is mapped in one slab, from the registry too. */
    method RemoveSlab(rank: nat) returns (defined: bool)
      requires Valid() && rank < layout.rankCnt
      modifies this`mapped, manager
      ensures Valid() && (defined <==> Covered(old(manager.byGva.Keys), SlabPart(layout, old(mapped), rank)))
      ensures defined ==> mapped == old(mapped) - SlabPart(layout, old(mapped), rank)
      ensures defined ==> manager.byGva == old(manager.byGva) - SlabPart(layout, old(mapped), rank)
    {
      var addr := SlabStart(layout, rank);
      var part := set v | v in mapped && addr <= v < addr + layout.maxSize;
      assert part == SlabPart(layout, mapped, rank);
      forall v | v in part ensures InSegment(layout, v, 1) {
        SlabInSegment(layout, rank, v, 1);
      }
      defined := RemoveAll(part);
      if defined {
        mapped := mapped - part;
      }
    }

    /** Forgets the imports of the named ranks, all of them or, when a name is invalid, none. */
    method RemoveImported(ranks: seq<nat>) returns (ok: bool, defined: bool)
      requires Valid()
      modifies this`mapped, manager
      ensures Valid() && (ok <==> RanksOk(layout, ranks))
      ensures !ok ==> defined && mapped == old(mapped) && manager.byGva == old(manager.byGva)
      ensures ok ==> (defined <==> old(Steady(layout, manager.byGva.Keys, mapped, ranks)))
      ensures ok && defined ==> mapped == old(mapped) - SlabParts(layout, old(mapped), ranks)
      ensures ok && defined ==> manager.byGva == old(manager.byGva) - SlabParts(layout, old(mapped), ranks)
    {
      for i := 0 to |ranks|
        invariant forall j :: 0 <= j < i ==> ranks[j] < layout.rankCnt
      {
        if ranks[i] >= layout.rankCnt {
          return false, true;
        }
      }
      ok := true;
      defined := RemoveRanks(ranks);
    }

    method RemoveRanks(ranks: seq<nat>) returns (defined: bool)
      requires Valid() && RanksOk(layout, ranks)
      modifies this`mapped, manager
      ensures Valid() && (defined <==> old(Steady(layout, manager.byGva.Keys, mapped, ranks)))
      ensures defined ==> mapped == old(mapped) - SlabParts(layout, old(mapped), ranks)
      ensures defined ==> manager.byGva == old(manager.byGva) - SlabParts(layout, old(mapped), ranks)
    {
      ghost var m, g := mapped, manager.byGva;
      assert ranks[0..] == ranks;
      for i := 0 to |ranks|
        invariant Valid() && mapped == m - SlabParts(layout, m, ranks[..i])
        invariant manager.byGva == g - SlabParts(layout, m, ranks[..i])
        invariant Steady(layout, g.Keys, m, ranks) <==> Steady(layout, manager.byGva.Keys, mapped, ranks[i..])
      {
        SteadyStep(layout, manager.byGva, mapped, ranks, i);
        PartsStep(layout, m, ranks, i);
        MinusBoth(m, g, SlabParts(layout, m, ranks[..i]), SlabPart(layout, mapped, ranks[i]));
        defined := RemoveSlab(ranks[i]);
        if !defined {
          return;
        }
      }
      assert ranks[..|ranks|] == ranks;
      defined := true;
    }
  }

  lemma SteadyStep(s: Layout, byGva: map<nat, Info>, mapped: set<nat>, ranks: seq<nat>, i: nat)
    requires i < |ranks|
    ensures var part := SlabPart(s, mapped, ranks[i]);
            Steady(s, byGva.Keys, mapped, ranks[i..]) <==>
            Covered(byGva.Keys, part) && Steady(s, (byGva - part).Keys, mapped - part, ranks[i + 1..])
  {
    var part := SlabPart(s, mapped, ranks[i]);
    assert ranks[i..][0] == ranks[i] && ranks[i..][1..] == ranks[i + 1..];
    assert (byGva - part).Keys == byGva.Keys - part;
  }

  ghost predicate RanksOk(s: Layout, ranks: seq<nat>) {
    forall i :: 0 <= i < |ranks| ==> ranks[i] < s.rankCnt
  }

  // ---------- Removal while the registry is not empty ----------

  /**
   * Taking the addresses out of the registry one by one, lowest first, never meets an empty registry: some entry
   * is not among them, or is the last of them.
   */
  ghost predicate Covered(keys: set<nat>, part: set<nat>) {
    part == {} || exists k :: k in keys && (k in part ==> forall v :: v in part ==> v <= k)
  }

  lemma CoveredNext(byGva: map<nat, Info>, rest: set<nat>, v: nat)
    requires v in rest && forall w :: w in rest ==> v <= w
    ensures Covered(byGva.Keys, rest) <==> byGva != map[] && Covered((byGva - {v}).Keys, rest - {v})
  {
    if Covered(byGva.Keys, rest) {
      var k := Stays(byGva.Keys, rest);
      assert k in byGva;
      if rest - {v} != {} {
        var w :| w in rest - {v};
        assert k in rest ==> w <= k;
        assert k != v && k in (byGva - {v}).Keys;
      }
    }
    if byGva != map[] && Covered((byGva - {v}).Keys, rest - {v}) {
      StaysBefore(byGva, rest, v);
    }
  }

  lemma StaysBefore(byGva: map<nat, Info>, rest: set<nat>, v: nat)
    requires v in rest && (forall w :: w in rest ==> v <= w) && byGva != map[]
    requires Covered((byGva - {v}).Keys, rest - {v})
    ensures Covered(byGva.Keys, rest)
  {
    if rest - {v} == {} {
      assert rest == {v};
      var k :| k in byGva;
      assert k in byGva.Keys;
    } else {
      var k := Stays((byGva - {v}).Keys, rest - {v});
      assert k in byGva.Keys && k != v;
      forall w | k in rest && w in rest ensures w <= k {
        assert w != v ==> w in rest - {v};
        assert k in rest - {v};
      }
    }
  }

  ghost function Stays(keys: set<nat>, part: set<nat>): (k: nat)
    requires part != {} && Covered(keys, part)
    ensures k in keys && (k in part ==> forall v :: v in part ==> v <= k)
  {
    var k :| k in keys && (k in part ==> forall v :: v in part ==> v <= k);
    k
  }

  /** The same slab after slab. */
  ghost predicate Steady(s: Layout, keys: set<nat>, mapped: set<nat>, ranks: seq<nat>)
    decreases |ranks|
  {
    ranks == [] ||
    var part := SlabPart(s, mapped, ranks[0]);
    Covered(keys, part) && Steady(s, keys - part, mapped - part, ranks[1..])
  }

  /** That is exactly what the lookups on the way need. */
  lemma CoveredIff(keys: set<nat>, part: set<nat>, order: seq<nat>)
    requires Ascending(order) && forall v :: v in order <==> v in part
    ensures Covered(keys, part) <==> forall i :: 0 <= i < |order| ==> SomeLeft(keys, order[..i])
  {
    if order != [] {
      assert order[0] in part;
      var last := |order| - 1;
      if Covered(keys, part) {
        var k := Stays(keys, part);
        forall i | 0 <= i < |order| ensures SomeLeft(keys, order[..i]) {
          assert order[last] in part;
          assert k !in order[..i];
        }
      }
      if SomeLeft(keys, order[..last]) {
        LastLeft(keys, part, order);
      }
    }
  }

  lemma LastLeft(keys: set<nat>, part: set<nat>, order: seq<nat>)
    requires Ascending(order) && (forall v :: v in order <==> v in part) && order != []
    requires SomeLeft(keys, order[..|order| - 1])
    ensures Covered(keys, part)
  {
    var last := |order| - 1;
    var k :| k in keys && k !in order[..last];
    forall i | 0 <= i < last ensures order[i] != k {
      assert order[..last][i] == order[i];
    }
    forall v | k in part && v in part ensures v <= k {
      var i :| 0 <= i < |order| && order[i] == k;
      var j :| 0 <= j < |order| && order[j] == v;
    }
  }

  ghost predicate SomeLeft(keys: set<nat>, gone: seq<nat>) {
    exists k :: k in keys && k !in gone
  }

  /** One entry outside the named slabs, such as a slice of the own rank, is enough. */
  lemma {:induction false} OutsiderSteadies(s: Layout, keys: set<nat>, mapped: set<nat>, ranks: seq<nat>, k: nat)
    requires k in keys && forall i :: 0 <= i < |ranks| ==> !InNamedSlab(s, ranks[i], k)
    ensures Steady(s, keys, mapped, ranks)
    decreases |ranks|
  {
    if ranks != [] {
      var part := SlabPart(s, mapped, ranks[0]);
      assert !InNamedSlab(s, ranks[0], k);
      assert Covered(keys, part);
      OutsiderSteadies(s, keys - part, mapped - part, ranks[1..], k);
    }
  }

  /** So is that every mapped address is registered. */
  lemma {:induction false} RegisteredSteadies(s: Layout, keys: set<nat>, mapped: set<nat>, ranks: seq<nat>)
    requires mapped <= keys
    ensures Steady(s, keys, mapped, ranks)
    decreases |ranks|
  {
    if ranks != [] {
      var part := SlabPart(s, mapped, ranks[0]);
      if part != {} {
        var k := Greatest(part);
      }
      RegisteredSteadies(s, keys - part, mapped - part, ranks[1..]);
    }
  }

  lemma Greatest(part: set<nat>) returns (k: nat)
    requires part != {}
    ensures k in part && forall v :: v in part ==> v <= k
  {
    k :| k in part;
    var rest := part - {k};
    while rest != {}
      invariant rest <= part && k in part && forall v :: v in part && v !in rest ==> v <= k
      decreases |rest|
    {
      var v :| v in rest;
      rest := rest - {v};
      k := if v > k then v else k;
    }
  }

  /** An address of the segment reaches no range but the one registered there, also by way of local addresses. */
  lemma OnlyItsOwn(s: Layout, byGva: map<nat, Info>, v: nat)
    requires Placed(s, byGva) && Apart(byGva) && InSegment(s, v, 1)
    ensures forall e :: HitByLva(byGva, v, e) ==> Hit(byGva, v, e)
    ensures v in byGva ==> Hit(byGva, v, byGva[v])
    ensures 0 !in byGva
  {
    forall e | HitByLva(byGva, v, e) ensures Hit(byGva, v, e) {
      assert PlacedOne(s, e);
    }
  }

  /** The entry is that of one of the remote slices. */
  ghost predicate Among(infos: seq<Import>, rankId: nat, e: Info) {
    exists i :: 0 <= i < |infos| && infos[i].rank != rankId && ImportedInfo(infos[i], rankId) == e
  }

  /** The slice is an own one, empty, or registered for its rank. */
  ghost predicate Handled(byGva: map<nat, Info>, im: Import, rankId: nat) {
    im.rank == rankId || im.size == 0 ||
    exists e :: Held(byGva, e) && e.memType == MEM_TYPE_HOST && Same(e, ImportedInfo(im, rankId))
  }

  /** The slice starts at null, or a different host range is in its way. */
  ghost predicate Refused(byGva: map<nat, Info>, im: Import, rankId: nat) {
    im.rank != rankId && (im.addr == 0 || (im.size > 0 && Opposed(byGva, ImportedInfo(im, rankId))))
  }

  /** It cannot be both. */
  lemma HandledOrRefused(byGva: map<nat, Info>, im: Import, rankId: nat)
    requires Apart(byGva) && Handled(byGva, im, rankId) && Refused(byGva, im, rankId)
    ensures im.addr == 0
  {
    if im.size > 0 {
      var e :| Held(byGva, e) && e.memType == MEM_TYPE_HOST && Same(e, ImportedInfo(im, rankId));
      KnownNoConflict(byGva, ImportedInfo(im, rankId), e);
    }
  }

  ghost predicate AllHandled(byGva: map<nat, Info>, infos: seq<Import>, rankId: nat) {
    forall i :: 0 <= i < |infos| ==> Handled(byGva, infos[i], rankId)
  }

  lemma HandledStay(byGva: map<nat, Info>, byGva': map<nat, Info>, infos: seq<Import>, i: nat, rankId: nat)
    requires forall e :: Held(byGva, e) ==> Held(byGva', e)
    requires i < |infos| && AllHandled(byGva, infos[..i], rankId) && Handled(byGva', infos[i], rankId)
    ensures AllHandled(byGva', infos[..i + 1], rankId)
  {
    forall j | 0 <= j < i ensures Handled(byGva', infos[j], rankId) {
      assert Handled(byGva, infos[..i][j], rankId);
    }
  }

  ghost function RemoteAddrs(imports: seq<Import>, rankId: nat): set<nat> {
    set im | im in imports && im.rank != rankId :: im.addr
  }

  ghost predicate InNamedSlab(s: Layout, rank: nat, v: nat) {
    SlabStart(s, rank) <= v < SlabStart(s, rank) + s.maxSize
  }

  ghost function SlabPart(s: Layout, mapped: set<nat>, rank: nat): set<nat> {
    set v | v in mapped && InNamedSlab(s, rank, v)
  }

  /** The mapped addresses in any of the named slabs. */
  ghost function SlabParts(s: Layout, mapped: set<nat>, ranks: seq<nat>): set<nat> {
    set v | v in mapped && exists i :: 0 <= i < |ranks| && InNamedSlab(s, ranks[i], v)
  }

  lemma MinusBoth(mapped: set<nat>, byGva: map<nat, Info>, a: set<nat>, b: set<nat>)
    ensures mapped - a - b == mapped - (a + b) && byGva - a - b == byGva - (a + b)
  {
  }

  lemma PartsStep(s: Layout, mapped: set<nat>, ranks: seq<nat>, i: nat)
    requires i < |ranks|
    ensures SlabParts(s, mapped, ranks[..i + 1]) ==
            SlabParts(s, mapped, ranks[..i]) + SlabPart(s, mapped - SlabParts(s, mapped, ranks[..i]), ranks[i])
  {
    var a, b := SlabParts(s, mapped, ranks[..i]), SlabParts(s, mapped, ranks[..i + 1]);
    forall v | v in mapped ensures v in b <==> v in a || InNamedSlab(s, ranks[i], v) {
      assert ranks[..i + 1][i] == ranks[i];
      assert forall j :: 0 <= j < i ==> ranks[..i + 1][j] == ranks[..i][j];
    }
  }

  lemma KeepsPlaced(s: Layout, byGva: map<nat, Info>, v: nat)
    requires Placed(s, byGva)
    ensures Placed(s, byGva - {v})
  {
    forall e | Held(byGva - {v}, e) ensures PlacedOne(s, e) {
      assert Held(byGva, e);
    }
  }

  lemma ClearMeansFree(byGva: map<nat, Info>, info: Info)
    requires Clear(byGva, info) && Apart(byGva)
    ensures forall e :: Held(byGva, e) ==> !Overlaps(info, e) && (info.size > 0 ==> !Same(e, info))
  {
    forall e | Held(byGva, e) ensures !Overlaps(info, e) && (info.size > 0 ==> !Same(e, info)) {
      assert e.gva in byGva;
    }
  }

  lemma NextSlice(start: nat, used: nat, slices: seq<Slice>, size: nat)
    requires SlicesOk(start, used, slices)
    requires start % LARGE_PAGE == 0 && used % LARGE_PAGE == 0 && size % LARGE_PAGE == 0
    ensures (used + size) % LARGE_PAGE == 0
    ensures SlicesOk(start, used + size, slices + [Slice(start + used, size)])
  {
  }

  lemma SlabAligned(s: Layout, rank: nat)
    requires LayoutOk(s)
    ensures SlabStart(s, rank) % LARGE_PAGE == 0
  {
    var k := s.maxSize / LARGE_PAGE;
    assert s.maxSize * rank == (k * rank) * LARGE_PAGE;
  }

  /** Asked about bytes of a registered host range, the segment, the operators and the registry name the same rank. */
  method ThreeRanks(segment: Segment, table: SpaceTable, addr: nat, size: nat, ghost e: Info)
    returns (bySegment: nat, byTable: nat, byRegistry: nat)
    requires segment.Valid() && Hit(segment.manager.byGva, addr, e) && e.memType == MEM_TYPE_HOST
    requires addr + size <= e.gva + e.size
    requires table.Valid() && table.spaces[MEM_TYPE_HOST] == segment.layout
    requires forall t :: 0 <= t < MEM_TYPE_HOST ==> !InSpace(table.spaces[t], addr)
    ensures bySegment == byTable == byRegistry == RankId(e)
  {
    var ok, found;
    RanksAgree(segment.layout, segment.manager.byGva, table.spaces, e, addr);
    assert PlacedOne(segment.layout, e);
    SlabInSegment(segment.layout, RankId(e), e.gva, e.size);
    bySegment, ok := segment.GetRankIdByAddr(addr, size);
    SlabOfIsUnique(segment.layout, bySegment, RankId(e), addr);
    byTable := table.GetRankIdByGva(addr);
    byRegistry, found, ok := segment.manager.GetRank(addr);
  }

  /** With the table as the segment itself fills it in, for the host space alone, nothing need be asked of it. */
  method OwnTableAgrees(segment: Segment, addr: nat, size: nat, ghost e: Info)
    returns (bySegment: nat, byTable: nat, byRegistry: nat)
    requires segment.Valid() && Hit(segment.manager.byGva, addr, e) && e.memType == MEM_TYPE_HOST
    requires addr + size <= e.gva + e.size
    ensures bySegment == byTable == byRegistry == RankId(e)
  {
    var table := new SpaceTable();
    var layout := segment.layout;
    table.UpdateGvaSpace(MEM_TYPE_HOST, layout.base, layout.maxSize, layout.rankCnt);
    bySegment, byTable, byRegistry := ThreeRanks(segment, table, addr, size, e);
  }

  /** A registered slice of another rank's slab is that rank's by all three answers. */
  method HandledRank(segment: Segment, im: Import, addr: nat, size: nat)
    returns (bySegment: nat, byTable: nat, byRegistry: nat)
    requires segment.Valid() && im.rank != segment.rankId && im.rank != INVALID_RANK
    requires Handled(segment.manager.byGva, im, segment.rankId)
    requires im.addr <= addr < im.addr + im.size && addr + size <= im.addr + im.size
    ensures bySegment == byTable == byRegistry == im.rank
  {
    ghost var e :| && Held(segment.manager.byGva, e) && e.memType == MEM_TYPE_HOST
                   && Same(e, ImportedInfo(im, segment.rankId));
    bySegment, byTable, byRegistry := OwnTableAgrees(segment, addr, size, e);
  }

  /** A slice of the own slab, once allocated, is the own rank's, and its local address is its global one. */
  method AllocatedRank(segment: Segment, size: nat, mapOk: bool, at: nat)
    returns (status: Status, bySegment: nat, byTable: nat, byRegistry: nat, lva: nat)
    requires segment.Valid() && at < size
    modifies segment`used, segment`slices, segment.manager
    ensures segment.Valid()
    ensures status == Ok ==> bySegment == byTable == byRegistry == segment.rankId
    ensures status == Ok ==> lva == SlabStart(segment.layout, segment.rankId) + old(segment.used) + at
  {
    bySegment, byTable, byRegistry, lva := 0, 0, 0, 0;
    var addr: nat;
    status, addr := segment.AllocLocalMemory(size, mapOk);
    if status == Ok {
      ghost var e := segment.manager.byGva[addr];
      assert Hit(segment.manager.byGva, addr + at, e);
      bySegment, byTable, byRegistry := OwnTableAgrees(segment, addr + at, 0, e);
      lva := segment.manager.GetLvaByGva(addr + at);
    }
  }

  /** So an import of such a slice gives it to its rank, unless another host range is in its way. */
  method ImportedRank(segment: Segment, im: Import, addr: nat, size: nat)
    returns (ok: bool, bySegment: nat, byTable: nat, byRegistry: nat)
    requires segment.Valid() && im.rank != segment.rankId && InSlab(segment.layout, im.rank, im.addr, im.size)
    requires im.addr <= addr < im.addr + im.size && addr + size <= im.addr + im.size
    modifies segment`imports, segment.manager
    ensures segment.Valid() && (!ok ==> Refused(segment.manager.byGva, im, segment.rankId))
    ensures ok ==> bySegment == byTable == byRegistry == im.rank
  {
    bySegment, byTable, byRegistry := 0, 0, 0;
    ghost var recorded;
    ok, recorded := segment.ImportSlices([im]);
    OnlyFits(segment.layout, segment.rankId, segment.used, im, recorded);
    if ok {
      assert Handled(segment.manager.byGva, [im][0], segment.rankId);
      bySegment, byTable, byRegistry := HandledRank(segment, im, addr, size);
    }
  }

  lemma OnlyFits(s: Layout, rank: nat, used: nat, im: Import, recorded: seq<Info>)
    requires LayoutOk(s) && im.rank != rank && InSlab(s, im.rank, im.addr, im.size)
    requires forall k :: 0 <= k < |recorded| ==> Among([im], rank, recorded[k])
    ensures forall k :: 0 <= k < |recorded| ==> Fits(s, rank, used, recorded[k])
  {
  }

  /**
   * An empty remote slice is mapped without ever being registered, so that removing its rank again looks an address
   * up in an empty registry.
   */
  method EmptyImportBreaks(layout: Layout, rankId: nat, rank: nat) returns (ok: bool, defined: bool)
    requires LayoutOk(layout) && rankId < layout.rankCnt && rank < layout.rankCnt && rank != rankId
    ensures ok && !defined
  {
    var manager := new Manager();
    var segment := new Segment(layout, rankId, manager);
    var addr := SlabStart(layout, rank);
    ghost var recorded;
    ok, recorded := segment.ImportSlices([Import(rank, addr, 0)]);
    assert recorded == [];
    segment.Mmap();
    assert addr in segment.mapped by {
      assert Import(rank, addr, 0) in [Import(rank, addr, 0)];
    }
    assert addr in SlabPart(layout, segment.mapped, rank);
    assert !Steady(layout, {}, segment.mapped, [rank]);
    ok, defined := segment.RemoveImported([rank]);
  }
}
