/** The registry of allocated address ranges: one set of ranges held in three indices. */
module VaManager {
  import opened OrderedSets

  const MEM_TYPE_BUTT: nat := 3
  const INVALID_RANK: nat := 0xFFFF_FFFF

  datatype Info = Info(gva: nat, size: nat, memType: nat, lva: nat, registered: bool, localRank: nat, importedRank: nat)

  function RankId(e: Info): nat {
    if e.importedRank != INVALID_RANK then e.importedRank else e.localRank
  }

  predicate Contains(e: Info, a: nat) {
    e.gva <= a < e.gva + e.size
  }

  predicate ContainsByLva(e: Info, a: nat) {
    e.lva != 0 && e.lva <= a < e.lva + e.size
  }

  /** The registry's equality: same range, same rank. */
  predicate Same(a: Info, b: Info) {
    a.gva == b.gva && a.size == b.size && RankId(a) == RankId(b)
  }

  predicate Overlaps(a: Info, b: Info) {
    a.gva < b.gva + b.size && b.gva < a.gva + a.size
  }

  predicate OverlapsByLva(a: Info, b: Info) {
    a.lva != 0 && b.lva != 0 && a.lva < b.lva + b.size && b.lva < a.lva + a.size
  }

  // ---------- The set of ranges and its three indices ----------

  /** Membership in the set of registered ranges. */
  ghost predicate Held(byGva: map<nat, Info>, e: Info) {
    e.gva in byGva && byGva[e.gva] == e
  }

  ghost predicate Listed(byType: map<nat, seq<Info>>, e: Info) {
    e.memType in byType && e in byType[e.memType]
  }

  ghost predicate Sound(e: Info) {
    e.gva > 0 && e.size > 0 && e.memType < MEM_TYPE_BUTT
  }

  ghost predicate Apart(byGva: map<nat, Info>) {
    && (forall g :: g in byGva ==> byGva[g].gva == g && Sound(byGva[g]))
    && (forall g, h :: g in byGva && h in byGva && g != h ==>
          !Overlaps(byGva[g], byGva[h]) && !OverlapsByLva(byGva[g], byGva[h]))
  }

  /** The index by local address agrees with the set on non-zero addresses. */
  ghost predicate LvaIndex(byGva: map<nat, Info>, byLva: map<nat, Info>) {
    && (forall l :: l in byLva ==> byLva[l].lva == l && (l != 0 ==> Held(byGva, byLva[l])))
    && (forall g :: g in byGva && byGva[g].lva != 0 ==> byGva[g].lva in byLva && byLva[byGva[g].lva] == byGva[g])
  }

  /** The lists by memory type hold the set, each range once, under its own type. */
  ghost predicate TypeIndex(byGva: map<nat, Info>, byType: map<nat, seq<Info>>) {
    && (forall e :: Listed(byType, e) <==> Held(byGva, e))
    && (forall t, i :: t in byType && 0 <= i < |byType[t]| ==> byType[t][i].memType == t)
    && (forall t, i, j :: t in byType && 0 <= i < j < |byType[t]| ==> byType[t][i].gva != byType[t][j].gva)
    && (forall t :: t in byType ==> byType[t] != [])
  }

  ghost predicate Indexed(byGva: map<nat, Info>, byLva: map<nat, Info>, byType: map<nat, seq<Info>>) {
    Apart(byGva) && LvaIndex(byGva, byLva) && TypeIndex(byGva, byType)
  }

  /** A new range that touches no registered one, in either address space. */
  ghost predicate Clear(byGva: map<nat, Info>, info: Info) {
    forall g :: g in byGva ==> !Overlaps(info, byGva[g]) && !OverlapsByLva(info, byGva[g])
  }

  /** No range of the type's list overlaps the new one. */
  ghost predicate Unopposed(byType: map<nat, seq<Info>>, info: Info) {
    info.memType in byType ==> forall i :: 0 <= i < |byType[info.memType]| ==> !Overlaps(info, byType[info.memType][i])
  }

  lemma UnopposedInSet(byGva: map<nat, Info>, byType: map<nat, seq<Info>>, info: Info)
    requires TypeIndex(byGva, byType) && Unopposed(byType, info)
    ensures forall e :: Held(byGva, e) && e.memType == info.memType ==>
              !Overlaps(info, e) && (info.size > 0 ==> !Same(e, info))
  {
    forall e | Held(byGva, e) && e.memType == info.memType
      ensures !Overlaps(info, e) && (info.size > 0 ==> !Same(e, info))
    {
      assert Listed(byType, e);
    }
  }

  /** A range of the type overlaps the new one and is not the same range of the same rank. */
  ghost predicate Opposed(byGva: map<nat, Info>, info: Info) {
    exists e ::
      && Held(byGva, e) && e.memType == info.memType && Overlaps(info, e)
      && (e.gva != info.gva || e.size != info.size || RankId(e) != RankId(info))
  }

  ghost function Push(byType: map<nat, seq<Info>>, info: Info): map<nat, seq<Info>> {
    byType[info.memType := (if info.memType in byType then byType[info.memType] else []) + [info]]
  }

  lemma AddKeepsLists(byGva: map<nat, Info>, byType: map<nat, seq<Info>>, info: Info)
    requires TypeIndex(byGva, byType) && info.gva !in byGva
    ensures TypeIndex(byGva[info.gva := info], Push(byType, info))
  {
    var byGva', byType' := byGva[info.gva := info], Push(byType, info);
    var list := if info.memType in byType then byType[info.memType] else [];
    assert byType'[info.memType] == list + [info];
    forall e ensures Listed(byType', e) <==> Held(byGva', e) {
      assert Listed(byType, e) <==> Held(byGva, e);
      if e.memType == info.memType {
        assert e in byType'[e.memType] <==> e in list || e == info;
      }
    }
    forall i | 0 <= i < |list| ensures list[i].gva != info.gva {
      assert Listed(byType, list[i]);
    }
  }

  /** All three indices stay one set of disjoint ranges exactly when the new range is clear of every registered one. */
  lemma AddKeepsIndices(byGva: map<nat, Info>, byLva: map<nat, Info>, byType: map<nat, seq<Info>>, info: Info)
    requires Indexed(byGva, byLva, byType) && Sound(info)
    requires !Held(byGva, info)
    ensures Indexed(byGva[info.gva := info], byLva[info.lva := info], Push(byType, info)) <==> Clear(byGva, info)
  {
    var byGva', byLva', byType' := byGva[info.gva := info], byLva[info.lva := info], Push(byType, info);
    if Clear(byGva, info) {
      assert info.gva !in byGva;
      AddKeepsLists(byGva, byType, info);
      forall g | g in byGva && byGva[g].lva != 0 ensures byGva[g].lva != info.lva {
        assert !OverlapsByLva(info, byGva[g]);
      }
      forall l | l in byLva' && l != 0 ensures Held(byGva', byLva'[l]) {
        assert l != info.lva ==> Held(byGva, byLva[l]);
      }
    } else if info.gva in byGva {
      LostFromSet(byGva, byType, info);
    } else {
      var g :| g in byGva && (Overlaps(info, byGva[g]) || OverlapsByLva(info, byGva[g]));
      assert g in byGva' && info.gva in byGva' && g != info.gva && byGva'[g] == byGva[g];
    }
  }

  /** Overwriting a registered address leaves its old range in the lists only. */
  lemma LostFromSet(byGva: map<nat, Info>, byType: map<nat, seq<Info>>, info: Info)
    requires TypeIndex(byGva, byType) && info.gva in byGva && byGva[info.gva].gva == info.gva && !Held(byGva, info)
    ensures !TypeIndex(byGva[info.gva := info], Push(byType, info))
  {
    var lost := byGva[info.gva];
    assert Held(byGva, lost) && Listed(byType, lost);
    assert Listed(Push(byType, info), lost) && !Held(byGva[info.gva := info], lost);
  }

  // ---------- Lookups: the nearest entry below is the only candidate ----------

  /** The range that contains an address, by scanning the whole set. */
  ghost predicate Hit(byGva: map<nat, Info>, a: nat, e: Info) {
    Held(byGva, e) && e.gva <= a < e.gva + e.size
  }

  ghost predicate HitByLva(byGva: map<nat, Info>, a: nat, e: Info) {
    Held(byGva, e) && e.lva != 0 && e.lva <= a < e.lva + e.size
  }

  lemma FloorFindsHit(byGva: map<nat, Info>, a: nat, pos: Option<nat>)
    requires Apart(byGva) && IsFloor(byGva.Keys, a, pos)
    ensures forall e :: Hit(byGva, a, e) <==> pos.Some? && byGva[pos.value] == e && Contains(e, a)
  {
    forall e | Hit(byGva, a, e) ensures pos == Some(e.gva) {
      assert e.gva in byGva.Keys;
      assert pos.value != e.gva ==> !Overlaps(byGva[pos.value], e);
    }
  }

  lemma FloorFindsHitByLva(byGva: map<nat, Info>, byLva: map<nat, Info>, a: nat, pos: Option<nat>)
    requires Apart(byGva) && LvaIndex(byGva, byLva) && IsFloor(byLva.Keys, a, pos)
    ensures forall e :: HitByLva(byGva, a, e) <==> pos.Some? && byLva[pos.value] == e && ContainsByLva(e, a)
  {
    forall e | HitByLva(byGva, a, e) ensures pos == Some(e.lva) {
      assert e.lva in byLva.Keys;
      var f := byLva[pos.value];
      assert f.gva == e.gva || !OverlapsByLva(f, e);
    }
  }

  /** Translating a global address to its local one and back finds the same range, hence the same address. */
  lemma LvaRoundTrip(byGva: map<nat, Info>, gva: nat, lva: nat, e: Info)
    requires Apart(byGva) && Hit(byGva, gva, e) && e.lva != 0 && lva == e.lva + (gva - e.gva)
    ensures forall f :: HitByLva(byGva, lva, f) <==> f == e
  {
    forall f | HitByLva(byGva, lva, f) ensures f == e {
      assert f.gva != e.gva ==> !OverlapsByLva(f, e);
    }
  }

  // ---------- Removal ----------

  ghost predicate Filtered(list: seq<Info>, gva: nat, kept: seq<Info>) {
    && (forall e :: e in kept <==> e in list && e.gva != gva)
    && (forall i, j :: 0 <= i < j < |kept| ==> kept[i].gva != kept[j].gva)
  }

  ghost function DropLva(byLva: map<nat, Info>, e: Info): map<nat, Info> {
    if e.lva in byLva && byLva[e.lva].gva == e.gva then byLva - {e.lva} else byLva
  }

  ghost function PutList(byType: map<nat, seq<Info>>, t: nat, kept: seq<Info>): map<nat, seq<Info>> {
    if kept == [] then byType - {t} else byType[t := kept]
  }

  lemma RemoveKeepsIndices(byGva: map<nat, Info>, byLva: map<nat, Info>, byType: map<nat, seq<Info>>, e: Info,
                           kept: seq<Info>)
    requires Indexed(byGva, byLva, byType) && Held(byGva, e)
    requires Listed(byType, e) && Filtered(byType[e.memType], e.gva, kept)
    ensures Indexed(byGva - {e.gva}, DropLva(byLva, e), PutList(byType, e.memType, kept))
  {
    var byGva', byLva', byType' := byGva - {e.gva}, DropLva(byLva, e), PutList(byType, e.memType, kept);
    forall f ensures Listed(byType', f) <==> Held(byGva', f) {
      assert Listed(byType, f) <==> Held(byGva, f);
      if f.memType == e.memType {
        assert f in kept <==> f in byType[e.memType] && f.gva != e.gva;
      }
    }
    forall t, i | t in byType' && 0 <= i < |byType'[t]| ensures byType'[t][i].memType == t {
      if t == e.memType {
        assert kept[i] in byType[t];
      }
    }
    RemoveKeepsLva(byGva, byLva, e);
  }

  lemma RemoveKeepsLva(byGva: map<nat, Info>, byLva: map<nat, Info>, e: Info)
    requires Apart(byGva) && LvaIndex(byGva, byLva) && Held(byGva, e)
    ensures LvaIndex(byGva - {e.gva}, DropLva(byLva, e))
  {
    var byGva', byLva' := byGva - {e.gva}, DropLva(byLva, e);
    forall l | l in byLva' && l != 0 ensures Held(byGva', byLva'[l]) {
      assert Held(byGva, byLva[l]);
    }
    forall g | g in byGva' && byGva'[g].lva != 0 ensures byGva'[g].lva in byLva' {
      assert !OverlapsByLva(byGva[g], e);
    }
  }

  // ---------- The registry ----------

  class Manager {
    var byGva: map<nat, Info>
    var byLva: map<nat, Info>
    var byType: map<nat, seq<Info>>

    ghost predicate Valid() reads this {
      Indexed(byGva, byLva, byType)
    }

    constructor ()
      ensures Valid() && byGva == map[]
    {
      byGva, byLva, byType := map[], map[], map[];
    }

    /** The first range of the type that the new one overlaps. */
    method CheckOverlap(info: Info) returns (found: Option<Info>)
      ensures found.None? ==> Unopposed(byType, info)
      ensures Valid() && Sound(info) && found.Some? ==>
                Held(byGva, found.value) && found.value.memType == info.memType && Overlaps(info, found.value)
    {
      if info.memType in byType {
        var list := byType[info.memType];
        for i := 0 to |list|
          invariant forall j :: 0 <= j < i ==> !Overlaps(info, list[j])
        {
          var e := list[i];
          assert Valid() ==> Listed(byType, e);
          if (info.gva >= e.gva && info.gva < e.gva + e.size) || (info.gva <= e.gva && info.gva + info.size > e.gva) {
            return Some(e);
          }
        }
      }
      return None;
    }

    /** A range of the same type is in the way, and it is not this very range. */
    ghost predicate Conflicts(info: Info) reads this {
      Opposed(byGva, info)
    }

    ghost predicate Known(info: Info) reads this {
      exists e ::
        && Held(byGva, e) && e.memType == info.memType
        && e.gva == info.gva && e.size == info.size && RankId(e) == RankId(info)
    }

    /** Records the range in all three indices, or leaves all three alone. */
    method AddVaInfo(info: Info) returns (ok: bool, ghost recorded: bool)
      modifies this
      ensures recorded ==> ok && Sound(info) && Unopposed(old(byType), info)
      ensures byGva == (if recorded then old(byGva)[info.gva := info] else old(byGva))
      ensures byLva == (if recorded then old(byLva)[info.lva := info] else old(byLva))
      ensures byType == (if recorded then Push(old(byType), info) else old(byType))
      ensures old(Valid()) ==>
                && (!ok <==> || info.gva == 0
                             || (info.size > 0 && (info.memType >= MEM_TYPE_BUTT || old(Conflicts(info)))))
                && (recorded <==> ok && info.size > 0 && !old(Known(info)))
                && (Valid() <==> (recorded ==> Clear(old(byGva), info)))
    {
      recorded := false;
      if info.gva == 0 {
        return false, false;
      }
      if info.size == 0 {
        return true, false;
      }
      if info.memType >= MEM_TYPE_BUTT {
        return false, false;
      }
      var found := CheckOverlap(info);
      if found.Some? && !Same(found.value, info) {
        return false, false;
      }
      if found.Some? {
        if Valid() {
          KnownNoConflict(byGva, info, found.value);
        }
        return true, false;
      }
      if Valid() {
        UnopposedInSet(byGva, byType, info);
        AddKeepsIndices(byGva, byLva, byType, info);
      }
      byGva := byGva[info.gva := info];
      byLva := byLva[info.lva := info];
      byType := byType[info.memType := (if info.memType in byType then byType[info.memType] else []) + [info]];
      return true, true;
    }

    /** The entry `upper_bound` and one step back lead to; the first entry when there is nothing before. */
    method Nearest(a: nat) returns (e: Info)
      requires Valid() && byGva != map[]
      ensures Held(byGva, e) && forall f :: Hit(byGva, a, f) <==> f == e && Contains(e, a)
    {
      var pos := Floor(byGva.Keys, a);
      FloorFindsHit(byGva, a, pos);
      if pos.None? {
        var k := First(byGva.Keys);
        return byGva[k];
      }
      return byGva[pos.value];
    }

    /** Of a non-zero address an empty registry has no entry to look at; the source reads one all the same. */
    ghost predicate Defined(va: nat) reads this {
      va == 0 || byGva != map[]
    }

    method IsGva(va: nat) returns (hit: bool, defined: bool)
      requires Valid()
      ensures defined <==> Defined(va)
      ensures defined ==> (hit <==> exists e :: Hit(byGva, va, e))
    {
      if va == 0 {
        return false, true;
      }
      if |byGva| == 0 {
        return false, false;
      }
      var e := Nearest(va);
      assert Contains(e, va) ==> Hit(byGva, va, e);
      return Contains(e, va), true;
    }

    method GetRank(gva: nat) returns (rank: nat, ok: bool, defined: bool)
      requires Valid()
      ensures defined <==> Defined(gva)
      ensures defined ==> (ok <==> exists e :: Hit(byGva, gva, e))
      ensures defined ==> forall e :: Hit(byGva, gva, e) ==> rank == RankId(e)
    {
      if gva == 0 {
        return 0, false, true;
      }
      if |byGva| == 0 {
        return 0, false, false;
      }
      var e := Nearest(gva);
      if Contains(e, gva) {
        assert Hit(byGva, gva, e);
        return RankId(e), true, true;
      }
      return 0, false, true;
    }

    method GetLvaByGva(gva: nat) returns (lva: nat)
      requires Valid()
      ensures forall e :: Hit(byGva, gva, e) ==> lva == e.lva + (gva - e.gva)
      ensures (forall e :: !Hit(byGva, gva, e)) ==> lva == 0
    {
      if gva == 0 {
        return 0;
      }
      var pos := Floor(byGva.Keys, gva);
      FloorFindsHit(byGva, gva, pos);
      if pos.Some? && Contains(byGva[pos.value], gva) {
        assert Hit(byGva, gva, byGva[pos.value]);
        return byGva[pos.value].lva + (gva - byGva[pos.value].gva);
      }
      return 0;
    }

    method GetGvaByLva(lva: nat) returns (gva: nat)
      requires Valid()
      ensures forall e :: HitByLva(byGva, lva, e) ==> gva == e.gva + (lva - e.lva)
      ensures (forall e :: !HitByLva(byGva, lva, e)) ==> gva == 0
    {
      if lva == 0 {
        return 0;
      }
      var pos := Floor(byLva.Keys, lva);
      FloorFindsHitByLva(byGva, byLva, lva, pos);
      if pos.Some? && ContainsByLva(byLva[pos.value], lva) {
        assert HitByLva(byGva, lva, byLva[pos.value]);
        return byLva[pos.value].gva + (lva - byLva[pos.value].lva);
      }
      return 0;
    }

    /** The list without the ranges at `gva`, in order. */
    method Without(list: seq<Info>, gva: nat) returns (kept: seq<Info>)
      requires forall i, j :: 0 <= i < j < |list| ==> list[i].gva != list[j].gva
      ensures Filtered(list, gva, kept)
    {
      kept := [];
      for i := 0 to |list|
        invariant Filtered(list[..i], gva, kept)
      {
        assert list[..i + 1] == list[..i] + [list[i]];
        forall k | 0 <= k < |kept| ensures kept[k].gva != list[i].gva {
          assert kept[k] in list[..i];
        }
        if list[i].gva != gva {
          kept := kept + [list[i]];
        }
      }
      assert list[..|list|] == list;
    }

    /**
     * Takes out the range that starts at the address `va` stands for: `va` itself when some range contains it,
     * else the address its local range maps it to. Nothing else changes.
     */
    method RemoveOneVaInfo(va: nat) returns (defined: bool, ghost target: nat)
      requires Valid()
      modifies this
      ensures Valid() && (defined <==> old(Defined(va)))
      ensures byGva == if defined then old(byGva) - {target} else old(byGva)
      ensures (exists e :: Hit(old(byGva), va, e)) ==> target == va
      ensures (forall e :: !Hit(old(byGva), va, e)) ==>
                && (forall e :: HitByLva(old(byGva), va, e) ==> target == e.gva + (va - e.lva))
                && ((forall e :: !HitByLva(old(byGva), va, e)) ==> target == 0)
    {
      var gva := va;
      var isGva;
      target := 0;
      isGva, defined := IsGva(va);
      if !defined {
        return;
      }
      if !isGva {
        gva := GetGvaByLva(va);
      }
      target := gva;
      if gva == 0 || gva !in byGva {
        assert byGva == byGva - {gva};
        return;
      }
      Erase(gva);
    }

    method Erase(gva: nat)
      requires Valid() && gva in byGva
      modifies this
      ensures Valid() && byGva == old(byGva) - {gva}
    {
      var info := byGva[gva];
      assert Held(byGva, info) && Listed(byType, info);
      var kept := Without(byType[info.memType], gva);
      RemoveKeepsIndices(byGva, byLva, byType, info, kept);
      if info.lva in byLva && byLva[info.lva].gva == gva {
        byLva := byLva - {info.lva};
      }
      byType := byType[info.memType := kept];
      if kept == [] {
        byType := byType - {info.memType};
      }
      byGva := byGva - {gva};
      assert byType == PutList(old(byType), info.memType, kept);
    }
  }

  /** A range already registered cannot also overlap another one. */
  lemma KnownNoConflict(byGva: map<nat, Info>, info: Info, e: Info)
    requires Apart(byGva) && Held(byGva, e) && Same(e, info)
    ensures forall f :: Held(byGva, f) && Overlaps(info, f) ==> f == e
  {
    forall f | Held(byGva, f) && Overlaps(info, f) ensures f == e {
      assert f.gva != e.gva ==> !Overlaps(e, f);
    }
  }

  /** Any two overlapping ranges of different types are both accepted, and the indices hold a disjoint set no more. */
  method CrossTypeOverlapBreaks(a: Info, b: Info) returns (m: Manager, first: bool, second: bool)
    requires Sound(a) && Sound(b) && a.memType != b.memType && Overlaps(b, a)
    ensures fresh(m) && first && second && !m.Valid()
  {
    ghost var recorded;
    m := new Manager();
    first, recorded := m.AddVaInfo(a);
    assert m.byGva == map[a.gva := a] && a.gva in m.byGva;
    second, recorded := m.AddVaInfo(b);
  }
}
