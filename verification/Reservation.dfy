/** First-fit reservation of global address space. */
module Reservation {
  import opened OrderedSets

  const GVM_START: nat := 0x2800_0000_0000
  const GVM_END: nat := 0xA800_0000_0000

  datatype Reserved = Reserved(start: nat, size: nat, memType: nat, localRank: nat)

  /** A block of the size at `a` lies in the window and meets no reservation. */
  ghost predicate Fits(reserved: map<nat, Reserved>, start: nat, end: nat, size: nat, a: nat) {
    && start <= a && a + size <= end
    && forall k :: k in reserved ==> a + size <= k || k + reserved[k].size <= a
  }

  ghost predicate Inside(reserved: map<nat, Reserved>, start: nat, end: nat) {
    forall k :: k in reserved ==>
      reserved[k].start == k && 0 < reserved[k].size && start <= k && k + reserved[k].size <= end
  }

  ghost predicate Disjoint(reserved: map<nat, Reserved>) {
    forall k, l :: k in reserved && l in reserved && k < l ==> k + reserved[k].size <= l
  }

  /** What the sweep knows at `current` with the keys before `i` behind it. */
  ghost predicate Swept(reserved: map<nat, Reserved>, ks: seq<nat>, i: nat, start: nat, end: nat, size: nat,
                        current: nat)
  {
    && i <= |ks| && start <= current <= end
    && (forall j :: 0 <= j < i ==> ks[j] in reserved && ks[j] + reserved[ks[j]].size <= current)
    && (forall j :: i <= j < |ks| ==> current <= ks[j])
    && (forall b :: Fits(reserved, start, end, size, b) ==> current <= b)
  }

  ghost predicate Keys(reserved: map<nat, Reserved>, ks: seq<nat>) {
    Ascending(ks) && forall k :: k in ks <==> k in reserved
  }

  lemma SweepPast(reserved: map<nat, Reserved>, ks: seq<nat>, i: nat, start: nat, end: nat, size: nat, current: nat)
    requires Inside(reserved, start, end) && Disjoint(reserved) && Keys(reserved, ks)
    requires Swept(reserved, ks, i, start, end, size, current) && i < |ks| && ks[i] - current < size
    ensures ks[i] in reserved && Swept(reserved, ks, i + 1, start, end, size, ks[i] + reserved[ks[i]].size)
  {
    var k := ks[i];
    assert k in reserved;
    var next := k + reserved[k].size;
    forall b: nat | Fits(reserved, start, end, size, b) ensures next <= b {
      assert current <= b;
    }
    forall j | i < j < |ks| ensures next <= ks[j] {
      assert ks[j] in reserved && k < ks[j];
    }
  }

  lemma SweepStops(reserved: map<nat, Reserved>, ks: seq<nat>, i: nat, start: nat, end: nat, size: nat, current: nat)
    requires Keys(reserved, ks) && Swept(reserved, ks, i, start, end, size, current)
    requires if i < |ks| then current + size <= ks[i] && ks[i] <= end else current + size <= end
    ensures Fits(reserved, start, end, size, current)
  {
    forall k | k in reserved ensures current + size <= k || k + reserved[k].size <= current {
      assert k in ks;
      var j :| 0 <= j < |ks| && ks[j] == k;
      assert j < i || i == j || (i < j && ks[i] < ks[j]);
    }
  }

  class Space {
    const reserveStart: nat
    const reserveEnd: nat
    var reserved: map<nat, Reserved>

    ghost predicate Valid() reads this {
      && 0 < reserveStart < reserveEnd
      && Inside(reserved, reserveStart, reserveEnd) && Disjoint(reserved)
    }

    constructor ()
      ensures Valid() && reserved == map[] && reserveStart == GVM_START && reserveEnd == GVM_END
    {
      reserveStart, reserveEnd := GVM_START, GVM_END;
      reserved := map[];
    }

    /** The lowest address in the window where the block fits, or proof that there is none. */
    method FindFreeSpace(start: nat, end: nat, size: nat) returns (addr: nat, found: bool)
      requires Inside(reserved, start, end) && Disjoint(reserved)
      ensures found ==> Fits(reserved, start, end, size, addr)
      ensures found ==> forall b :: Fits(reserved, start, end, size, b) ==> addr <= b
      ensures !found && size > 0 ==> forall b :: !Fits(reserved, start, end, size, b)
      ensures size == 0 ==> !found
    {
      if size == 0 || start >= end || size > end - start {
        return 0, false;
      }
      var ks: seq<nat> := InOrder(reserved.Keys);
      var current: nat := start;
      assert forall j :: 0 <= j < |ks| ==> ks[j] in reserved;
      for i := 0 to |ks|
        invariant Swept(reserved, ks, i, start, end, size, current)
      {
        assert ks[i] in reserved;
        if ks[i] > current && ks[i] - current >= size {
          SweepStops(reserved, ks, i, start, end, size, current);
          return current, true;
        }
        SweepPast(reserved, ks, i, start, end, size, current);
        if ks[i] + reserved[ks[i]].size > current {
          current := ks[i] + reserved[ks[i]].size;
        }
      }
      if end - current >= size {
        SweepStops(reserved, ks, |ks|, start, end, size, current);
        return current, true;
      }
      return 0, false;
    }

    method AllocReserveGva(localRank: nat, size: nat, memType: nat) returns (result: Reserved)
      requires Valid()
      modifies this`reserved
      ensures Valid()
      ensures result.start != 0 <==> size > 0 && exists a :: Fits(old(reserved), reserveStart, reserveEnd, size, a)
      ensures result.start == 0 ==> reserved == old(reserved)
      ensures result.start != 0 ==>
                && result == Reserved(result.start, size, memType, localRank)
                && Fits(old(reserved), reserveStart, reserveEnd, size, result.start)
                && (forall b :: Fits(old(reserved), reserveStart, reserveEnd, size, b) ==> result.start <= b)
                && result.start !in old(reserved) && reserved == old(reserved)[result.start := result]
    {
      if size == 0 {
        return Reserved(0, 0, 0, 0);
      }
      var addr, found := FindFreeSpace(reserveStart, reserveEnd, size);
      if !found {
        return Reserved(0, 0, 0, 0);
      }
      result := Reserved(addr, size, memType, localRank);
      reserved := reserved[addr := result];
    }

    method FreeReserveGva(addr: nat)
      requires Valid()
      modifies this`reserved
      ensures Valid() && reserved == old(reserved) - {addr}
    {
      reserved := if addr == 0 || addr !in reserved then reserved else reserved - {addr};
      assert reserved == old(reserved) - {addr};
    }
  }
}
