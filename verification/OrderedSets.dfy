/** Order lookups on finite sets of naturals, as `std::map` and `std::set` iterators give them. */
module OrderedSets {
  datatype Option<+T> = None | Some(value: T)

  /** The greatest key at or below `x`: `upper_bound(x)` followed by one step back. */
  ghost predicate IsFloor(keys: set<nat>, x: nat, pos: Option<nat>) {
    match pos
    case None => forall k :: k in keys ==> x < k
    case Some(p) => p in keys && p <= x && forall k :: k in keys && k <= x ==> k <= p
  }

  method Floor(keys: set<nat>, x: nat) returns (pos: Option<nat>)
    ensures IsFloor(keys, x, pos)
  {
    var rest := keys;
    pos := None;
    while rest != {}
      invariant rest <= keys
      invariant IsFloor(keys - rest, x, pos)
      decreases |rest|
    {
      var k :| k in rest;
      assert keys - (rest - {k}) == (keys - rest) + {k};
      rest := rest - {k};
      if k <= x && (pos.None? || pos.value < k) {
        pos := Some(k);
      }
    }
    assert keys - rest == keys;
  }

  /** The least key of a non-empty set: `begin()`. */
  method First(keys: set<nat>) returns (least: nat)
    requires keys != {}
    ensures least in keys
    ensures forall k :: k in keys ==> least <= k
  {
    var k0 :| k0 in keys;
    least := k0;
    var rest := keys - {k0};
    while rest != {}
      invariant rest <= keys
      invariant least in keys
      invariant forall k :: k in keys && k !in rest ==> least <= k
      decreases |rest|
    {
      var k :| k in rest;
      rest := rest - {k};
      if k < least {
        least := k;
      }
    }
  }

  ghost predicate Ascending(ks: seq<nat>) {
    forall i, j :: 0 <= i < j < |ks| ==> ks[i] < ks[j]
  }

  /** The keys in the order a map is iterated. */
  method InOrder(keys: set<nat>) returns (ks: seq<nat>)
    ensures Ascending(ks) && forall k :: k in ks <==> k in keys
  {
    ks := [];
    var rest := keys;
    while rest != {}
      invariant rest <= keys && Ascending(ks)
      invariant forall k :: k in ks <==> k in keys && k !in rest
      invariant forall i, k :: 0 <= i < |ks| && k in rest ==> ks[i] < k
      decreases |rest|
    {
      var k := First(rest);
      ks := ks + [k];
      rest := rest - {k};
    }
  }
}
