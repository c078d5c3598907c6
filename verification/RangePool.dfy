/** The best-fit range allocator: a free list held by offset and, redundantly, by size. */
module RangePool {
  import opened OrderedSets

  const PAGE: nat := 4096
  const WORD: nat := 0x1_0000_0000_0000_0000

  /** Rounds up to a page in 64-bit arithmetic, so that sizes in the last page wrap to zero. */
  function AlignUp(size: nat): (aligned: nat)
    requires size < WORD
    ensures aligned % PAGE == 0
    ensures size + PAGE <= WORD ==> size <= aligned < size + PAGE
    ensures aligned == 0 <==> size == 0 || size + PAGE > WORD
  {
    var w := (size + PAGE - 1) % WORD;
    w - w % PAGE
  }

  /** `address == 0` is the null element. */
  datatype Element = Element(address: nat, size: nat)

  datatype Range = Range(offset: nat, size: nat)

  /** The size-first order of the second index. */
  predicate Less(a: Range, b: Range) {
    if a.size != b.size then a.size < b.size else a.offset < b.offset
  }

  // ---------- Free space as the gaps between live blocks ----------

  ghost predicate Disjoint(live: map<nat, nat>, total: nat) {
    && (forall b :: b in live ==> 0 < live[b] && b + live[b] <= total)
    && (forall b, c :: b in live && c in live && b < c ==> b + live[b] <= c)
  }

  ghost predicate InBlock(live: map<nat, nat>, b: nat, x: nat) {
    b in live && b <= x < b + live[b]
  }

  /** The bytes that live blocks cover. */
  ghost function Used(live: map<nat, nat>): iset<nat> {
    iset x: nat | Covered(live, x)
  }

  ghost predicate Covered(live: map<nat, nat>, x: nat) {
    exists b: nat :: InBlock(live, b, x)
  }

  /** A maximal run of unused bytes. */
  ghost predicate IsGap(used: iset<nat>, total: nat, o: nat, s: nat) {
    && 0 < s && o + s <= total
    && (forall x :: o <= x < o + s ==> x !in used)
    && (o == 0 || o - 1 in used)
    && (o + s == total || o + s in used)
  }

  /** The free list is exactly the set of maximal gaps. */
  ghost predicate Canonical(tree: map<nat, nat>, used: iset<nat>, total: nat) {
    forall o: nat, s: nat :: Listed(tree, o, s) <==> IsGap(used, total, o, s)
  }

  ghost predicate Listed(tree: map<nat, nat>, o: nat, s: nat) {
    o in tree && tree[o] == s
  }

  /** Some free range is large enough. */
  ghost predicate Fits(tree: map<nat, nat>, aligned: nat) {
    exists o :: o in tree && aligned <= tree[o]
  }

  /** A sufficient gap, none of which is smaller, and the lowest of its size. */
  ghost predicate BestFit(tree: map<nat, nat>, aligned: nat, o: nat) {
    && o in tree && aligned <= tree[o]
    && forall p :: p in tree && aligned <= tree[p] ==> tree[o] < tree[p] || (tree[o] == tree[p] && o <= p)
  }

  /** The offset is an end of some free range. */
  ghost predicate OnGapEdge(tree: map<nat, nat>, o: nat) {
    o in tree || exists p: nat :: EndsAt(tree, p, o)
  }

  /** The size index holds the same ranges. */
  ghost predicate SameRanges(tree: map<nat, nat>, bySize: set<Range>) {
    forall r :: r in bySize <==> Listed(tree, r.offset, r.size)
  }

  lemma RangeErased(tree: map<nat, nat>, bySize: set<Range>, o: nat)
    requires SameRanges(tree, bySize) && o in tree
    ensures SameRanges(tree - {o}, bySize - {Range(o, tree[o])})
  {
    var bySize' := bySize - {Range(o, tree[o])};
    forall r ensures r in bySize' <==> Listed(tree - {o}, r.offset, r.size) {
      assert r in bySize <==> Listed(tree, r.offset, r.size);
    }
  }

  lemma RangeFiled(tree: map<nat, nat>, bySize: set<Range>, o: nat, s: nat)
    requires SameRanges(tree, bySize) && o !in tree
    ensures SameRanges(tree[o := s], bySize + {Range(o, s)})
  {
    forall r ensures r in bySize + {Range(o, s)} <==> Listed(tree[o := s], r.offset, r.size) {
      assert r in bySize <==> Listed(tree, r.offset, r.size);
    }
  }

  /** A range filed last leaves the indices in agreement exactly when its offset was free or held that very range. */
  lemma RangeFiledIff(tree: map<nat, nat>, bySize: set<Range>, o: nat, s: nat)
    requires SameRanges(tree, bySize)
    ensures SameRanges(Filed(tree, o, s), bySize + {Range(o, s)}) <==> Agrees(tree, o, s)
  {
    if o !in tree {
      RangeFiled(tree, bySize, o, s);
    } else {
      assert Range(o, s) in bySize <==> tree[o] == s;
      assert Range(o, s) in bySize + {Range(o, s)} && (Listed(tree, o, s) <==> tree[o] == s);
      assert tree[o] == s ==> bySize + {Range(o, s)} == bySize;
    }
  }

  lemma GapsApart(used: iset<nat>, total: nat, o: nat, s: nat, p: nat, t: nat)
    requires IsGap(used, total, o, s) && IsGap(used, total, p, t)
    ensures (o == p && s == t) || o + s < p || p + t < o
  {
    assert o == 0 || o - 1 in used;
    assert p == 0 || p - 1 in used;
  }

  lemma {:induction false} LeftEnd(used: iset<nat>, x: nat) returns (o: nat)
    requires x !in used
    ensures o <= x && (o == 0 || o - 1 in used)
    ensures forall y :: o <= y <= x ==> y !in used
  {
    if x == 0 || x - 1 in used {
      o := x;
    } else {
      o := LeftEnd(used, x - 1);
    }
  }

  lemma {:induction false} RightEnd(used: iset<nat>, total: nat, x: nat) returns (e: nat)
    requires x < total && x !in used
    ensures x < e <= total && (e == total || e in used)
    ensures forall y :: x <= y < e ==> y !in used
    decreases total - x
  {
    if x + 1 == total || x + 1 in used {
      e := x + 1;
    } else {
      e := RightEnd(used, total, x + 1);
    }
  }

  /** Every unused byte lies in a gap, so a canonical free list misses none. */
  lemma FreeByteInGap(used: iset<nat>, total: nat, x: nat) returns (o: nat, s: nat)
    requires x < total && x !in used
    ensures IsGap(used, total, o, s) && o <= x < o + s
  {
    o := LeftEnd(used, x);
    var e := RightEnd(used, total, x);
    s := e - o;
  }

  lemma InitialCanonical(total: nat)
    ensures Canonical(map[0 := total], iset{}, total) <==> total > 0
  {
    assert Listed(map[0 := total], 0, total);
    if total > 0 {
      assert IsGap(iset{}, total, 0, total);
    }
  }

  /** With nothing live the free list is the single initial range, whatever order led there. */
  lemma AllReleasedRestoresInitial(tree: map<nat, nat>, total: nat)
    requires total > 0 && Canonical(tree, Used(map[]), total)
    ensures tree == map[0 := total]
  {
    assert IsGap(Used(map[]), total, 0, total);
    assert Listed(tree, 0, total);
    forall o | o in tree ensures o == 0 {
      assert Listed(tree, o, tree[o]);
    }
  }

  // ---------- Allocating: the front of a gap becomes a block ----------

  ghost function Carved(tree: map<nat, nat>, o: nat, a: nat): map<nat, nat>
    requires o in tree && a <= tree[o]
  {
    if a < tree[o] then (tree - {o})[o + a := tree[o] - a] else tree - {o}
  }

  ghost predicate Adds(used: iset<nat>, used': iset<nat>, o: nat, a: nat) {
    forall x :: x in used' <==> x in used || o <= x < o + a
  }

  /** Carving the front of a gap leaves the remainder, if any, as the only new gap. */
  lemma CarveCanonical(tree: map<nat, nat>, used: iset<nat>, used': iset<nat>, total: nat, o: nat, a: nat)
    requires Canonical(tree, used, total)
    requires o in tree && 0 < a <= tree[o] && Adds(used, used', o, a)
    ensures Canonical(Carved(tree, o, a), used', total)
  {
    var s := tree[o];
    var tree' := Carved(tree, o, a);
    assert Listed(tree, o, s);
    forall p: nat, t: nat ensures Listed(tree', p, t) <==> IsGap(used', total, p, t) {
      if Listed(tree', p, t) && Listed(tree, p, t) {
        GapsApart(used, total, o, s, p, t);
      }
      if IsGap(used', total, p, t) {
        CarvedGap(used, used', total, o, s, a, p, t);
        assert p != o + a ==> Listed(tree, p, t);
      }
    }
  }

  lemma CarvedGap(used: iset<nat>, used': iset<nat>, total: nat, o: nat, s: nat, a: nat, p: nat, t: nat)
    requires IsGap(used, total, o, s) && 0 < a <= s && Adds(used, used', o, a)
    requires IsGap(used', total, p, t)
    ensures p != o
    ensures if p == o + a && a < s then t == s - a else p != o + a && IsGap(used, total, p, t)
  {
    assert p !in used' && p + t - 1 !in used';
    if p == o + a && a < s {
      assert IsGap(used', total, o + a, s - a);
      GapsApart(used', total, p, t, o + a, s - a);
    }
  }

  lemma GapTailFree(tree: map<nat, nat>, used: iset<nat>, total: nat, o: nat, a: nat)
    requires Canonical(tree, used, total) && o in tree && a <= tree[o]
    ensures o + a !in tree - {o}
  {
    assert Listed(tree, o, tree[o]);
    if o + a in tree {
      assert Listed(tree, o + a, tree[o + a]);
      GapsApart(used, total, o, tree[o], o + a, tree[o + a]);
    }
  }

  lemma BlockAdded(live: map<nat, nat>, total: nat, o: nat, a: nat)
    requires Disjoint(live, total) && 0 < a && o + a <= total
    requires forall x :: o <= x < o + a ==> x !in Used(live)
    ensures o !in live && Disjoint(live[o := a], total)
    ensures Adds(Used(live), Used(live[o := a]), o, a)
  {
    forall b | b in live ensures b + live[b] <= o || o + a <= b {
      assert InBlock(live, b, b) && b in Used(live) && o !in Used(live);
      assert !InBlock(live, b, o);
    }
    var live' := live[o := a];
    forall x: nat, b: nat | InBlock(live', b, x) ensures x in Used(live) || o <= x < o + a {
      assert b != o ==> InBlock(live, b, x);
    }
    forall x | x in Used(live) || o <= x < o + a ensures x in Used(live') {
      if x in Used(live) {
        var b :| InBlock(live, b, x);
        assert InBlock(live', b, x);
      } else {
        assert InBlock(live', o, x);
      }
    }
  }

  lemma CarveKeeps(tree: map<nat, nat>, live: map<nat, nat>, total: nat, o: nat, a: nat)
    requires Canonical(tree, Used(live), total) && Disjoint(live, total) && o in tree && a <= tree[o]
    ensures o + a !in tree - {o}
    ensures a == 0 ==> Carved(tree, o, a) == tree
    ensures a > 0 ==> o !in live && Disjoint(live[o := a], total)
    ensures a > 0 ==> Canonical(Carved(tree, o, a), Used(live[o := a]), total)
  {
    GapTailFree(tree, Used(live), total, o, a);
    assert Listed(tree, o, tree[o]);
    if a > 0 {
      BlockAdded(live, total, o, a);
      CarveCanonical(tree, Used(live), Used(live[o := a]), total, o, a);
    }
  }

  // ---------- Releasing: a block merges with the gaps beside it ----------

  /** The free range at `p` ends where a block at `o` starts. */
  ghost predicate EndsAt(tree: map<nat, nat>, p: nat, o: nat) {
    p in tree && p + tree[p] == o
  }

  /** Where the merged range starts and where it ends. */
  ghost predicate MergeBounds(tree: map<nat, nat>, o: nat, a: nat, start: nat, end: nat) {
    && (if start == o then forall p: nat :: !EndsAt(tree, p, o) else EndsAt(tree, start, o))
    && (if o + a in tree then end == o + a + tree[o + a] else end == o + a)
  }

  ghost function Merged(tree: map<nat, nat>, o: nat, a: nat, start: nat, end: nat): map<nat, nat>
    requires start <= end
  {
    (tree - {start, o + a})[start := end - start]
  }

  /** A byte beside a used run is either used or in a free range that touches the run. */
  lemma Neighbours(tree: map<nat, nat>, used: iset<nat>, total: nat, o: nat, a: nat)
    requires Canonical(tree, used, total) && 0 < a && o + a <= total
    requires forall x :: o <= x < o + a ==> x in used
    ensures o == 0 || o - 1 in used || exists p: nat :: EndsAt(tree, p, o)
    ensures o + a == total || o + a in used || o + a in tree
  {
    assert o in used && o + a - 1 in used;
    if o > 0 && o - 1 !in used {
      var p, s := FreeByteInGap(used, total, o - 1);
      assert Listed(tree, p, s) && EndsAt(tree, p, o);
    }
    if o + a < total && o + a !in used {
      var p, s := FreeByteInGap(used, total, o + a);
      assert Listed(tree, p, s) && p == o + a;
    }
  }

  /** Releasing a used run leaves exactly the gaps of the remaining blocks. */
  lemma MergeCanonical(tree: map<nat, nat>, used: iset<nat>, used': iset<nat>, total: nat,
                       o: nat, a: nat, start: nat, end: nat)
    requires Canonical(tree, used, total) && 0 < a && o + a <= total
    requires Adds(used', used, o, a) && forall x :: o <= x < o + a ==> x !in used'
    requires MergeBounds(tree, o, a, start, end)
    ensures start <= o < end
    ensures Canonical(Merged(tree, o, a, start, end), used', total)
  {
    var tree' := Merged(tree, o, a, start, end);
    MergedIsGap(tree, used, used', total, o, a, start, end);
    forall p: nat, t: nat ensures Listed(tree', p, t) <==> IsGap(used', total, p, t) {
      if Listed(tree', p, t) && p != start {
        SurvivingGap(tree, used, used', total, o, a, start, p, t);
      }
      if IsGap(used', total, p, t) {
        GapsApart(used', total, p, t, start, end - start);
        if p != start {
          assert IsGap(used, total, p, t);
          assert Listed(tree, p, t);
        }
      }
    }
  }

  lemma MergedIsGap(tree: map<nat, nat>, used: iset<nat>, used': iset<nat>, total: nat,
                    o: nat, a: nat, start: nat, end: nat)
    requires Canonical(tree, used, total) && 0 < a && o + a <= total
    requires Adds(used', used, o, a) && forall x :: o <= x < o + a ==> x !in used'
    requires MergeBounds(tree, o, a, start, end)
    ensures start <= o < end && IsGap(used', total, start, end - start)
  {
    Neighbours(tree, used, total, o, a);
    if start != o {
      assert Listed(tree, start, tree[start]);
    }
    if o + a in tree {
      assert Listed(tree, o + a, tree[o + a]);
    }
  }

  lemma SurvivingGap(tree: map<nat, nat>, used: iset<nat>, used': iset<nat>, total: nat,
                     o: nat, a: nat, start: nat, p: nat, t: nat)
    requires Canonical(tree, used, total) && 0 < a && Adds(used', used, o, a)
    requires if start == o then forall q: nat :: !EndsAt(tree, q, o) else EndsAt(tree, start, o)
    requires Listed(tree, p, t) && p != o + a && p != start
    ensures IsGap(used', total, p, t)
  {
    if start != o {
      assert Listed(tree, start, tree[start]);
      GapsApart(used, total, p, t, start, tree[start]);
    }
    assert p !in used && p + t - 1 !in used;
    assert !EndsAt(tree, p, o);
  }

  /**
   * An element whose rounded size is zero covers nothing. Releasing it keeps the free list
   * canonical exactly when its offset is an end of some free range; otherwise an empty range is filed.
   */
  lemma EmptyReleaseCanonical(tree: map<nat, nat>, used: iset<nat>, total: nat, o: nat, start: nat, end: nat)
    requires Canonical(tree, used, total) && MergeBounds(tree, o, 0, start, end)
    ensures start <= o <= end && (o !in tree || start == o)
    ensures Canonical(Merged(tree, o, 0, start, end), used, total) <==>
            OnGapEdge(tree, o)
  {
    if start != o && o in tree {
      assert Listed(tree, start, tree[start]) && Listed(tree, o, tree[o]);
      GapsApart(used, total, start, tree[start], o, tree[o]);
    }
    if o in tree || start != o {
      assert Merged(tree, o, 0, start, end) == tree;
    } else {
      assert Listed(Merged(tree, o, 0, start, end), o, 0);
    }
  }

  lemma BlockRemoved(live: map<nat, nat>, total: nat, o: nat)
    requires Disjoint(live, total) && o in live
    ensures Disjoint(live - {o}, total)
    ensures Adds(Used(live - {o}), Used(live), o, live[o])
    ensures forall x :: o <= x < o + live[o] ==> x !in Used(live - {o})
  {
    forall x | x in Used(live) && !(o <= x < o + live[o]) ensures x in Used(live - {o}) {
      var b :| InBlock(live, b, x);
      assert InBlock(live - {o}, b, x);
    }
    forall x | o <= x < o + live[o] ensures x in Used(live) {
      assert InBlock(live, o, x);
    }
    forall x: nat, b: nat | InBlock(live - {o}, b, x) ensures InBlock(live, b, x) && !(o <= x < o + live[o]) {
    }
  }

  /** Only the greatest free offset below `o` can be the one that ends at `o`. */
  lemma LastBefore(tree: map<nat, nat>, used: iset<nat>, total: nat, o: nat, prev: Option<nat>)
    requires Canonical(tree, used, total)
    requires if o == 0 then prev.None? else IsFloor(tree.Keys, o - 1, prev)
    ensures forall p: nat :: EndsAt(tree, p, o) ==> prev == Some(p)
  {
    forall p: nat | EndsAt(tree, p, o) ensures prev == Some(p) {
      assert Listed(tree, p, tree[p]) && p in tree.Keys;
      assert Listed(tree, prev.value, tree[prev.value]);
      GapsApart(used, total, p, tree[p], prev.value, tree[prev.value]);
    }
  }

  lemma BlockReleased(live: map<nat, nat>, total: nat, o: nat)
    requires Disjoint(live, total) && o in live
    ensures Disjoint(live - {o}, total) && Span(o, live[o]) <= Used(live)
    ensures Used(live - {o}) == Used(live) - Span(o, live[o])
  {
    BlockRemoved(live, total, o);
  }

  lemma UsedWithin(live: map<nat, nat>, total: nat)
    requires Disjoint(live, total)
    ensures forall x :: x in Used(live) ==> x < total
  {
    forall x: nat, b: nat | InBlock(live, b, x) ensures x < total {
    }
  }

  // ---------- Releasing a run of bytes that is no block ----------

  ghost function Span(o: nat, a: nat): iset<nat> {
    iset x: nat | InSpan(o, a, x)
  }

  ghost predicate InSpan(o: nat, a: nat, x: nat) {
    o <= x < o + a
  }

  /** The free list without the ranges that touch the released run. */
  ghost function Rest(tree: map<nat, nat>, o: nat, a: nat, start: nat): map<nat, nat> {
    tree - (if start == o then {} else {start}) - {o + a}
  }

  /** `emplace`: an offset already filed keeps its size. */
  function Filed(rest: map<nat, nat>, start: nat, size: nat): map<nat, nat> {
    if start in rest then rest else rest[start := size]
  }

  /** The two indices agree on the range that was filed last. */
  ghost predicate Agrees(rest: map<nat, nat>, start: nat, size: nat) {
    start in rest ==> rest[start] == size
  }

  ghost predicate Good(tree: map<nat, nat>, used: iset<nat>, total: nat, o: nat, a: nat, start: nat, end: nat)
    requires start <= end
  {
    var rest := Rest(tree, o, a, start);
    Agrees(rest, start, end - start) && Canonical(Filed(rest, start, end - start), used - Span(o, a), total)
  }

  lemma UsedRunReleased(tree: map<nat, nat>, used: iset<nat>, total: nat, o: nat, a: nat, start: nat, end: nat)
    requires Canonical(tree, used, total) && 0 < a && o + a <= total && MergeBounds(tree, o, a, start, end)
    requires Span(o, a) <= used
    ensures start <= end && start !in Rest(tree, o, a, start) && Good(tree, used, total, o, a, start, end)
  {
    var used' := used - Span(o, a);
    assert forall x :: x in Span(o, a) <==> o <= x < o + a;
    assert Adds(used', used, o, a);
    MergeCanonical(tree, used, used', total, o, a, start, end);
    assert o in Span(o, a);
    assert o in tree ==> Listed(tree, o, tree[o]);
    assert Filed(Rest(tree, o, a, start), start, end - start) == Merged(tree, o, a, start, end);
  }

  /** Nothing ends where a gap starts, and no gap starts where one ends. */
  lemma GapAlone(tree: map<nat, nat>, used: iset<nat>, total: nat, o: nat)
    requires Canonical(tree, used, total) && o in tree
    ensures forall p: nat :: !EndsAt(tree, p, o)
    ensures forall p: nat :: p in tree && o < p ==> o + tree[o] < p
  {
    assert Listed(tree, o, tree[o]);
    forall p: nat | p in tree ensures !EndsAt(tree, p, o) && (o < p ==> o + tree[o] < p) {
      assert Listed(tree, p, tree[p]);
      GapsApart(used, total, o, tree[o], p, tree[p]);
    }
  }

  /** Releasing a gap once more changes nothing. */
  lemma GapReleased(tree: map<nat, nat>, used: iset<nat>, total: nat, o: nat, a: nat, start: nat, end: nat)
    requires Canonical(tree, used, total) && Listed(tree, o, a) && MergeBounds(tree, o, a, start, end)
    ensures 0 < a && start <= end && Good(tree, used, total, o, a, start, end)
  {
    GapAlone(tree, used, total, o);
    assert IsGap(used, total, o, a);
    assert start == o && o + a !in tree;
    assert Rest(tree, o, a, start) == tree;
    assert used - Span(o, a) == used;
  }

  /** Two listed ranges that share a byte are not the gaps of anything. */
  lemma Overlapping(tree: map<nat, nat>, used: iset<nat>, total: nat, p: nat, q: nat)
    requires p in tree && q in tree && p < q < p + tree[p]
    ensures !Canonical(tree, used, total)
  {
    if Canonical(tree, used, total) {
      GapAlone(tree, used, total, p);
    }
  }

  lemma PastTheEnd(tree: map<nat, nat>, used: iset<nat>, total: nat, o: nat, a: nat, start: nat, end: nat)
    requires Canonical(tree, used, total) && 0 < a && MergeBounds(tree, o, a, start, end) && start <= o && total < o + a
    ensures start <= end && !Good(tree, used, total, o, a, start, end)
  {
    var rest := Rest(tree, o, a, start);
    if start in rest {
      assert Listed(tree, start, tree[start]);
    } else {
      var tree', used' := Filed(rest, start, end - start), used - Span(o, a);
      assert Listed(tree', start, end - start) && !IsGap(used', total, start, end - start);
    }
  }

  /** A free byte of the released run lies in a gap; wherever that starts, the result is no list of gaps. */
  lemma FreeByteReleased(tree: map<nat, nat>, used: iset<nat>, total: nat, o: nat, a: nat, start: nat, end: nat, x: nat)
    requires Canonical(tree, used, total) && 0 < a && MergeBounds(tree, o, a, start, end) && start <= o
    requires o <= x < o + a && x < total && x !in used && !Listed(tree, o, a)
    ensures start <= end && !Good(tree, used, total, o, a, start, end)
  {
    var p, t := FreeByteInGap(used, total, x);
    assert Listed(tree, p, t);
    GapAlone(tree, used, total, p);
    var rest := Rest(tree, o, a, start);
    if o in tree {
      GapAlone(tree, used, total, o);
    }
    if p == o {
      assert start == o && o in rest && rest[o] == t;
      assert t != end - o;
    } else {
      BesideGap(tree, used, total, o, a, start, end, p);
    }
  }

  lemma BesideGap(tree: map<nat, nat>, used: iset<nat>, total: nat, o: nat, a: nat, start: nat, end: nat, p: nat)
    requires Canonical(tree, used, total) && 0 < a && MergeBounds(tree, o, a, start, end) && start <= o
    requires p in tree && p != o && p < o + a && o < p + tree[p]
    ensures start <= end && !Good(tree, used, total, o, a, start, end)
  {
    GapAlone(tree, used, total, p);
    var rest := Rest(tree, o, a, start);
    var tree' := Filed(rest, start, end - start);
    if p < o {
      assert start != o ==> Listed(tree, start, tree[start]);
      if start != o {
        GapAlone(tree, used, total, start);
      }
      assert start == o && o !in tree && p in tree' && o in tree';
      Overlapping(tree', used - Span(o, a), total, p, o);
    } else if start in rest {
      GapAlone(tree, used, total, o);
    } else {
      Overlapping(tree', used - Span(o, a), total, start, p);
    }
  }

  /**
   * Whatever run of bytes is released, both indices end up with exactly the gaps of what is then used if and only
   * if the run was in use throughout, or was a gap already.
   */
  lemma RunReleaseIff(tree: map<nat, nat>, used: iset<nat>, total: nat, o: nat, a: nat, start: nat, end: nat)
    requires Canonical(tree, used, total) && 0 < a && MergeBounds(tree, o, a, start, end) && start <= o
    requires forall x :: x in used ==> x < total
    ensures start <= end
    ensures Good(tree, used, total, o, a, start, end) <==> Span(o, a) <= used || Listed(tree, o, a)
  {
    if Listed(tree, o, a) {
      GapReleased(tree, used, total, o, a, start, end);
    } else if o + a > total {
      PastTheEnd(tree, used, total, o, a, start, end);
      assert o + a - 1 in Span(o, a);
    } else if Span(o, a) <= used {
      UsedRunReleased(tree, used, total, o, a, start, end);
    } else {
      var x :| x in Span(o, a) && x !in used;
      FreeByteReleased(tree, used, total, o, a, start, end, x);
    }
  }

  // ---------- The pool ----------

  /** `std::set::lower_bound` under the size-first order. */
  method LowerBound(tree: set<Range>, anchor: Range) returns (pos: Option<Range>)
    ensures pos.None? ==> forall r :: r in tree ==> Less(r, anchor)
    ensures pos.Some? ==> pos.value in tree && !Less(pos.value, anchor)
    ensures pos.Some? ==> forall r :: r in tree && !Less(r, anchor) ==> !Less(r, pos.value)
  {
    var rest := tree;
    pos := None;
    while rest != {}
      invariant rest <= tree
      invariant pos.None? ==> forall r :: r in tree && r !in rest ==> Less(r, anchor)
      invariant pos.Some? ==> pos.value in tree && !Less(pos.value, anchor)
      invariant pos.Some? ==> forall r :: r in tree && r !in rest && !Less(r, anchor) ==> !Less(r, pos.value)
      decreases |rest|
    {
      var r :| r in rest;
      rest := rest - {r};
      if !Less(r, anchor) && (pos.None? || Less(r, pos.value)) {
        pos := Some(r);
      }
    }
  }

  class Pool {
    const base: nat
    const total: nat
    var addressTree: map<nat, nat>
    var sizeTree: set<Range>
    ghost var live: map<nat, nat>

    ghost predicate Synced() reads this {
      SameRanges(addressTree, sizeTree)
    }

    ghost predicate Valid() reads this {
      Synced() && Disjoint(live, total) && Canonical(addressTree, Used(live), total)
    }

    constructor (address: nat, size: nat)
      ensures base == address && total == size && live == map[] && Synced()
      ensures addressTree == map[0 := size]
      ensures Valid() <==> size > 0
    {
      base, total := address, size;
      addressTree := map[0 := size];
      sizeTree := {Range(0, size)};
      live := map[];
      new;
      InitialCanonical(size);
      assert Used(map[]) == iset{};
    }

    method CanAllocate(size: nat) returns (fits: bool)
      requires Synced() && size < WORD
      ensures fits <==> Fits(addressTree, AlignUp(size))
    {
      var pos := LowerBound(sizeTree, Range(0, AlignUp(size)));
      fits := pos.Some?;
      assert fits ==> Listed(addressTree, pos.value.offset, pos.value.size);
      assert forall o :: o in addressTree ==>
          Listed(addressTree, o, addressTree[o]) && Range(o, addressTree[o]) in sizeTree;
    }

    /** Best fit: the smallest sufficient gap, the lowest of equals, carved from its front. */
    method Allocate(size: nat) returns (e: Element, ghost offset: nat)
      requires Valid() && size < WORD
      modifies this`addressTree, this`sizeTree, this`live
      ensures Valid()
      ensures e.address != 0 <==> base != 0 && Fits(old(addressTree), AlignUp(size))
      ensures e.address == 0 ==> unchanged(this)
      ensures e.address != 0 ==> e == Element(base + offset, size) && BestFit(old(addressTree), AlignUp(size), offset)
      ensures e.address != 0 && AlignUp(size) > 0 ==> offset !in old(live) && live == old(live)[offset := AlignUp(size)]
      ensures e.address != 0 && AlignUp(size) == 0 ==> live == old(live) && addressTree == old(addressTree)
    {
      var target := Take(AlignUp(size));
      if target.None? {
        return Element(0, 0), 0;
      }
      return Element(base + target.value, size), target.value;
    }

    method Take(aligned: nat) returns (target: Option<nat>)
      requires Valid()
      modifies this`addressTree, this`sizeTree, this`live
      ensures Valid()
      ensures target.Some? <==> base != 0 && Fits(old(addressTree), aligned)
      ensures target.None? ==> unchanged(this)
      ensures target.Some? ==> BestFit(old(addressTree), aligned, target.value)
      ensures target.Some? && aligned > 0 ==> target.value !in old(live) && live == old(live)[target.value := aligned]
      ensures target.Some? && aligned == 0 ==> live == old(live) && addressTree == old(addressTree)
    {
      var pos := LowerBound(sizeTree, Range(0, aligned));
      assert forall o :: o in addressTree ==>
          Listed(addressTree, o, addressTree[o]) && Range(o, addressTree[o]) in sizeTree;
      if pos.None? || base == 0 {
        return None;
      }
      assert Listed(addressTree, pos.value.offset, pos.value.size);
      assert BestFit(addressTree, aligned, pos.value.offset);
      Carve(pos.value.offset, aligned);
      target := Some(pos.value.offset);
    }

    /** Moves the front of a free range out of both indices and files what is left of it. */
    method Carve(target: nat, aligned: nat)
      requires Valid() && target in addressTree && aligned <= addressTree[target]
      modifies this`addressTree, this`sizeTree, this`live
      ensures Valid()
      ensures aligned > 0 ==> target !in old(live) && live == old(live)[target := aligned]
      ensures aligned == 0 ==> live == old(live) && addressTree == old(addressTree)
    {
      var targetSize := addressTree[target];
      CarveKeeps(addressTree, live, total, target, aligned);
      RangeErased(addressTree, sizeTree, target);
      sizeTree := sizeTree - {Range(target, targetSize)};
      addressTree := addressTree - {target};
      if aligned < targetSize {
        RangeFiled(addressTree, sizeTree, target + aligned, targetSize - aligned);
        addressTree := addressTree[target + aligned := targetSize - aligned];
        sizeTree := sizeTree + {Range(target + aligned, targetSize - aligned)};
      }
      assert addressTree == Carved(old(addressTree), target, aligned);
      live := if aligned == 0 then live else live[target := aligned];
    }

    ghost predicate InPool(e: Element) {
      base != 0 && e.address != 0 && base <= e.address < base + total
    }

    /** The element is one this pool handed out and has not taken back. */
    ghost predicate Owns(e: Element)
      requires InPool(e) && e.size < WORD
      reads this
    {
      Listed(live, e.address - base, AlignUp(e.size))
    }

    /** The indices hold exactly the gaps of the bytes that are used once the run at `o` is not. */
    ghost predicate ValidWithout(before: map<nat, nat>, o: nat, a: nat) reads this {
      Synced() && Canonical(addressTree, Used(before) - Span(o, a), total)
    }

    /** Takes back a block; of any other run of bytes it says when the free list survives. */
    method Release(e: Element) returns (ok: bool)
      requires Valid() && e.size < WORD
      modifies this`addressTree, this`sizeTree, this`live
      ensures ok <==> InPool(e)
      ensures !ok ==> unchanged(this)
      ensures ok && old(Owns(e)) ==> Valid() && live == old(live) - {e.address - base}
      ensures ok && !old(Owns(e)) ==> live == old(live)
      ensures ok && AlignUp(e.size) == 0 ==> (Valid() <==> OnGapEdge(old(addressTree), e.address - base))
      ensures ok && AlignUp(e.size) > 0 ==>
                (ValidWithout(old(live), e.address - base, AlignUp(e.size)) <==>
                 || Span(e.address - base, AlignUp(e.size)) <= Used(old(live))
                 || Listed(old(addressTree), e.address - base, AlignUp(e.size)))
    {
      var aligned := AlignUp(e.size);
      if base == 0 || e.address == 0 || e.address < base || e.address >= base + total {
        return false;
      }
      if aligned > 0 {
        Return(e.address - base, aligned);
      } else {
        ReturnNothing(e.address - base);
      }
      ok := true;
    }

    method Return(offset: nat, aligned: nat)
      requires Valid() && aligned > 0
      modifies this`addressTree, this`sizeTree, this`live
      ensures old(Listed(live, offset, aligned)) ==> Valid() && live == old(live) - {offset}
      ensures !old(Listed(live, offset, aligned)) ==> live == old(live)
      ensures ValidWithout(old(live), offset, aligned) <==>
              Span(offset, aligned) <= Used(old(live)) || Listed(old(addressTree), offset, aligned)
    {
      ghost var t, u := addressTree, Used(live);
      ghost var start, end := Refile(offset, aligned);
      UsedWithin(live, total);
      RunReleaseIff(t, u, total, offset, aligned, start, end);
      if Listed(live, offset, aligned) {
        BlockReleased(live, total, offset);
        live := live - {offset};
      }
    }

    /** Of an empty element nothing is taken back. */
    method ReturnNothing(offset: nat)
      requires Valid()
      modifies this`addressTree, this`sizeTree
      ensures Valid() <==> OnGapEdge(old(addressTree), offset)
    {
      ghost var t := addressTree;
      ghost var start, end := Refile(offset, 0);
      EmptyReleaseCanonical(t, Used(live), total, offset, start, end);
      assert Filed(Rest(t, offset, 0, start), start, end - start) == Merged(t, offset, 0, start, end);
    }

    /** Merges the run with the free ranges beside it and files the result in both indices. */
    method Refile(offset: nat, aligned: nat) returns (ghost start: nat, ghost end: nat)
      requires Valid()
      modifies this`addressTree, this`sizeTree
      ensures start <= offset && start <= end && MergeBounds(old(addressTree), offset, aligned, start, end)
      ensures addressTree == Filed(Rest(old(addressTree), offset, aligned, start), start, end - start)
      ensures Synced() <==> Agrees(Rest(old(addressTree), offset, aligned, start), start, end - start)
    {
      var finalOffset, finalSize := Unfile(offset, aligned);
      RangeFiledIff(addressTree, sizeTree, finalOffset, finalSize);
      addressTree := Filed(addressTree, finalOffset, finalSize);
      sizeTree := sizeTree + {Range(finalOffset, finalSize)};
      start, end := finalOffset, finalOffset + finalSize;
    }

    /** Takes out the free ranges that touch the block and returns their union with it. */
    method Unfile(offset: nat, aligned: nat) returns (finalOffset: nat, finalSize: nat)
      requires Valid()
      modifies this`addressTree, this`sizeTree
      ensures Synced()
      ensures finalOffset <= offset && finalOffset <= finalOffset + finalSize
      ensures MergeBounds(old(addressTree), offset, aligned, finalOffset, finalOffset + finalSize)
      ensures addressTree == Rest(old(addressTree), offset, aligned, finalOffset)
    {
      finalOffset, finalSize := MergePrevious(offset, aligned);
      if offset + aligned in addressTree {
        finalSize := finalSize + addressTree[offset + aligned];
        RangeErased(addressTree, sizeTree, offset + aligned);
        sizeTree := sizeTree - {Range(offset + aligned, addressTree[offset + aligned])};
        addressTree := addressTree - {offset + aligned};
      }
    }

    /** Takes out the free range that ends at `offset`, if there is one. */
    method MergePrevious(offset: nat, aligned: nat) returns (finalOffset: nat, finalSize: nat)
      requires Valid()
      modifies this`addressTree, this`sizeTree
      ensures Synced()
      ensures finalOffset <= offset && finalOffset + finalSize == offset + aligned
      ensures addressTree == old(addressTree) - (if finalOffset == offset then {} else {finalOffset})
      ensures if finalOffset == offset then forall p: nat :: !EndsAt(old(addressTree), p, offset)
              else EndsAt(old(addressTree), finalOffset, offset)
    {
      finalOffset, finalSize := offset, aligned;
      var prev := None;
      if offset > 0 {
        prev := Floor(addressTree.Keys, offset - 1);
      }
      LastBefore(addressTree, Used(live), total, offset, prev);
      if prev.Some? && prev.value + addressTree[prev.value] == offset {
        finalOffset := prev.value;
        finalSize := finalSize + addressTree[prev.value];
        RangeErased(addressTree, sizeTree, prev.value);
        sizeTree := sizeTree - {Range(prev.value, addressTree[prev.value])};
        addressTree := addressTree - {prev.value};
      }
    }
  }

  /** A pool of two pages: an empty element is handed out, a page behind it, and the empty element released again. */
  method EmptyReleaseBreaks(base: nat) returns (pool: Pool, ok: bool)
    requires base > 0
    ensures fresh(pool) && ok && !pool.Valid()
  {
    pool := new Pool(base, 2 * PAGE);
    assert 0 in pool.addressTree && AlignUp(0) == 0 && AlignUp(PAGE) == PAGE;
    var empty, _ := pool.Allocate(0);
    assert empty == Element(base, 0);
    assert 0 in pool.addressTree;
    var page, at := pool.Allocate(PAGE);
    assert at == 0 && InBlock(pool.live, 0, 0);
    NotOnEdge(pool.addressTree, Used(pool.live), pool.total);
    ok := pool.Release(empty);
  }

  /** A pool of two pages: the same page released twice is merged with the free list a second time. */
  method DoubleReleaseBreaks(base: nat) returns (pool: Pool, first: bool, second: bool)
    requires base > 0
    ensures fresh(pool) && first && second && pool.live == map[] && !pool.Valid() && !pool.ValidWithout(map[], 0, PAGE)
  {
    pool := new Pool(base, 2 * PAGE);
    assert 0 in pool.addressTree && AlignUp(PAGE) == PAGE;
    var page, at := pool.Allocate(PAGE);
    assert page == Element(base, PAGE);
    first := pool.Release(page);
    assert pool.live == map[];
    AllReleasedRestoresInitial(pool.addressTree, 2 * PAGE);
    assert 0 in Span(0, PAGE) && 0 !in Used(map[]);
    second := pool.Release(page);
    assert Used(map[]) - Span(0, PAGE) == Used(map[]);
  }

  lemma NotOnEdge(tree: map<nat, nat>, used: iset<nat>, total: nat)
    requires Canonical(tree, used, total) && 0 in used
    ensures !OnGapEdge(tree, 0)
  {
    forall p: nat | p in tree ensures p > 0 {
      assert Listed(tree, p, tree[p]);
    }
  }
}
