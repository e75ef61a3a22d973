/** `SubnetList::gap` (src/main.rs:346-379): one pass over the sorted set
    that keeps, per family, the highest end address seen so far, and range
    splits every hole below the next entry and finally the tail up to the
    top address. The tail test is a strict `<` against the top address, so
    a single uncovered top address is never emitted. */
module Complement {
  import opened Bits
  import opened Subnets
  import opened RangeSplit
  import opened OrderedSet
  import opened Wrappers
  import opened Aggregate

  /** The loop state: `last_v4.0`, `last_v6.0` and the blocks inserted so far,
      in insertion order. */
  datatype Mark = Mark(last4: nat, last6: nat, out: seq<Subnet>)

  function Last(m: Mark, f: Family): nat
  {
    if f == V4 then m.last4 else m.last6
  }

  function SetLast(m: Mark, f: Family, x: nat): Mark
  {
    if f == V4 then m.(last4 := x) else m.(last6 := x)
  }

  /** The holes of `[lo, hi]` at full prefix length (`parse_ipv4_range(list,
      lo, hi, None)`): tag 0. */
  function Range(f: Family, lo: nat, hi: nat): seq<Subnet>
    requires hi < Pow2(Width(f))
  {
    Split(f, lo, hi, Width(f), 0)
  }

  /** The hole below an entry at `s` when the covered bound is `last`
      (src/main.rs:353-355). */
  function Hole(f: Family, last: nat, s: nat): seq<Subnet>
    requires s <= Pow2(Width(f))
  {
    if s > last then Range(f, last, s - 1) else []
  }

  /** `s + (1 << (width - mask))` overflows exactly when the block reaches
      the top of its address space (which includes every `/0`); a checked
      build panics there. */
  predicate ReachesTop(s: Subnet)
  {
    End(s) == Pow2(Width(s.fam))
  }

  /** One turn of the loop for entry `item`; `None` when the end address
      overflows. */
  function GapStep(m: Mark, item: Subnet): (r: Option<Mark>)
    requires WellFormed(item) && Last(m, item.fam) < Pow2(Width(item.fam))
    ensures r.None? <==> ReachesTop(item)
    ensures r.Some? ==> Last(r.value, item.fam) < Pow2(Width(item.fam))
    ensures r.Some? ==> forall f :: f != item.fam ==> Last(r.value, f) == Last(m, f)
  {
    if ReachesTop(item) then None
    else
      var f, s, last := item.fam, item.net, Last(m, item.fam);
      var x := End(item);
      EndBound(item);
      Some(SetLast(m, f, if x > last then x else last).(out := m.out + Hole(f, last, s)))
  }

  /** The loop over `items` in order, from `last = 0` for both families. */
  function GapFold(items: seq<Subnet>): (r: Option<Mark>)
    requires AllWellFormed(items)
    ensures r.Some? ==> forall f :: Last(r.value, f) < Pow2(Width(f))
    decreases |items|
  {
    if items == [] then Some(Mark(0, 0, []))
    else
      var init := items[..|items| - 1];
      var item := items[|items| - 1];
      var p := GapFold(init);
      assert forall j :: 0 <= j < |init| ==> init[j] == items[j];
      if p.None? then None
      else
        GapStep(p.value, item)
  }

  /** The pass fails exactly when some entry reaches the top of its space. */
  lemma {:induction false} GapFoldFails(items: seq<Subnet>)
    requires AllWellFormed(items)
    ensures GapFold(items).None? <==> exists j :: 0 <= j < |items| && ReachesTop(items[j])
    decreases |items|
  {
    if items != [] {
      var init := items[..|items| - 1];
      GapFoldFails(init);
      assert forall j :: 0 <= j < |init| ==> init[j] == items[j];
      if exists j :: 0 <= j < |items| && ReachesTop(items[j]) {
        var j :| 0 <= j < |items| && ReachesTop(items[j]);
        if j < |init| {
          assert ReachesTop(init[j]);
        }
      }
    }
  }

  /** One more entry: the pass over a longer prefix is one more turn. */
  lemma GapFoldNext(items: seq<Subnet>, k: nat)
    requires AllWellFormed(items) && k < |items|
    ensures AllWellFormed(items[..k]) && AllWellFormed(items[..k + 1])
    ensures GapFold(items[..k + 1]) ==
      (match GapFold(items[..k]) case None => None case Some(m) => GapStep(m, items[k]))
  {
    assert items[..k + 1][..k] == items[..k];
  }

  /** Once the pass has failed it stays failed. */
  lemma {:induction false} GapFoldStops(items: seq<Subnet>, k: nat)
    requires AllWellFormed(items) && k <= |items| && AllWellFormed(items[..k]) && GapFold(items[..k]).None?
    ensures GapFold(items).None?
    decreases |items| - k
  {
    if k < |items| {
      GapFoldNext(items, k);
      GapFoldStops(items, k + 1);
    } else {
      assert items[..k] == items;
    }
  }

  /** The tail `[last, top]` when `last` is strictly below the top address
      (src/main.rs:372-377). */
  function Tail(m: Mark, f: Family): seq<Subnet>
    requires Last(m, f) < Pow2(Width(f))
  {
    if Last(m, f) < Max(f) then Range(f, Last(m, f), Max(f)) else []
  }

  /** `gap()`: every block it inserts, in insertion order, or `None` when an
      entry's end address overflows. */
  function Gap(items: seq<Subnet>): Option<seq<Subnet>>
    requires AllWellFormed(items)
  {
    match GapFold(items)
    case None => None
    case Some(m) => Some(Blocks(m))
  }

  /** The blocks inserted so far are canonical, carry tag 0 and are
      pairwise disjoint. */
  ghost predicate OutOk(out: seq<Subnet>)
  {
    (forall k :: 0 <= k < |out| ==> WellFormed(out[k]) && out[k].tag == 0) &&
    PairwiseDisjoint(out)
  }

  /** What the loop keeps for family `f` after the entries `items`: `last`
      is the highest end of those entries (0 if none), every inserted block
      ends at or below it, and below it the inserted blocks cover exactly
      the addresses the entries leave uncovered. */
  ghost predicate FamInv(m: Mark, items: seq<Subnet>, f: Family)
  {
    var last := Last(m, f);
    (forall j :: 0 <= j < |items| && items[j].fam == f ==> End(items[j]) <= last) &&
    (last > 0 ==> exists j :: 0 <= j < |items| && items[j].fam == f && End(items[j]) == last) &&
    (forall k :: 0 <= k < |m.out| && m.out[k].fam == f ==> End(m.out[k]) <= last) &&
    (forall a: nat :: a < last ==> (CoversAny(m.out, f, a) <==> !CoversAny(items, f, a)))
  }

  lemma HoleTiles(f: Family, lo: nat, hi: nat)
    requires lo < hi <= Pow2(Width(f))
    ensures Tiles(Range(f, lo, hi - 1), f, lo, hi, 0)
  {
    SplitTiles(f, lo, hi - 1, Width(f), 0);
    assert Pow2(Width(f) - Width(f)) == 1;
  }

  /** Blocks of another family do not change what covers `f`. */
  lemma CoversOther(xs: seq<Subnet>, ys: seq<Subnet>, f: Family, a: nat)
    requires forall k :: 0 <= k < |ys| ==> ys[k].fam != f
    ensures CoversAny(xs + ys, f, a) <==> CoversAny(xs, f, a)
  {
    CoversAnyConcat(xs, ys, f, a);
  }

  /** Appending blocks that all start at or after `lo`, when the earlier
      blocks of that family end at or before `lo`, keeps `OutOk`. */
  lemma OutAppend(out: seq<Subnet>, hole: seq<Subnet>, f: Family, lo: nat, hi: nat)
    requires OutOk(out) && Tiles(hole, f, lo, hi, 0)
    requires forall k :: 0 <= k < |out| && out[k].fam == f ==> End(out[k]) <= lo
    ensures OutOk(out + hole)
  {
    var r := out + hole;
    forall j, k | 0 <= j < k < |r| ensures Disjoint(r[j], r[k]) {
      if k < |out| {
        assert r[j] == out[j] && r[k] == out[k];
      } else if j >= |out| {
        assert r[j] == hole[j - |out|] && r[k] == hole[k - |out|];
      } else {
        assert r[j] == out[j] && r[k] == hole[k - |out|];
      }
    }
  }

  /** The loop turn for an entry of another family leaves `f`'s invariant. */
  lemma StepOther(m: Mark, items: seq<Subnet>, item: Subnet, f: Family)
    requires WellFormed(item) && Last(m, item.fam) < Pow2(Width(item.fam)) && !ReachesTop(item)
    requires f != item.fam && FamInv(m, items, f)
    ensures FamInv(GapStep(m, item).value, items + [item], f)
  {
    var m' := GapStep(m, item).value;
    var items' := items + [item];
    var hole := m'.out[|m.out|..];
    assert m'.out == m.out + hole;
    assert forall k :: 0 <= k < |hole| ==> hole[k].fam == item.fam by {
      if item.net > Last(m, item.fam) {
        HoleTiles(item.fam, Last(m, item.fam), item.net);
      }
    }
    forall a: nat ensures CoversAny(m'.out, f, a) <==> CoversAny(m.out, f, a) {
      CoversOther(m.out, hole, f, a);
    }
    forall a: nat ensures CoversAny(items', f, a) <==> CoversAny(items, f, a) {
      CoversOther(items, [item], f, a);
    }
    assert forall j :: 0 <= j < |items| ==> items'[j] == items[j];
    if Last(m', f) > 0 {
      var j :| 0 <= j < |items| && items[j].fam == f && End(items[j]) == Last(m, f);
      assert items'[j] == items[j];
    }
  }

  /** The loop turn for an entry of family `f`: the hole `[last, net)` is
      filled, `last` moves up to the entry's end, and the invariant holds
      for the entries seen so far plus this one. Entries come in order, so
      every earlier entry of `f` starts at or below this one. */
  lemma StepSame(m: Mark, items: seq<Subnet>, item: Subnet)
    requires WellFormed(item) && Last(m, item.fam) < Pow2(Width(item.fam)) && !ReachesTop(item)
    requires forall j :: 0 <= j < |items| ==> Less(items[j], item)
    requires FamInv(m, items, item.fam) && OutOk(m.out)
    ensures OutOk(GapStep(m, item).value.out)
    ensures FamInv(GapStep(m, item).value, items + [item], item.fam)
  {
    var f, s, last := item.fam, item.net, Last(m, item.fam);
    EndBound(item);
    var m' := GapStep(m, item).value;
    var hi := if s > last then s else last;
    var last' := if End(item) > last then End(item) else last;
    var hole := Hole(f, last, s);
    assert m'.out == m.out + hole && Last(m', f) == last';
    HoleTilesAny(f, last, s);
    OutAppend(m.out, hole, f, last, hi);
    StepCoverage(m.out, hole, items, item, last, hi, last');
    EndsBelow(m.out, hole, f, last, hi, last');
    ItemsBelow(items, item, last, last');
  }

  /** The hole below an entry tiles `[last, net)`, and is empty when the
      entry starts at or below `last`. */
  lemma HoleTilesAny(f: Family, last: nat, s: nat)
    requires s <= Pow2(Width(f))
    ensures Tiles(Hole(f, last, s), f, last, if s > last then s else last, 0)
  {
    if s > last {
      HoleTiles(f, last, s);
    } else {
      TilesEmpty(f, last, 0);
    }
  }

  /** Blocks ending at or below `last`, then a tiling up to `hi`, all end
      at or below any bound from `hi` up. */
  lemma EndsBelow(out: seq<Subnet>, hole: seq<Subnet>, f: Family, last: nat, hi: nat, last': nat)
    requires forall k :: 0 <= k < |out| && out[k].fam == f ==> End(out[k]) <= last
    requires Tiles(hole, f, last, hi, 0) && last <= hi <= last'
    ensures forall k :: 0 <= k < |out + hole| && (out + hole)[k].fam == f ==> End((out + hole)[k]) <= last'
  {
    forall k | 0 <= k < |out + hole| && (out + hole)[k].fam == f ensures End((out + hole)[k]) <= last' {
      if k >= |out| {
        assert (out + hole)[k] == hole[k - |out|];
      } else {
        assert (out + hole)[k] == out[k];
      }
    }
  }

  /** `last` moves up to the entry's end: it stays the highest end of the
      entries of `f` seen, and is the end of one of them. */
  lemma ItemsBelow(items: seq<Subnet>, item: Subnet, last: nat, last': nat)
    requires forall j :: 0 <= j < |items| && items[j].fam == item.fam ==> End(items[j]) <= last
    requires last > 0 ==> exists j :: 0 <= j < |items| && items[j].fam == item.fam && End(items[j]) == last
    requires last' == if End(item) > last then End(item) else last
    ensures forall j :: 0 <= j < |items + [item]| && (items + [item])[j].fam == item.fam ==>
      End((items + [item])[j]) <= last'
    ensures last' > 0 ==>
      exists j :: 0 <= j < |items + [item]| && (items + [item])[j].fam == item.fam && End((items + [item])[j]) == last'
  {
    var items' := items + [item];
    assert forall j :: 0 <= j < |items| ==> items'[j] == items[j];
    assert items'[|items|] == item;
    if last' > 0 && End(item) <= last {
      var j :| 0 <= j < |items| && items[j].fam == item.fam && End(items[j]) == last;
      assert items'[j] == items[j];
    }
  }

  /** The coverage part of `StepSame`, over the pieces of the loop turn. */
  lemma StepCoverage(out: seq<Subnet>, hole: seq<Subnet>, items: seq<Subnet>, item: Subnet,
                     last: nat, hi: nat, last': nat)
    requires WellFormed(item) && hi == (if item.net > last then item.net else last)
    requires last' == (if End(item) > last then End(item) else last)
    requires forall j :: 0 <= j < |items| ==> Less(items[j], item)
    requires forall j :: 0 <= j < |items| && items[j].fam == item.fam ==> End(items[j]) <= last
    requires last > 0 ==> exists j :: 0 <= j < |items| && items[j].fam == item.fam && End(items[j]) == last
    requires forall k :: 0 <= k < |out| && out[k].fam == item.fam ==> End(out[k]) <= last
    requires forall a: nat :: a < last ==> (CoversAny(out, item.fam, a) <==> !CoversAny(items, item.fam, a))
    requires forall a: nat :: CoversAny(hole, item.fam, a) <==> last <= a < hi
    ensures forall a: nat :: a < last' ==>
      (CoversAny(out + hole, item.fam, a) <==> !CoversAny(items + [item], item.fam, a))
  {
    var f := item.fam;
    forall a: nat | a < last'
      ensures CoversAny(out + hole, f, a) <==> !CoversAny(items + [item], f, a)
    {
      CoversAnyConcat(out, hole, f, a);
      CoversAnyConcat(items, [item], f, a);
      CoversOne(item, f, a);
      if a < last {
        var j :| 0 <= j < |items| && items[j].fam == f && End(items[j]) == last;
        if Covers(item, f, a) {
          assert Less(items[j], item);
          assert Covers(items[j], f, a);
        }
      }
    }
  }

  /** The loop keeps `OutOk` and both families' invariants. */
  lemma {:induction false} GapFoldInv(items: seq<Subnet>)
    requires StrictlySorted(items) && AllWellFormed(items) && GapFold(items).Some?
    ensures OutOk(GapFold(items).value.out)
    ensures FamInv(GapFold(items).value, items, V4) && FamInv(GapFold(items).value, items, V6)
    decreases |items|
  {
    if items != [] {
      var init := items[..|items| - 1];
      var item := items[|items| - 1];
      assert items == init + [item];
      assert forall j :: 0 <= j < |init| ==> init[j] == items[j];
      GapFoldInv(init);
      var m := GapFold(init).value;
      assert GapFold(items) == GapStep(m, item);
      assert forall j :: 0 <= j < |init| ==> Less(init[j], item);
      StepSame(m, init, item);
      if item.fam == V4 {
        StepOther(m, init, item, V6);
      } else {
        StepOther(m, init, item, V4);
      }
    }
  }

  /** Everything `gap()` inserts after a loop that ended in state `m`. */
  function Blocks(m: Mark): seq<Subnet>
    requires forall g :: Last(m, g) < Pow2(Width(g))
  {
    m.out + Tail(m, V4) + Tail(m, V6)
  }

  /** Where the tail of family `f` ends: the top of the space, or nowhere. */
  function TailEnd(m: Mark, f: Family): nat
  {
    if Last(m, f) < Max(f) then Pow2(Width(f)) else Last(m, f)
  }

  lemma TailTiles(m: Mark, f: Family)
    requires Last(m, f) < Pow2(Width(f))
    ensures Tiles(Tail(m, f), f, Last(m, f), TailEnd(m, f), 0)
  {
    var lo, hi := Last(m, f), Pow2(Width(f));
    MaxIsTop(f);
    if lo < hi - 1 {
      HoleTiles(f, lo, hi);
      assert Tail(m, f) == Range(f, lo, hi - 1) && TailEnd(m, f) == hi;
    } else {
      TilesEmpty(f, lo, 0);
      assert Tail(m, f) == [] && TailEnd(m, f) == lo;
    }
  }

  /** Only the tail of `f` itself adds to what covers `f`. */
  lemma BlocksCover(m: Mark, f: Family, a: nat)
    requires forall g :: Last(m, g) < Pow2(Width(g))
    ensures CoversAny(Blocks(m), f, a) <==> CoversAny(m.out, f, a) || Last(m, f) <= a < TailEnd(m, f)
  {
    TailTiles(m, V4);
    TailTiles(m, V6);
    var t4, t6 := Tail(m, V4), Tail(m, V6);
    CoversAnyConcat(m.out + t4, t6, f, a);
    CoversAnyConcat(m.out, t4, f, a);
  }

  lemma BlocksOk(m: Mark)
    requires forall g :: Last(m, g) < Pow2(Width(g))
    requires OutOk(m.out)
    requires forall k :: 0 <= k < |m.out| ==> End(m.out[k]) <= Last(m, m.out[k].fam)
    ensures OutOk(Blocks(m))
    ensures forall k :: 0 <= k < |Blocks(m)| ==> End(Blocks(m)[k]) <= Pow2(Width(Blocks(m)[k].fam))
  {
    BlocksOutOk(m);
    InSpace(Blocks(m));
  }

  lemma BlocksOutOk(m: Mark)
    requires forall g :: Last(m, g) < Pow2(Width(g))
    requires OutOk(m.out)
    requires forall k :: 0 <= k < |m.out| ==> End(m.out[k]) <= Last(m, m.out[k].fam)
    ensures OutOk(Blocks(m))
  {
    AppendTail(m.out, m, V4);
    V6Below(m);
    AppendTail(m.out + Tail(m, V4), m, V6);
  }

  /** Appending the tail of `f` after blocks that end below its start. */
  lemma AppendTail(out: seq<Subnet>, m: Mark, f: Family)
    requires Last(m, f) < Pow2(Width(f)) && OutOk(out)
    requires forall k :: 0 <= k < |out| && out[k].fam == f ==> End(out[k]) <= Last(m, f)
    ensures OutOk(out + Tail(m, f))
  {
    TailTiles(m, f);
    OutAppend(out, Tail(m, f), f, Last(m, f), TailEnd(m, f));
  }

  /** The IPv4 tail adds nothing of IPv6. */
  lemma V6Below(m: Mark)
    requires forall g :: Last(m, g) < Pow2(Width(g))
    requires forall k :: 0 <= k < |m.out| ==> End(m.out[k]) <= Last(m, m.out[k].fam)
    ensures forall k :: 0 <= k < |m.out + Tail(m, V4)| && (m.out + Tail(m, V4))[k].fam == V6 ==>
      End((m.out + Tail(m, V4))[k]) <= m.last6
  {
    var o := m.out + Tail(m, V4);
    TailTiles(m, V4);
    forall k | 0 <= k < |o| && o[k].fam == V6 ensures End(o[k]) <= m.last6 {
      if k < |m.out| { assert o[k] == m.out[k]; }
    }
  }

  /** Canonical blocks end inside their space. */
  lemma InSpace(bs: seq<Subnet>)
    requires OutOk(bs)
    ensures forall k :: 0 <= k < |bs| ==> End(bs[k]) <= Pow2(Width(bs[k].fam))
  {
    forall k | 0 <= k < |bs| ensures End(bs[k]) <= Pow2(Width(bs[k].fam)) {
      EndBound(bs[k]);
    }
  }

  /** At and above `last` neither the inserted blocks nor the entries
      cover anything of `f`. */
  lemma NothingAbove(m: Mark, items: seq<Subnet>, f: Family, a: nat)
    requires FamInv(m, items, f) && Last(m, f) <= a
    ensures !CoversAny(m.out, f, a) && !CoversAny(items, f, a)
  {
  }

  lemma BlocksCoverage(m: Mark, items: seq<Subnet>, f: Family)
    requires forall g :: Last(m, g) < Pow2(Width(g))
    requires FamInv(m, items, f) && AllWellFormed(items)
    ensures forall a: nat :: a < Max(f) ==> (CoversAny(Blocks(m), f, a) <==> !CoversAny(items, f, a))
    ensures !CoversAny(items, f, Max(f))
    ensures CoversAny(Blocks(m), f, Max(f)) <==> !CoversAny(items, f, Max(f) - 1)
  {
    forall a: nat | a < Max(f) ensures CoversAny(Blocks(m), f, a) <==> !CoversAny(items, f, a) {
      BlocksCoverAt(m, items, f, a);
    }
    BlocksAtTop(m, items, f);
  }

  lemma BlocksCoverAt(m: Mark, items: seq<Subnet>, f: Family, a: nat)
    requires forall g :: Last(m, g) < Pow2(Width(g))
    requires FamInv(m, items, f) && AllWellFormed(items) && a < Max(f)
    ensures CoversAny(Blocks(m), f, a) <==> !CoversAny(items, f, a)
  {
    MaxIsTop(f);
    BlocksCover(m, f, a);
    if a >= Last(m, f) {
      NothingAbove(m, items, f, a);
    }
  }

  lemma BlocksAtTop(m: Mark, items: seq<Subnet>, f: Family)
    requires forall g :: Last(m, g) < Pow2(Width(g))
    requires FamInv(m, items, f) && AllWellFormed(items)
    ensures !CoversAny(items, f, Max(f))
    ensures CoversAny(Blocks(m), f, Max(f)) <==> !CoversAny(items, f, Max(f) - 1)
  {
    BlocksCover(m, f, Max(f));
    NothingAtTop(m, items, f);
    if Last(m, f) == Max(f) {
      TopReached(m, items, f);
    } else {
      NothingBelowTop(m, items, f);
    }
  }

  lemma NothingAtTop(m: Mark, items: seq<Subnet>, f: Family)
    requires FamInv(m, items, f) && Last(m, f) < Pow2(Width(f))
    ensures !CoversAny(m.out, f, Max(f)) && !CoversAny(items, f, Max(f))
    ensures Last(m, f) < Max(f) <==> Last(m, f) <= Max(f) < TailEnd(m, f)
  {
    TopInTail(m, f);
    NothingAbove(m, items, f, Max(f));
  }

  /** The tail reaches the top address exactly when it is not empty. */
  lemma TopInTail(m: Mark, f: Family)
    requires Last(m, f) < Pow2(Width(f))
    ensures Last(m, f) <= Max(f)
    ensures Last(m, f) < Max(f) <==> Last(m, f) <= Max(f) < TailEnd(m, f)
  {
    MaxIsTop(f);
  }

  lemma NothingBelowTop(m: Mark, items: seq<Subnet>, f: Family)
    requires FamInv(m, items, f) && Last(m, f) < Max(f)
    ensures !CoversAny(items, f, Max(f) - 1)
  {
    NothingAbove(m, items, f, Max(f) - 1);
  }

  /** When an entry ends at the top address, the address below it is
      covered. */
  lemma TopReached(m: Mark, items: seq<Subnet>, f: Family)
    requires FamInv(m, items, f) && AllWellFormed(items) && Last(m, f) == Max(f)
    ensures CoversAny(items, f, Max(f) - 1)
  {
    assert Max(f) > 0;
    var j :| 0 <= j < |items| && items[j].fam == f && End(items[j]) == Last(m, f);
    EndBound(items[j]);
    assert Covers(items[j], f, Max(f) - 1);
  }

  /** `gap()` on a sorted list whose entries all stay below the top of
      their space: its blocks are canonical, tagged 0, pairwise disjoint
      and inside the space; below the top address of each family they cover
      exactly the addresses the entries leave uncovered; the top address
      itself (which such entries never cover) is emitted exactly when the
      address below it is uncovered, so a lone uncovered top address is
      missed. */
  lemma GapCovers(items: seq<Subnet>, f: Family)
    requires StrictlySorted(items) && AllWellFormed(items) && Gap(items).Some?
    ensures OutOk(Gap(items).value)
    ensures forall k :: 0 <= k < |Gap(items).value| ==>
      End(Gap(items).value[k]) <= Pow2(Width(Gap(items).value[k].fam))
    ensures forall a: nat :: a < Max(f) ==>
      (CoversAny(Gap(items).value, f, a) <==> !CoversAny(items, f, a))
    ensures !CoversAny(items, f, Max(f))
    ensures CoversAny(Gap(items).value, f, Max(f)) <==> !CoversAny(items, f, Max(f) - 1)
    ensures NoBuddies(Gap(items).value) && NoBuddies(InsertAll([], Gap(items).value))
  {
    GapShape(items);
    GapExact(items, f);
    GapNoBuddies(items);
  }

  /** Every inserted block ends strictly below its family's `last`, and no
      two inserted blocks are the two halves of one block. */
  ghost predicate Minimal(m: Mark)
  {
    NoBuddies(m.out) && forall k :: 0 <= k < |m.out| ==> End(m.out[k]) < Last(m, m.out[k].fam)
  }

  /** A turn keeps `Minimal`: the hole is split minimally, starts at or
      above `last`, and ends at the entry, below the entry's end. */
  lemma StepMinimal(m: Mark, item: Subnet)
    requires WellFormed(item) && Last(m, item.fam) < Pow2(Width(item.fam)) && !ReachesTop(item)
    requires Minimal(m)
    ensures Minimal(GapStep(m, item).value)
  {
    var f, s, last := item.fam, item.net, Last(m, item.fam);
    EndBound(item);
    var m' := GapStep(m, item).value;
    var hole := Hole(f, last, s);
    assert m'.out == m.out + hole;
    HoleTilesAny(f, last, s);
    if s > last {
      SplitRange(f, last, s - 1, 0);
    }
    NoBuddiesAppend(m.out, hole, f, last);
    assert End(item) == s + Size(item);
    HoleBelow(m, m', hole, f, s);
  }

  /** Earlier blocks stay below the bounds, which only grow, and the hole
      ends at the entry, below the new bound of its family. */
  lemma HoleBelow(m: Mark, m': Mark, hole: seq<Subnet>, f: Family, s: nat)
    requires m'.out == m.out + hole && s < Last(m', f)
    requires forall g :: Last(m, g) <= Last(m', g)
    requires forall k :: 0 <= k < |m.out| ==> End(m.out[k]) < Last(m, m.out[k].fam)
    requires forall k :: 0 <= k < |hole| ==> hole[k].fam == f && End(hole[k]) <= s
    ensures forall k :: 0 <= k < |m'.out| ==> End(m'.out[k]) < Last(m', m'.out[k].fam)
  {
    forall k | 0 <= k < |m'.out| ensures End(m'.out[k]) < Last(m', m'.out[k].fam) {
      if k < |m.out| {
        assert m'.out[k] == m.out[k];
      } else {
        assert m'.out[k] == hole[k - |m.out|];
      }
    }
  }

  lemma {:induction false} FoldMinimal(items: seq<Subnet>)
    requires AllWellFormed(items) && GapFold(items).Some?
    ensures Minimal(GapFold(items).value)
    decreases |items|
  {
    if items != [] {
      var init := items[..|items| - 1];
      var item := items[|items| - 1];
      assert forall j :: 0 <= j < |init| ==> init[j] == items[j];
      FoldMinimal(init);
      StepMinimal(GapFold(init).value, item);
    }
  }

  /** The blocks of `gap()` are a minimal decomposition: no two of them are
      the two halves of one block, in insertion order or sorted. Holes are
      separated by covered addresses, and each is split minimally. */
  lemma GapNoBuddies(items: seq<Subnet>)
    requires AllWellFormed(items) && Gap(items).Some?
    ensures NoBuddies(Gap(items).value) && NoBuddies(InsertAll([], Gap(items).value))
  {
    FoldMinimal(items);
    BlocksMinimal(GapFold(items).value);
    NoBuddiesSame(Gap(items).value, InsertAll([], Gap(items).value));
  }

  /** The tails start at or above their family's `last`, above every
      block inserted before them. */
  lemma BlocksMinimal(m: Mark)
    requires forall g :: Last(m, g) < Pow2(Width(g))
    requires Minimal(m)
    ensures NoBuddies(Blocks(m))
  {
    TailFrom(m, V4);
    TailFrom(m, V6);
    AppendTails(m.out, Tail(m, V4), Tail(m, V6), Last(m, V4), Last(m, V6));
  }

  lemma AppendTails(out: seq<Subnet>, t4: seq<Subnet>, t6: seq<Subnet>, l4: nat, l6: nat)
    requires NoBuddies(out) && NoBuddies(t4) && NoBuddies(t6)
    requires forall k :: 0 <= k < |out| ==> End(out[k]) < (if out[k].fam == V4 then l4 else l6)
    requires forall k :: 0 <= k < |t4| ==> t4[k].fam == V4 && l4 <= t4[k].net
    requires forall k :: 0 <= k < |t6| ==> t6[k].fam == V6 && l6 <= t6[k].net
    ensures NoBuddies(out + t4 + t6)
  {
    NoBuddiesAppend(out, t4, V4, l4);
    forall k | 0 <= k < |out + t4| && (out + t4)[k].fam == V6 ensures End((out + t4)[k]) < l6 {
      if k < |out| {
        assert (out + t4)[k] == out[k];
      }
    }
    NoBuddiesAppend(out + t4, t6, V6, l6);
  }

  /** The tail of family `f` is split minimally and starts at `last`. */
  lemma TailFrom(m: Mark, f: Family)
    requires Last(m, f) < Pow2(Width(f))
    ensures NoBuddies(Tail(m, f))
    ensures forall k :: 0 <= k < |Tail(m, f)| ==> Tail(m, f)[k].fam == f && Last(m, f) <= Tail(m, f)[k].net
  {
    if Last(m, f) < Max(f) {
      SplitRange(f, Last(m, f), Max(f), 0);
    }
  }

  /** What the loop leaves satisfies what the tails need. */
  lemma MarkOk(items: seq<Subnet>)
    requires StrictlySorted(items) && AllWellFormed(items) && GapFold(items).Some?
    ensures forall g :: Last(GapFold(items).value, g) < Pow2(Width(g))
    ensures OutOk(GapFold(items).value.out)
    ensures forall k :: 0 <= k < |GapFold(items).value.out| ==>
      End(GapFold(items).value.out[k]) <= Last(GapFold(items).value, GapFold(items).value.out[k].fam)
    ensures FamInv(GapFold(items).value, items, V4) && FamInv(GapFold(items).value, items, V6)
  {
    GapFoldInv(items);
    var m := GapFold(items).value;
    forall k | 0 <= k < |m.out| ensures End(m.out[k]) <= Last(m, m.out[k].fam) {
      if m.out[k].fam == V4 {
        assert FamInv(m, items, V4);
      } else {
        assert FamInv(m, items, V6);
      }
    }
  }

  lemma GapShape(items: seq<Subnet>)
    requires StrictlySorted(items) && AllWellFormed(items) && Gap(items).Some?
    ensures OutOk(Gap(items).value)
    ensures forall k :: 0 <= k < |Gap(items).value| ==>
      End(Gap(items).value[k]) <= Pow2(Width(Gap(items).value[k].fam))
  {
    MarkOk(items);
    BlocksOk(GapFold(items).value);
  }

  lemma GapExact(items: seq<Subnet>, f: Family)
    requires StrictlySorted(items) && AllWellFormed(items) && Gap(items).Some?
    ensures forall a: nat :: a < Max(f) ==>
      (CoversAny(Gap(items).value, f, a) <==> !CoversAny(items, f, a))
    ensures !CoversAny(items, f, Max(f))
    ensures CoversAny(Gap(items).value, f, Max(f)) <==> !CoversAny(items, f, Max(f) - 1)
  {
    MarkOk(items);
    BlocksCoverage(GapFold(items).value, items, f);
  }

  /** No block of `gap()` overlaps an entry. */
  lemma GapDisjoint(items: seq<Subnet>)
    requires StrictlySorted(items) && AllWellFormed(items) && Gap(items).Some?
    ensures forall k, j :: 0 <= k < |Gap(items).value| && 0 <= j < |items| ==>
      Disjoint(Gap(items).value[k], items[j])
  {
    var g := Gap(items).value;
    forall k, j | 0 <= k < |g| && 0 <= j < |items| ensures Disjoint(g[k], items[j]) {
      GapCovers(items, items[j].fam);
      NoOverlap(g, items, k, j);
    }
  }

  lemma NoOverlap(g: seq<Subnet>, items: seq<Subnet>, k: nat, j: nat)
    requires k < |g| && j < |items| && WellFormed(items[j])
    requires forall a: nat :: a < Max(items[j].fam) ==>
      (CoversAny(g, items[j].fam, a) <==> !CoversAny(items, items[j].fam, a))
    requires !CoversAny(items, items[j].fam, Max(items[j].fam))
    ensures Disjoint(g[k], items[j])
  {
    var b, s := g[k], items[j];
    if !Disjoint(b, s) {
      var f := s.fam;
      var a := if b.net < s.net then s.net else b.net;
      assert Covers(b, f, a) && Covers(s, f, a);
      EndBound(s);
      MaxIsTop(f);
      assert CoversAny(items, f, a);
      assert CoversAny(g, f, a);
    }
  }

  /** An untouched family contributes its whole space as one `/0`. */
  lemma TailFull(m: Mark, f: Family)
    requires Last(m, f) == 0
    ensures Tail(m, f) == [Subnet(f, 0, 0, 0)]
  {
    SplitFull(f, 0);
  }

  /** With no entries, `gap()` is the whole of both spaces:
      `{0.0.0.0/0, ::/0}`. */
  lemma GapEmpty()
    ensures Gap([]) == Some([Subnet(V4, 0, 0, 0), Subnet(V6, 0, 0, 0)])
  {
    var m := Mark(0, 0, []);
    GapNone();
    TailFull(m, V4);
    TailFull(m, V6);
    var x, y := Subnet(V4, 0, 0, 0), Subnet(V6, 0, 0, 0);
    assert Blocks(m) == [] + [x] + [y];
    assert [] + [x] + [y] == [x, y];
  }

  /** With no entries the loop marks nothing and leaves `last` at 0. */
  lemma GapNone()
    ensures forall g :: Last(Mark(0, 0, []), g) < Pow2(Width(g))
    ensures Gap([]) == Some(Blocks(Mark(0, 0, [])))
  {
    assert GapFold([]) == Some(Mark(0, 0, []));
  }

  /** The lone top address: after `255.255.255.254/32` the only address of
      IPv4 left uncovered above it, `255.255.255.255`, is not emitted. */
  lemma GapMissesTop()
    ensures var items := [Subnet(V4, Max(V4) - 1, 32, 0)];
      StrictlySorted(items) && AllWellFormed(items) && Gap(items).Some? &&
      !CoversAny(items, V4, Max(V4)) && !CoversAny(Gap(items).value, V4, Max(V4))
  {
    var items := [Subnet(V4, Max(V4) - 1, 32, 0)];
    assert Max(V4) == Pow2(32) - 1;
    assert Pow2(0) == 1;
    assert WellFormed(items[0]);
    assert !ReachesTop(items[0]);
    GapFoldFails(items);
    assert Covers(items[0], V4, Max(V4) - 1);
    GapCovers(items, V4);
  }
}
