/** The output loop of `main` (src/main.rs:31-59): with a requested prefix
    `p` for the entry's family and `mask < p <= width`, the entry is printed
    as the `2^(p - mask)` blocks of prefix `p` it consists of; otherwise as
    it is. Printing is left out: the loop produces the blocks it would print. */
module Expansion {
  import opened Bits
  import opened Subnets
  import opened RangeSplit
  import opened Aggregate
  import opened Wrappers

  /** The `i`-th block of prefix `p` inside `s`:
      `new(net + (i << (width - p)), p)`. */
  function Tile(s: Subnet, p: nat, i: nat): Subnet
    requires p <= Width(s.fam)
  {
    Subnet(s.fam, s.net + i * Pow2(Width(s.fam) - p), p, 0)
  }

  /** The loop applies to `s` with the requested prefix. */
  predicate Splits(s: Subnet, prefix: Option<u8>)
  {
    prefix.Some? && prefix.value <= Width(s.fam) && prefix.value > s.mask
  }

  /** `1 << (prefix - mask)` shifts by the full width (a `/0` entry expanded
      to the full prefix): a checked build panics. */
  predicate CountOverflows(s: Subnet, prefix: Option<u8>)
  {
    Splits(s, prefix) && prefix.value - s.mask == Width(s.fam)
  }

  /** What is printed for one entry. */
  function Expand(s: Subnet, prefix: Option<u8>): seq<Subnet>
    requires !CountOverflows(s, prefix)
  {
    if Splits(s, prefix) then
      seq(Pow2(prefix.value - s.mask), i requires 0 <= i => Tile(s, prefix.value, i))
    else [s]
  }

  /** The prefix requested for the entry's family. */
  function PrefixFor(s: Subnet, prefix4: Option<u8>, prefix6: Option<u8>): Option<u8>
  {
    if s.fam == V4 then prefix4 else prefix6
  }

  /** Everything the loop prints for `items`, or `None` when a count
      overflows. */
  function Output(items: seq<Subnet>, prefix4: Option<u8>, prefix6: Option<u8>): Option<seq<Subnet>>
    decreases |items|
  {
    if items == [] then Some([])
    else
      var s := items[|items| - 1];
      var prefix := PrefixFor(s, prefix4, prefix6);
      match Output(items[..|items| - 1], prefix4, prefix6)
      case None => None
      case Some(out) => if CountOverflows(s, prefix) then None else Some(out + Expand(s, prefix))
  }

  lemma OffsetCore(net: nat, i: nat, u: nat, c: nat)
    requires u > 0 && i < c && net % u == 0
    ensures net + i * u + u <= net + c * u && (net + i * u) % u == 0
  {
    MulLe(i + 1, c, u);
    var a := net / u;
    assert net == a * u + net % u;
    assert net + i * u == (a + i) * u;
    DivModUnique(net + i * u, u, a + i, 0);
  }

  /** The `i`-th block lies inside `s`, is canonical, and ends where the
      next begins. */
  lemma TileFacts(s: Subnet, p: nat, i: nat)
    requires WellFormed(s) && s.mask < p <= Width(s.fam) && i < Pow2(p - s.mask)
    ensures WellFormed(Tile(s, p, i)) && s.net <= Tile(s, p, i).net
    ensures End(Tile(s, p, i)) == s.net + i * Pow2(Width(s.fam) - p) + Pow2(Width(s.fam) - p) <= End(s)
  {
    var w := Width(s.fam);
    var u := Pow2(w - p);
    assert HostBits(Tile(s, p, i)) == w - p;
    Pow2Add(p - s.mask, w - p);
    assert w - s.mask == (p - s.mask) + (w - p);
    assert Size(s) == Pow2(p - s.mask) * u;
    AlignedWeaken(s.net, w - s.mask, w - p);
    OffsetCore(s.net, i, u, Pow2(p - s.mask));
    EndBound(s);
  }

  /** An address of `s` lies in the tile of index `(a - net) / 2^(width - p)`. */
  lemma TileOf(s: Subnet, p: nat, a: nat) returns (i: nat)
    requires WellFormed(s) && s.mask < p <= Width(s.fam) && s.net <= a < End(s)
    ensures i < Pow2(p - s.mask) && Covers(Tile(s, p, i), s.fam, a)
  {
    var w := Width(s.fam);
    var u := Pow2(w - p);
    i := (a - s.net) / u;
    assert (a - s.net) == i * u + (a - s.net) % u;
    Pow2Add(p - s.mask, w - p);
    assert w - s.mask == (p - s.mask) + (w - p);
    assert i * u < Pow2(p - s.mask) * u;
    MulLtInv(i, Pow2(p - s.mask), u);
    assert HostBits(Tile(s, p, i)) == w - p;
  }

  /** The blocks printed for a canonical entry are canonical, in increasing
      order and together cover exactly the entry's addresses; the `i`-th
      starts `i` blocks of prefix `p` above the entry's network address. */
  lemma ExpandTiles(s: Subnet, prefix: Option<u8>)
    requires WellFormed(s) && s.tag == 0 && !CountOverflows(s, prefix)
    ensures Tiles(Expand(s, prefix), s.fam, s.net, End(s), 0)
    ensures forall j, k :: 0 <= j < k < |Expand(s, prefix)| ==>
      End(Expand(s, prefix)[j]) <= Expand(s, prefix)[k].net
    ensures Splits(s, prefix) ==> (|Expand(s, prefix)| == Pow2(prefix.value - s.mask) &&
      forall i :: 0 <= i < |Expand(s, prefix)| ==>
        Expand(s, prefix)[i] == Subnet(s.fam, s.net + i * Pow2(Width(s.fam) - prefix.value), prefix.value, 0))
    ensures !Splits(s, prefix) ==> Expand(s, prefix) == [s]
  {
    if Splits(s, prefix) {
      ExpandSplit(s, prefix);
    } else {
      ExpandWhole(s, prefix);
    }
  }

  lemma ExpandSplit(s: Subnet, prefix: Option<u8>)
    requires WellFormed(s) && s.tag == 0 && !CountOverflows(s, prefix) && Splits(s, prefix)
    ensures Tiles(Expand(s, prefix), s.fam, s.net, End(s), 0)
    ensures forall j, k :: 0 <= j < k < |Expand(s, prefix)| ==>
      End(Expand(s, prefix)[j]) <= Expand(s, prefix)[k].net
    ensures |Expand(s, prefix)| == Pow2(prefix.value - s.mask)
    ensures forall i :: 0 <= i < |Expand(s, prefix)| ==>
      Expand(s, prefix)[i] == Subnet(s.fam, s.net + i * Pow2(Width(s.fam) - prefix.value), prefix.value, 0)
  {
    SplitTilesAll(s, prefix.value);
  }

  /** An entry that is not split is printed as the one block it is. */
  lemma ExpandWhole(s: Subnet, prefix: Option<u8>)
    requires WellFormed(s) && s.tag == 0 && !Splits(s, prefix)
    ensures Expand(s, prefix) == [s]
    ensures Tiles(Expand(s, prefix), s.fam, s.net, End(s), 0)
  {
    var e := Expand(s, prefix);
    assert e == [s];
    EndBound(s);
    forall a: nat ensures CoversAny(e, s.fam, a) <==> s.net <= a < End(s) {
      if s.net <= a < End(s) {
        assert Covers(e[0], s.fam, a);
      }
    }
  }

  lemma SplitTilesAll(s: Subnet, p: nat)
    requires WellFormed(s) && s.tag == 0 && s.mask < p <= Width(s.fam) && p - s.mask < Width(s.fam)
    ensures var e := seq(Pow2(p - s.mask), i requires 0 <= i => Tile(s, p, i));
      Tiles(e, s.fam, s.net, End(s), 0) &&
      forall j, k :: 0 <= j < k < |e| ==> End(e[j]) <= e[k].net
  {
    var e := seq(Pow2(p - s.mask), i requires 0 <= i => Tile(s, p, i));
    TileSeqOrder(s, p, e);
    TileSeqCovers(s, p, e);
  }

  /** The tiles are canonical, inside `s` and in increasing order. */
  lemma TileSeqOrder(s: Subnet, p: nat, e: seq<Subnet>)
    requires WellFormed(s) && s.mask < p <= Width(s.fam)
    requires |e| == Pow2(p - s.mask) && forall i :: 0 <= i < |e| ==> e[i] == Tile(s, p, i)
    ensures forall j :: 0 <= j < |e| ==>
      WellFormed(e[j]) && e[j].fam == s.fam && e[j].tag == 0 && s.net <= e[j].net && End(e[j]) <= End(s)
    ensures forall j, k :: 0 <= j < k < |e| ==> End(e[j]) <= e[k].net
    ensures PairwiseDisjoint(e)
  {
    var u := Pow2(Width(s.fam) - p);
    forall i | 0 <= i < |e|
      ensures WellFormed(e[i]) && e[i].fam == s.fam && e[i].tag == 0 && s.net <= e[i].net && End(e[i]) <= End(s)
    {
      TileFacts(s, p, i);
    }
    TileSeqIncreasing(s, p, e);
  }

  lemma TileSeqIncreasing(s: Subnet, p: nat, e: seq<Subnet>)
    requires WellFormed(s) && s.mask < p <= Width(s.fam)
    requires |e| == Pow2(p - s.mask) && forall i :: 0 <= i < |e| ==> e[i] == Tile(s, p, i)
    ensures forall j, k :: 0 <= j < k < |e| ==> End(e[j]) <= e[k].net
    ensures PairwiseDisjoint(e)
  {
    forall j, k | 0 <= j < k < |e| ensures End(e[j]) <= e[k].net {
      TileBefore(s, p, j, k);
    }
  }

  lemma TileBefore(s: Subnet, p: nat, j: nat, k: nat)
    requires WellFormed(s) && s.mask < p <= Width(s.fam) && j < k < Pow2(p - s.mask)
    ensures End(Tile(s, p, j)) <= Tile(s, p, k).net
  {
    var u := Pow2(Width(s.fam) - p);
    TileFacts(s, p, j);
    MulLe(j + 1, k, u);
    assert (j + 1) * u == j * u + u;
  }

  /** Together the tiles cover exactly the addresses of `s`. */
  lemma TileSeqCovers(s: Subnet, p: nat, e: seq<Subnet>)
    requires WellFormed(s) && s.mask < p <= Width(s.fam)
    requires |e| == Pow2(p - s.mask) && forall i :: 0 <= i < |e| ==> e[i] == Tile(s, p, i)
    ensures forall a: nat :: CoversAny(e, s.fam, a) <==> s.net <= a < End(s)
  {
    forall a: nat ensures CoversAny(e, s.fam, a) <==> s.net <= a < End(s) {
      if s.net <= a < End(s) {
        var i := TileOf(s, p, a);
        assert Covers(e[i], s.fam, a);
      }
      if CoversAny(e, s.fam, a) {
        var j :| 0 <= j < |e| && Covers(e[j], s.fam, a);
        TileFacts(s, p, j);
      }
    }
  }

  /** A printed block covers an address exactly when the entry does. */
  lemma ExpandCovers(s: Subnet, prefix: Option<u8>, f: Family, a: nat)
    requires WellFormed(s) && s.tag == 0 && !CountOverflows(s, prefix)
    ensures CoversAny(Expand(s, prefix), f, a) <==> Covers(s, f, a)
    ensures AllWellFormed(Expand(s, prefix))
    ensures forall x :: x in Expand(s, prefix) ==> x.tag == 0
  {
    ExpandTiles(s, prefix);
    var e := Expand(s, prefix);
    if CoversAny(e, f, a) {
      var j :| 0 <= j < |e| && Covers(e[j], f, a);
      assert e[j].fam == s.fam;
    }
  }

  /** When no count overflows, the loop prints canonical blocks with tag 0
      that cover exactly the addresses of the list; it overflows exactly
      when some entry's count does. */
  lemma {:induction false} OutputCovers(items: seq<Subnet>, prefix4: Option<u8>, prefix6: Option<u8>)
    requires AllWellFormed(items) && forall x :: x in items ==> x.tag == 0
    ensures Output(items, prefix4, prefix6).None? <==>
      exists j :: 0 <= j < |items| && CountOverflows(items[j], PrefixFor(items[j], prefix4, prefix6))
    ensures Output(items, prefix4, prefix6).Some? ==>
      var out := Output(items, prefix4, prefix6).value;
      AllWellFormed(out) && (forall x :: x in out ==> x.tag == 0) &&
      forall f, a: nat :: CoversAny(out, f, a) <==> CoversAny(items, f, a)
    decreases |items|
  {
    if items != [] {
      var n := |items| - 1;
      var init, s := items[..n], items[n];
      assert items == init + [s];
      assert forall x :: x in init ==> x in items;
      OutputCovers(init, prefix4, prefix6);
      var prefix := PrefixFor(s, prefix4, prefix6);
      if Output(items, prefix4, prefix6).Some? {
        var out := Output(init, prefix4, prefix6).value;
        assert Output(items, prefix4, prefix6).value == out + Expand(s, prefix);
        AppendCovers(out, init, s, prefix);
      } else if Output(init, prefix4, prefix6).Some? {
        assert CountOverflows(items[n], PrefixFor(items[n], prefix4, prefix6));
      } else {
        var j :| 0 <= j < |init| && CountOverflows(init[j], PrefixFor(init[j], prefix4, prefix6));
        assert items[j] == init[j];
      }
    }
  }

  /** Appending what is printed for `s` to the output for `init` gives the
      output for `init + [s]`. */
  lemma AppendCovers(out: seq<Subnet>, init: seq<Subnet>, s: Subnet, prefix: Option<u8>)
    requires WellFormed(s) && s.tag == 0 && !CountOverflows(s, prefix)
    requires AllWellFormed(out) && (forall x :: x in out ==> x.tag == 0)
    requires forall f, a: nat :: CoversAny(out, f, a) <==> CoversAny(init, f, a)
    ensures var o := out + Expand(s, prefix);
      AllWellFormed(o) && (forall x :: x in o ==> x.tag == 0) &&
      forall f, a: nat :: CoversAny(o, f, a) <==> CoversAny(init + [s], f, a)
  {
    var e := Expand(s, prefix);
    forall f, a: nat ensures CoversAny(out + e, f, a) <==> CoversAny(init + [s], f, a) {
      CoversAnyConcat(out, e, f, a);
      CoversAnyConcat(init, [s], f, a);
      CoversOne(s, f, a);
      ExpandCovers(s, prefix, f, a);
    }
    ExpandCovers(s, prefix, s.fam, 0);
  }

  /** The loop of `main`: for each entry in order, either the blocks of the
      requested prefix counted up from the entry's network address, or the
      entry itself; `None` where the count `1 << (prefix - mask)` overflows. */
  method Emit(items: seq<Subnet>, prefix4: Option<u8>, prefix6: Option<u8>) returns (r: Option<seq<Subnet>>)
    ensures r == Output(items, prefix4, prefix6)
  {
    var out := [];
    for k := 0 to |items|
      invariant Output(items[..k], prefix4, prefix6) == Some(out)
    {
      var s := items[k];
      OutputNext(items, k, prefix4, prefix6);
      var prefix := PrefixFor(s, prefix4, prefix6);
      if Splits(s, prefix) {
        var p := prefix.value;
        if p - s.mask == Width(s.fam) {
          OutputStops(items, prefix4, prefix6, k + 1);
          return None;
        }
        var count := Pow2(p - s.mask);
        ghost var before := out;
        for i := 0 to count
          invariant out == before + seq(i, j requires 0 <= j => Tile(s, p, j))
        {
          TileSnoc(s, p, i);
          out := out + [Tile(s, p, i)];
        }
        assert out == before + Expand(s, prefix);
      } else {
        out := out + [s];
      }
    }
    assert items[..|items|] == items;
    r := Some(out);
  }

  /** The output for one more entry. */
  lemma OutputNext(items: seq<Subnet>, k: nat, prefix4: Option<u8>, prefix6: Option<u8>)
    requires k < |items|
    ensures var s := items[k]; var prefix := PrefixFor(s, prefix4, prefix6);
      Output(items[..k + 1], prefix4, prefix6) ==
        match Output(items[..k], prefix4, prefix6)
        case None => None
        case Some(out) => if CountOverflows(s, prefix) then None else Some(out + Expand(s, prefix))
  {
    assert items[..k + 1][..k] == items[..k];
  }

  /** One more tile at the end of the count. */
  lemma TileSnoc(s: Subnet, p: nat, i: nat)
    requires p <= Width(s.fam)
    ensures seq(i + 1, j requires 0 <= j => Tile(s, p, j)) ==
      seq(i, j requires 0 <= j => Tile(s, p, j)) + [Tile(s, p, i)]
  {
  }

  /** Once the output stops, it stays stopped. */
  lemma {:induction false} OutputStops(items: seq<Subnet>, prefix4: Option<u8>, prefix6: Option<u8>, k: nat)
    requires k <= |items| && Output(items[..k], prefix4, prefix6).None?
    ensures Output(items, prefix4, prefix6).None?
    decreases |items| - k
  {
    if k < |items| {
      assert items[..k + 1][..k] == items[..k];
      OutputStops(items, prefix4, prefix6, k + 1);
    } else {
      assert items[..k] == items;
    }
  }
}
