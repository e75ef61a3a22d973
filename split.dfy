/** The range splitter `parse_ipv4_range` / `parse_ipv6_range`
    (src/main.rs:98-142), as a function producing the blocks in the order
    the loop inserts them. At prefix length `mask` the pair (from, upto) are
    block indices: index `i` stands for the block of `2^(width - mask)`
    addresses starting at `i * 2^(width - mask)`. */
module RangeSplit {
  import opened Bits
  import opened Subnets

  /** The block of index `i` at prefix length `mask`: `new(i << (width - mask), mask)`
      with the tag applied. */
  function Block(f: Family, i: nat, mask: nat, tag: u8): Subnet
    requires mask <= Width(f)
  {
    Subnet(f, i * Pow2(Width(f) - mask), mask, tag)
  }

  /** One turn of the outer `while from <= upto` loop at prefix length `mask`:
      emit the single pair `from == upto`, or peel an odd `from` and an even
      `upto` and halve. (When `from == upto == 0` at mask 0 the source skips the
      shift by the full width; the block index times one block is the same
      value.) */
  function Split(f: Family, from: nat, upto: nat, mask: nat, tag: u8): seq<Subnet>
    requires mask <= Width(f) && upto < Pow2(mask)
    decreases upto, 1
  {
    if from > upto then []
    else if from == upto then [Block(f, from, mask, tag)]
    else
      var lo := if from % 2 == 1 then [Block(f, from, mask, tag)] else [];
      var from1 := if from % 2 == 1 then from + 1 else from;
      var hi := if upto % 2 == 0 then [Block(f, upto, mask, tag)] else [];
      var upto1 := if upto % 2 == 0 then upto - 1 else upto;
      lo + hi + Halve(f, from1, upto1, mask, tag)
  }

  /** The inner `while from & 1 == 0 && upto & 1 == 1` loop: shift both
      bounds right and shorten the prefix until the parities change, then
      resume the outer loop. */
  function Halve(f: Family, from: nat, upto: nat, mask: nat, tag: u8): seq<Subnet>
    requires mask <= Width(f) && upto < Pow2(mask)
    requires from % 2 == 0 && upto % 2 == 1
    decreases upto, 0
  {
    HalfBelow(upto, mask);
    var from', upto', mask' := from / 2, upto / 2, mask - 1;
    if from' % 2 == 0 && upto' % 2 == 1 then Halve(f, from', upto', mask', tag)
    else Split(f, from', upto', mask', tag)
  }

  /** The blocks `bs` are canonical, of family `f`, carry `tag`, are
      pairwise disjoint, and together cover exactly the addresses
      `lo <= a < hi`. */
  ghost predicate Tiles(bs: seq<Subnet>, f: Family, lo: nat, hi: nat, tag: u8)
  {
    (forall j :: 0 <= j < |bs| ==>
       WellFormed(bs[j]) && bs[j].fam == f && bs[j].tag == tag && lo <= bs[j].net && End(bs[j]) <= hi) &&
    PairwiseDisjoint(bs) &&
    (forall a: nat :: CoversAny(bs, f, a) <==> lo <= a < hi)
  }

  lemma TilesEmpty(f: Family, lo: nat, tag: u8)
    ensures Tiles([], f, lo, lo, tag)
  {
  }

  lemma TilesBlock(f: Family, i: nat, mask: nat, tag: u8)
    requires mask <= Width(f) && i < Pow2(mask)
    ensures Tiles([Block(f, i, mask, tag)], f, i * Pow2(Width(f) - mask), (i + 1) * Pow2(Width(f) - mask), tag)
  {
    var s := Pow2(Width(f) - mask);
    var b := Block(f, i, mask, tag);
    assert HostBits(b) == Width(f) - mask;
    AlignedMul(i, Width(f) - mask);
    Pow2Add(mask, Width(f) - mask);
    MulLe(i + 1, Pow2(mask), s);
    assert End(b) == (i + 1) * s;
    forall a: nat ensures CoversAny([b], f, a) <==> i * s <= a < (i + 1) * s {
      if i * s <= a < (i + 1) * s {
        assert Covers([b][0], f, a);
      }
    }
  }

  lemma TilesConcat(x: seq<Subnet>, y: seq<Subnet>, f: Family, lo: nat, mid: nat, hi: nat, tag: u8)
    requires lo <= mid <= hi
    requires Tiles(x, f, lo, mid, tag) && Tiles(y, f, mid, hi, tag)
    ensures Tiles(x + y, f, lo, hi, tag) && Tiles(y + x, f, lo, hi, tag)
  {
    forall a: nat ensures CoversAny(x + y, f, a) <==> lo <= a < hi {
      CoversAnyConcat(x, y, f, a);
    }
    forall a: nat ensures CoversAny(y + x, f, a) <==> lo <= a < hi {
      CoversAnyConcat(y, x, f, a);
    }
  }

  lemma Rescale(x: nat, s: nat)
    ensures x % 2 == 0 ==> (x / 2) * (2 * s) == x * s
    ensures x % 2 == 1 ==> (x / 2 + 1) * (2 * s) == (x + 1) * s
  {
    if x % 2 == 0 {
      assert (x / 2) * (2 * s) == ((x / 2) * 2) * s;
    } else {
      assert (x / 2 + 1) * (2 * s) == ((x / 2 + 1) * 2) * s;
    }
  }

  /** The range splitter's output for indices `from..upto` at prefix `mask`
      tiles exactly the addresses of those blocks. */
  lemma {:induction false} SplitTiles(f: Family, from: nat, upto: nat, mask: nat, tag: u8)
    requires mask <= Width(f) && upto < Pow2(mask) && from <= upto + 1
    ensures Tiles(Split(f, from, upto, mask, tag), f,
                  from * Pow2(Width(f) - mask), (upto + 1) * Pow2(Width(f) - mask), tag)
    decreases upto, 2
  {
    if from > upto {
      TilesEmpty(f, from * Pow2(Width(f) - mask), tag);
    } else if from == upto {
      TilesBlock(f, from, mask, tag);
    } else {
      PeelTiles(f, from, upto, mask, tag);
    }
  }

  /** The peeling step: the low block, the high block and the halved rest
      are three adjacent tilings. */
  lemma {:induction false} PeelTiles(f: Family, from: nat, upto: nat, mask: nat, tag: u8)
    requires mask <= Width(f) && upto < Pow2(mask) && from < upto
    ensures Tiles(Split(f, from, upto, mask, tag), f,
                  from * Pow2(Width(f) - mask), (upto + 1) * Pow2(Width(f) - mask), tag)
    decreases upto, 1
  {
    var from1 := if from % 2 == 1 then from + 1 else from;
    var upto1 := if upto % 2 == 0 then upto - 1 else upto;
    HalveTiles(f, from1, upto1, mask, tag);
    PeelEnds(f, from, upto, mask, tag, from1, upto1);
  }

  /** The block peeled off an odd lower index, if any. */
  function PeelLow(f: Family, from: nat, mask: nat, tag: u8): (r: seq<Subnet>)
    requires mask <= Width(f) && from < Pow2(mask)
    ensures |r| <= 1
  {
    if from % 2 == 1 then [Block(f, from, mask, tag)] else []
  }

  /** The block peeled off an even upper index, if any. */
  function PeelHigh(f: Family, upto: nat, mask: nat, tag: u8): (r: seq<Subnet>)
    requires mask <= Width(f) && upto < Pow2(mask)
    ensures |r| <= 1
  {
    if upto % 2 == 0 then [Block(f, upto, mask, tag)] else []
  }

  /** The two peeled blocks around a tiling of the halved rest tile the
      whole range. */
  lemma PeelEnds(f: Family, from: nat, upto: nat, mask: nat, tag: u8, from1: nat, upto1: nat)
    requires mask <= Width(f) && upto < Pow2(mask) && from < upto
    requires from1 == (if from % 2 == 1 then from + 1 else from)
    requires upto1 == (if upto % 2 == 0 then upto - 1 else upto)
    requires from1 % 2 == 0 && upto1 % 2 == 1 && upto1 < Pow2(mask)
    requires Tiles(Halve(f, from1, upto1, mask, tag), f, Scale(f, mask, from1), Scale(f, mask, upto1 + 1), tag)
    ensures Tiles(Split(f, from, upto, mask, tag), f, Scale(f, mask, from), Scale(f, mask, upto + 1), tag)
  {
    var lo, hi, rest := PeelLow(f, from, mask, tag), PeelHigh(f, upto, mask, tag), Halve(f, from1, upto1, mask, tag);
    SplitPeel(f, from, upto, mask, tag);
    var a, b := LowEnd(f, from, mask, tag);
    var c, d := HighEnd(f, upto, mask, tag);
    MulLe(from1, upto1 + 1, Pow2(Width(f) - mask));
    assert b <= c;
    Combine(f, lo, hi, rest, a, b, c, d, tag);
    TilesSame(lo + hi + rest, Split(f, from, upto, mask, tag), f, a, d, tag);
  }

  /** One turn of the outer loop: the odd lower index and the even upper
      index are peeled and the rest is halved. */
  lemma SplitPeel(f: Family, lo: nat, hi: nat, mask: nat, t: u8)
    requires mask <= Width(f) && hi < Pow2(mask) && lo < hi
    ensures var lo', hi' := (if lo % 2 == 1 then lo + 1 else lo), (if hi % 2 == 0 then hi - 1 else hi);
      lo' % 2 == 0 && hi' % 2 == 1 && hi' < Pow2(mask) &&
      Split(f, lo, hi, mask, t) ==
        PeelLow(f, lo, mask, t) + PeelHigh(f, hi, mask, t) + Halve(f, lo', hi', mask, t)
  {
  }

  /** `Tiles` of equal block lists. */
  lemma TilesSame(bs: seq<Subnet>, cs: seq<Subnet>, f: Family, lo: nat, hi: nat, tag: u8)
    requires Tiles(bs, f, lo, hi, tag) && bs == cs
    ensures Tiles(cs, f, lo, hi, tag)
  {
  }

  /** The first address of index `i` at prefix `mask`. */
  function Scale(f: Family, mask: nat, i: nat): nat
    requires mask <= Width(f)
  {
    i * Pow2(Width(f) - mask)
  }

  /** The block peeled off an odd lower index, if any, tiles from `from`
      to the even index above it; `a` and `b` are those bounds scaled. */
  lemma LowEnd(f: Family, from: nat, mask: nat, tag: u8) returns (a: nat, b: nat)
    requires mask <= Width(f) && from < Pow2(mask)
    ensures a == Scale(f, mask, from) && b == Scale(f, mask, if from % 2 == 1 then from + 1 else from)
    ensures a <= b && Tiles(PeelLow(f, from, mask, tag), f, a, b, tag)
  {
    var s := Pow2(Width(f) - mask);
    a := from * s;
    if from % 2 == 1 {
      b := (from + 1) * s;
      TilesBlock(f, from, mask, tag);
      MulLe(from, from + 1, s);
    } else {
      b := a;
      TilesEmpty(f, a, tag);
    }
  }

  /** The block peeled off an even upper index, if any, tiles from the odd
      index below it to `upto`; `c` and `d` are those bounds scaled, past
      the end. */
  lemma HighEnd(f: Family, upto: nat, mask: nat, tag: u8) returns (c: nat, d: nat)
    requires mask <= Width(f) && 0 < upto < Pow2(mask)
    ensures c == Scale(f, mask, (if upto % 2 == 0 then upto - 1 else upto) + 1)
    ensures d == Scale(f, mask, upto + 1)
    ensures c <= d && Tiles(PeelHigh(f, upto, mask, tag), f, c, d, tag)
  {
    var s := Pow2(Width(f) - mask);
    d := (upto + 1) * s;
    if upto % 2 == 0 {
      c := upto * s;
      TilesBlock(f, upto, mask, tag);
    } else {
      c := d;
      TilesEmpty(f, d, tag);
    }
  }

  /** Three tilings of the consecutive ranges `[a, b)`, `[b, c)` and
      `[c, d)`. */
  ghost predicate Adjacent(lo: seq<Subnet>, rest: seq<Subnet>, hi: seq<Subnet>, f: Family,
                           a: nat, b: nat, c: nat, d: nat, tag: u8)
  {
    a <= b <= c <= d &&
    Tiles(lo, f, a, b, tag) && Tiles(rest, f, b, c, tag) && Tiles(hi, f, c, d, tag)
  }

  lemma Combine(f: Family, lo: seq<Subnet>, hi: seq<Subnet>, rest: seq<Subnet>,
                a: nat, b: nat, c: nat, d: nat, tag: u8)
    requires Adjacent(lo, rest, hi, f, a, b, c, d, tag)
    ensures Tiles(lo + hi + rest, f, a, d, tag)
  {
    TilesConcat(rest, hi, f, b, c, d, tag);
    TilesConcat(lo, hi + rest, f, a, b, d, tag);
    assert lo + hi + rest == lo + (hi + rest);
  }

  lemma {:induction false} HalveTiles(f: Family, from: nat, upto: nat, mask: nat, tag: u8)
    requires mask <= Width(f) && upto < Pow2(mask) && from <= upto + 1
    requires from % 2 == 0 && upto % 2 == 1
    ensures Tiles(Halve(f, from, upto, mask, tag), f,
                  from * Pow2(Width(f) - mask), (upto + 1) * Pow2(Width(f) - mask), tag)
    decreases upto, 0
  {
    HalfBelow(upto, mask);
    var from', upto', mask' := from / 2, upto / 2, mask - 1;
    var s := Pow2(Width(f) - mask);
    assert Pow2(Width(f) - mask') == 2 * s;
    Rescale(from, s);
    Rescale(upto, s);
    if from' % 2 == 0 && upto' % 2 == 1 {
      HalveTiles(f, from', upto', mask', tag);
    } else {
      SplitTiles(f, from', upto', mask', tag);
    }
  }

  /** Splitting the whole index range of `k` bits gives the single block of
      prefix length `mask - k` at index 0 (in particular the full address
      space gives one `/0` block). */
  lemma {:induction false} HalveFull(f: Family, k: nat, mask: nat, tag: u8)
    requires 1 <= k <= mask <= Width(f)
    ensures var top := Pow2(k) - 1;
      top < Pow2(mask) && top % 2 == 1 && Halve(f, 0, top, mask, tag) == [Block(f, 0, mask - k, tag)]
    decreases k
  {
    Pow2Le(k, mask);
    var upto' := (Pow2(k) - 1) / 2;
    assert upto' == Pow2(k - 1) - 1;
    if k > 1 {
      Pow2Le(1, k - 1);
      HalveFull(f, k - 1, mask - 1, tag);
    }
  }

  lemma SplitFull(f: Family, tag: u8)
    ensures 0 < Max(f)
    ensures Split(f, 0, Max(f), Width(f), tag) == [Subnet(f, 0, 0, tag)]
  {
    var top := Max(f);
    MaxIsTop(f);
    HalveFull(f, Width(f), Width(f), tag);
    assert top % 2 == 1;
    SplitPeel(f, 0, top, Width(f), tag);
    NothingPeeled(f, 0, top, Width(f), tag);
  }

  /** An even lower and an odd upper index peel nothing. */
  lemma NothingPeeled(f: Family, lo: nat, hi: nat, mask: nat, t: u8)
    requires mask <= Width(f) && lo < Pow2(mask) && hi < Pow2(mask) && lo % 2 == 0 && hi % 2 == 1
    ensures PeelLow(f, lo, mask, t) == [] && PeelHigh(f, hi, mask, t) == []
  {
  }

  /** `parse_ipv4_range(v, from, upto, tag)` on addresses: for `from <= upto`
      the blocks tile exactly `[from, upto]` (canonical, disjoint, tagged);
      for `from > upto` nothing is inserted. */
  lemma SplitRange(f: Family, from: nat, upto: nat, tag: u8)
    requires upto < Pow2(Width(f))
    ensures from <= upto ==> Tiles(Split(f, from, upto, Width(f), tag), f, from, upto + 1, tag)
    ensures from > upto ==> Split(f, from, upto, Width(f), tag) == []
    ensures NoBuddies(Split(f, from, upto, Width(f), tag))
  {
    SplitNoBuddies(f, from, upto, Width(f), tag);
    if from <= upto {
      SplitTiles(f, from, upto, Width(f), tag);
      assert Pow2(Width(f) - Width(f)) == 1;
    }
  }

  /** Every block has a prefix of at most `mask` bits. */
  predicate MasksAtMost(bs: seq<Subnet>, mask: nat)
  {
    forall j :: 0 <= j < |bs| ==> bs[j].mask <= mask
  }

  /** The splitter never emits both halves of a block: the blocks of one
      loop level have that level's prefix, the two peeled there are an odd
      (upper-half) index and an even index above it, and deeper levels have
      shorter prefixes. */
  lemma {:induction false} SplitNoBuddies(f: Family, from: nat, upto: nat, mask: nat, tag: u8)
    requires mask <= Width(f) && upto < Pow2(mask)
    ensures MasksAtMost(Split(f, from, upto, mask, tag), mask)
    ensures NoBuddies(Split(f, from, upto, mask, tag))
    decreases upto, 2
  {
    if from == upto {
      NotOwnBuddy(Block(f, from, mask, tag));
    } else if from < upto {
      var from1 := if from % 2 == 1 then from + 1 else from;
      var upto1 := if upto % 2 == 0 then upto - 1 else upto;
      SplitPeel(f, from, upto, mask, tag);
      HalveNoBuddies(f, from1, upto1, mask, tag);
      PeelNoBuddies(f, from, upto, mask, tag);
      NoBuddiesMasks(PeelLow(f, from, mask, tag) + PeelHigh(f, upto, mask, tag), Halve(f, from1, upto1, mask, tag), mask);
    }
  }

  lemma {:induction false} HalveNoBuddies(f: Family, from: nat, upto: nat, mask: nat, tag: u8)
    requires mask <= Width(f) && upto < Pow2(mask)
    requires from % 2 == 0 && upto % 2 == 1
    ensures mask >= 1 && MasksAtMost(Halve(f, from, upto, mask, tag), mask - 1)
    ensures NoBuddies(Halve(f, from, upto, mask, tag))
    decreases upto, 1
  {
    HalfBelow(upto, mask);
    if (from / 2) % 2 == 0 && (upto / 2) % 2 == 1 {
      HalveNoBuddies(f, from / 2, upto / 2, mask - 1, tag);
    } else {
      SplitNoBuddies(f, from / 2, upto / 2, mask - 1, tag);
    }
  }

  /** The two peeled blocks of one level have that level's prefix and are
      not the two halves of one block. */
  lemma PeelNoBuddies(f: Family, from: nat, upto: nat, mask: nat, tag: u8)
    requires mask <= Width(f) && upto < Pow2(mask) && from < upto
    ensures forall k :: 0 <= k < |PeelLow(f, from, mask, tag) + PeelHigh(f, upto, mask, tag)| ==>
      (PeelLow(f, from, mask, tag) + PeelHigh(f, upto, mask, tag))[k].mask == mask
    ensures NoBuddies(PeelLow(f, from, mask, tag) + PeelHigh(f, upto, mask, tag))
  {
    var lo, hi := Block(f, from, mask, tag), Block(f, upto, mask, tag);
    NotOwnBuddy(lo);
    NotOwnBuddy(hi);
    if from % 2 == 1 {
      OddNotLower(f, from, mask, tag);
    }
    MulLe(from, upto, Pow2(Width(f) - mask));
    assert End(hi) == hi.net + Size(hi);
  }

  /** A block of odd index is the upper half of its parent, never the
      lower half. */
  lemma OddNotLower(f: Family, i: nat, mask: nat, tag: u8)
    requires mask <= Width(f) && i % 2 == 1
    ensures !Aligned(Block(f, i, mask, tag).net, HostBits(Block(f, i, mask, tag)) + 1)
  {
    var k := Width(f) - mask;
    assert HostBits(Block(f, i, mask, tag)) == k;
    AlignedMul(i, k);
    EvenIndex(i * Pow2(k), k);
  }
}
