/** The `Subnet` value of src/main.rs: an address family, a network
    address, a prefix length ("mask") and a provenance tag. The program
    keeps the address in a `Result<u32, u128>` (`Ok` for IPv4, `Err` for
    IPv6); here the variant is the `fam` field and the address a natural
    number below `2^Width(fam)`. */
module Subnets {
  import opened Bits

  type u8 = x: int | 0 <= x < 256

  datatype Family = V4 | V6

  function Width(f: Family): nat
  {
    if f == V4 then 32 else 128
  }

  /** Position of the family in the derived order: `Ok(_) < Err(_)`. */
  function Rank(f: Family): nat
  {
    if f == V4 then 0 else 1
  }

  /** The highest address of the family (`u32::MAX`, `u128::MAX`). */
  function Max(f: Family): (r: nat)
    ensures r >= 1
  {
    assert Pow2(Width(f)) == 2 * Pow2(Width(f) - 1);
    Pow2(Width(f)) - 1
  }

  lemma MaxIsTop(f: Family)
    ensures Max(f) == Pow2(Width(f)) - 1
  {
  }

  datatype Subnet = Subnet(fam: Family, net: nat, mask: u8, tag: u8)

  /** `new_v4` / `new_v6`: a subnet with tag 0. */
  function New(f: Family, net: nat, mask: u8): Subnet
  {
    Subnet(f, net, mask, 0)
  }

  /** Number of host bits of a block (its mask is at most the width in
      every subnet the model builds). */
  function HostBits(s: Subnet): nat
  {
    if s.mask <= Width(s.fam) then Width(s.fam) - s.mask else 0
  }

  function Size(s: Subnet): nat
  {
    Pow2(HostBits(s))
  }

  /** One past the last address of the block. */
  function End(s: Subnet): nat
  {
    s.net + Size(s)
  }

  /** A canonical block: the prefix fits the family, the address fits its
      width and its host bits are clear. */
  predicate WellFormed(s: Subnet)
  {
    s.mask <= Width(s.fam) && s.net < Pow2(Width(s.fam)) && Aligned(s.net, HostBits(s))
  }

  /** Address `a` of family `f` lies in block `s`. */
  predicate Covers(s: Subnet, f: Family, a: nat)
  {
    s.fam == f && s.net <= a < End(s)
  }

  /** The derived `Ord` of `Subnet`: lexicographic over (net, mask, tag),
      where `net` compares IPv4 before IPv6 and then numerically. */
  predicate Less(a: Subnet, b: Subnet)
  {
    Rank(a.fam) < Rank(b.fam) ||
    (a.fam == b.fam &&
      (a.net < b.net ||
        (a.net == b.net && (a.mask < b.mask || (a.mask == b.mask && a.tag < b.tag)))))
  }

  /** Block `a` lies wholly below block `b`: an earlier family, or the same
      family and `a` ends where `b` starts or earlier. */
  predicate Before(a: Subnet, b: Subnet)
  {
    Rank(a.fam) < Rank(b.fam) || (a.fam == b.fam && End(a) <= b.net)
  }

  predicate Disjoint(a: Subnet, b: Subnet)
  {
    a.fam != b.fam || End(a) <= b.net || End(b) <= a.net
  }

  /** `contains`: whether `a` covers `b`. A zero mask answers true at once,
      before the families are compared. */
  function Contains(a: Subnet, b: Subnet): bool
    requires a.mask <= Width(a.fam)
  {
    if a.mask > b.mask then false
    else if a.mask == 0 then true
    else if a.fam == b.fam then a.net == MaskDown(b.net, Width(a.fam) - a.mask)
    else false
  }

  /** `is_next`: `a` is the lower half of a pair whose upper half is `b`.
      The shift by `width - mask` would overflow for a zero mask of the
      same family; callers never reach that case, so it is required away. */
  function IsNext(a: Subnet, b: Subnet): bool
    requires a.mask <= Width(a.fam)
    requires a.mask == b.mask && a.fam == b.fam ==> a.mask > 0
  {
    if a.mask != b.mask then false
    else if a.fam != b.fam then false
    else
      var n := Width(a.fam) - a.mask;
      var v := a.net / Pow2(n);
      v % 2 == 0 && v + 1 == b.net / Pow2(n)
  }

  /** The block one level up (`l.mask -= 1` in `merge_vec`). */
  function Parent(a: Subnet): Subnet
    requires a.mask > 0
  {
    a.(mask := a.mask - 1)
  }

  lemma EndBound(s: Subnet)
    requires WellFormed(s)
    ensures s.net < End(s) <= Pow2(Width(s.fam))
  {
    assert Aligned(0, Width(s.fam));
    AlignedNest(0, Width(s.fam), s.net, HostBits(s));
  }

  lemma BeforeIsLess(a: Subnet, b: Subnet)
    requires Before(a, b)
    ensures Less(a, b) && Disjoint(a, b)
  {
  }

  /** `contains(a, b)` on canonical blocks: a zero mask covers everything
      (of either family); otherwise `a` covers `b` exactly when they are of
      one family and `b`'s range lies inside `a`'s. */
  lemma {:induction false} ContainsMeaning(a: Subnet, b: Subnet)
    requires WellFormed(a) && WellFormed(b)
    ensures Contains(a, b) <==>
      a.mask == 0 || (a.fam == b.fam && a.net <= b.net && End(b) <= End(a))
    ensures a.mask > b.mask ==> !Contains(a, b)
  {
    if a.mask > b.mask {
      if a.fam == b.fam {
        Pow2Le(HostBits(a), HostBits(b));
      }
    } else if a.mask > 0 && a.fam == b.fam {
      var ha, hb := HostBits(a), HostBits(b);
      if a.net == MaskDown(b.net, ha) {
        MaskDownBounds(b.net, ha);
        AlignedNest(a.net, ha, b.net, hb);
      }
      if a.net <= b.net && End(b) <= End(a) {
        AlignedUnique(a.net, b.net, ha);
      }
    }
  }

  /** `is_next(a, b)` on canonical blocks: same family and prefix, `a` is
      the lower half of its parent block, and `b` starts where `a` ends. */
  lemma {:induction false} IsNextMeaning(a: Subnet, b: Subnet)
    requires WellFormed(a) && WellFormed(b)
    requires a.mask == b.mask && a.fam == b.fam ==> a.mask > 0
    ensures IsNext(a, b) <==>
      a.fam == b.fam && a.mask == b.mask && a.mask > 0 &&
      Aligned(a.net, HostBits(a) + 1) && b.net == End(a)
  {
    if a.fam == b.fam && a.mask == b.mask {
      EvenIndex(a.net, HostBits(a));
      NextIndex(a.net, b.net, HostBits(a));
    }
  }

  /** Merging a pair: the parent of the lower half is canonical, starts
      where the lower half starts, ends where the upper half ends, and so
      covers exactly the addresses of the two halves. */
  lemma ParentOfPair(a: Subnet, b: Subnet)
    requires WellFormed(a) && WellFormed(b)
    requires a.mask == b.mask && a.fam == b.fam ==> a.mask > 0
    requires IsNext(a, b)
    ensures WellFormed(Parent(a)) && Parent(a).fam == b.fam
    ensures Parent(a).net == a.net && End(Parent(a)) == End(b)
    ensures forall x :: Covers(Parent(a), b.fam, x) <==> Covers(a, b.fam, x) || Covers(b, b.fam, x)
  {
    IsNextMeaning(a, b);
    var p := Parent(a);
    assert HostBits(p) == HostBits(a) + 1;
    assert Size(p) == 2 * Size(a);
    EndBound(a);
    EndBound(b);
  }

  /** Some block of `bs` covers address `a` of family `f`. */
  predicate CoversAny(bs: seq<Subnet>, f: Family, a: nat)
  {
    exists j :: 0 <= j < |bs| && Covers(bs[j], f, a)
  }

  predicate PairwiseDisjoint(bs: seq<Subnet>)
  {
    forall j, k :: 0 <= j < k < |bs| ==> Disjoint(bs[j], bs[k])
  }

  /** A single block covers what it covers. */
  lemma CoversOne(s: Subnet, f: Family, a: nat)
    ensures CoversAny([s], f, a) <==> Covers(s, f, a)
  {
    if Covers(s, f, a) {
      assert Covers([s][0], f, a);
    }
  }

  lemma CoversAnyConcat(x: seq<Subnet>, y: seq<Subnet>, f: Family, a: nat)
    ensures CoversAny(x + y, f, a) <==> CoversAny(x, f, a) || CoversAny(y, f, a)
  {
    if CoversAny(x, f, a) {
      var j :| 0 <= j < |x| && Covers(x[j], f, a);
      assert (x + y)[j] == x[j];
    }
    if CoversAny(y, f, a) {
      var j :| 0 <= j < |y| && Covers(y[j], f, a);
      assert (x + y)[|x| + j] == y[j];
    }
    if CoversAny(x + y, f, a) {
      var j :| 0 <= j < |x + y| && Covers((x + y)[j], f, a);
      if j < |x| {
        assert (x + y)[j] == x[j];
      } else {
        assert (x + y)[j] == y[j - |x|];
      }
    }
  }

  /** `b` is the upper half of the block whose lower half is `a`: what
      `is_next` tests on canonical blocks (see `IsNextMeaning`). */
  predicate Buddies(a: Subnet, b: Subnet)
  {
    a.fam == b.fam && a.mask == b.mask && a.mask > 0 &&
    Aligned(a.net, HostBits(a) + 1) && b.net == End(a)
  }

  /** No two blocks of `bs` are the two halves of one shorter block, so no
      two of them can be replaced by one: the blocks are a minimal
      decomposition of what they cover. */
  predicate NoBuddies(bs: seq<Subnet>)
  {
    forall j, k :: 0 <= j < |bs| && 0 <= k < |bs| ==> !Buddies(bs[j], bs[k])
  }

  /** A block is never its own upper half. */
  lemma NotOwnBuddy(s: Subnet)
    ensures !Buddies(s, s)
  {
    assert End(s) == s.net + Size(s);
  }

  /** Blocks of family `f` that start at or above `bound`, appended to
      blocks whose family-`f` members end below `bound`, form no new pair. */
  lemma NoBuddiesAppend(xs: seq<Subnet>, ys: seq<Subnet>, f: Family, bound: nat)
    requires NoBuddies(xs) && NoBuddies(ys)
    requires forall k :: 0 <= k < |xs| && xs[k].fam == f ==> End(xs[k]) < bound
    requires forall k :: 0 <= k < |ys| ==> ys[k].fam == f && bound <= ys[k].net
    ensures NoBuddies(xs + ys)
  {
    var r := xs + ys;
    forall j, k | 0 <= j < |r| && 0 <= k < |r| ensures !Buddies(r[j], r[k]) {
      if j < |xs| && k < |xs| {
        assert r[j] == xs[j] && r[k] == xs[k];
      } else if j >= |xs| && k >= |xs| {
        assert r[j] == ys[j - |xs|] && r[k] == ys[k - |xs|];
      } else if j < |xs| {
        assert r[j] == xs[j] && r[k] == ys[k - |xs|];
      } else {
        assert r[j] == ys[j - |xs|] && r[k] == xs[k];
        assert End(r[j]) == r[j].net + Size(r[j]) && End(r[k]) == r[k].net + Size(r[k]);
      }
    }
  }

  /** Blocks of one prefix length followed by blocks of shorter prefixes
      form no new pair: the two halves of a block have equal prefixes. */
  lemma NoBuddiesMasks(xs: seq<Subnet>, ys: seq<Subnet>, m: nat)
    requires NoBuddies(xs) && NoBuddies(ys)
    requires forall k :: 0 <= k < |xs| ==> xs[k].mask == m
    requires forall k :: 0 <= k < |ys| ==> ys[k].mask < m
    ensures NoBuddies(xs + ys)
  {
    var r := xs + ys;
    forall j, k | 0 <= j < |r| && 0 <= k < |r| ensures !Buddies(r[j], r[k]) {
      if j < |xs| {
        assert r[j] == xs[j];
      } else {
        assert r[j] == ys[j - |xs|];
      }
      if k < |xs| {
        assert r[k] == xs[k];
      } else {
        assert r[k] == ys[k - |xs|];
      }
    }
  }

  /** `NoBuddies` depends only on which blocks there are. */
  lemma NoBuddiesSame(xs: seq<Subnet>, ys: seq<Subnet>)
    requires NoBuddies(xs) && forall x :: x in ys ==> x in xs
    ensures NoBuddies(ys)
  {
    forall j, k | 0 <= j < |ys| && 0 <= k < |ys| ensures !Buddies(ys[j], ys[k]) {
      assert ys[j] in xs && ys[k] in xs;
      var p :| 0 <= p < |xs| && xs[p] == ys[j];
      var q :| 0 <= q < |xs| && xs[q] == ys[k];
    }
  }
}
