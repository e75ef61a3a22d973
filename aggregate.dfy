/** `SubnetList::shrink` (src/main.rs:320-340) and `merge_vec`
    (src/main.rs:382-393) as functions over the sorted element sequence:
    one pass drops entries covered by the most recent accepted "cover",
    pushes the others on a stack and collapses equal-tag pairs on the way;
    the stack entries left with tag 0 form the new set. */
module Aggregate {
  import opened Bits
  import opened Subnets
  import opened OrderedSet
  import opened Wrappers

  predicate AllWellFormed(xs: seq<Subnet>)
  {
    forall j :: 0 <= j < |xs| ==> WellFormed(xs[j])
  }

  /** Every entry lies wholly below every later one. */
  predicate Ordered(xs: seq<Subnet>)
  {
    forall j, k :: 0 <= j < k < |xs| ==> Before(xs[j], xs[k])
  }

  /** Every entry of `xs` lies wholly below `i`. */
  predicate Below(xs: seq<Subnet>, i: Subnet)
  {
    forall j :: 0 <= j < |xs| ==> Before(xs[j], i)
  }

  function Top(xs: seq<Subnet>): Subnet
    requires |xs| > 0
  {
    xs[|xs| - 1]
  }

  lemma OrderedIsSorted(xs: seq<Subnet>)
    requires Ordered(xs)
    ensures StrictlySorted(xs) && PairwiseDisjoint(xs)
  {
    forall j, k | 0 <= j < k < |xs| ensures Less(xs[j], xs[k]) && Disjoint(xs[j], xs[k]) {
      BeforeIsLess(xs[j], xs[k]);
    }
  }

  /** `merge_vec(vec, i)`: while the top of the stack has `i`'s tag and is
      the lower half of a pair whose upper half is `i`, pop it and carry
      on with its parent block; then push. Everything below the merge
      point is kept, and the pushed block ends where `i` ends. */
  function MergeInto(vec: seq<Subnet>, i: Subnet): (r: seq<Subnet>)
    requires Ordered(vec) && AllWellFormed(vec) && WellFormed(i) && Below(vec, i)
    ensures 1 <= |r| <= |vec| + 1 && r[..|r| - 1] == vec[..|r| - 1]
    ensures Ordered(r) && AllWellFormed(r)
    ensures Top(r).fam == i.fam && Top(r).tag == i.tag
    ensures Top(r).net <= i.net && End(Top(r)) == End(i)
    decreases |vec|
  {
    if |vec| == 0 then [i]
    else
      var l := vec[|vec| - 1];
      assert l.mask == i.mask && l.fam == i.fam ==> l.mask > 0 by {
        assert Before(l, i);
      }
      if l.tag == i.tag && IsNext(l, i) then
        ParentOfPair(l, i);
        MergeInto(vec[..|vec| - 1], Parent(l))
      else
        vec + [i]
  }

  /** The state of the `shrink` loop: the stack `vec` and the last cover. */
  datatype Pass = Pass(vec: seq<Subnet>, last: Option<Subnet>)

  /** What the loop keeps true: the stack is ordered and canonical, and its
      top covers the last cover and ends where it ends. */
  ghost predicate PassInv(p: Pass, items: seq<Subnet>)
  {
    Ordered(p.vec) && AllWellFormed(p.vec) &&
    (p.last.None? ==> p.vec == [] && items == []) &&
    (p.last.Some? ==>
       p.last.value in items && WellFormed(p.last.value) && |p.vec| > 0 &&
       Top(p.vec).fam == p.last.value.fam && Top(p.vec).net <= p.last.value.net &&
       End(Top(p.vec)) == End(p.last.value))
  }

  /** A canonical block after the cover in the order that the cover does
      not contain lies wholly after it. */
  lemma NotContainedIsBefore(l: Subnet, i: Subnet)
    requires WellFormed(l) && WellFormed(i) && Less(l, i) && !Contains(l, i)
    ensures Before(l, i)
  {
    ContainsMeaning(l, i);
    if l.fam == i.fam && i.net < End(l) {
      var hl, hi := HostBits(l), HostBits(i);
      if l.mask <= i.mask {
        AlignedNest(l.net, hl, i.net, hi);
      } else {
        AlignedWeaken(i.net, hi, hl);
        AlignedUnique(l.net, i.net, hl);
        AlignedUnique(i.net, i.net, hl);
      }
    }
  }

  lemma AfterCover(vec: seq<Subnet>, l: Subnet, i: Subnet)
    requires Ordered(vec) && |vec| > 0 && WellFormed(l) && WellFormed(i)
    requires Top(vec).fam == l.fam && Top(vec).net <= l.net && End(Top(vec)) == End(l)
    requires Less(l, i) && !Contains(l, i)
    ensures Below(vec, i)
  {
    NotContainedIsBefore(l, i);
    forall j | 0 <= j < |vec| ensures Before(vec[j], i) {
      if j < |vec| - 1 {
        assert Before(vec[j], Top(vec));
      }
    }
  }

  /** `vec[len - 1].tag = if merge { 0 } else { 2 }`. */
  function Retag(vec: seq<Subnet>, merge: bool): (r: seq<Subnet>)
    requires |vec| > 0
    ensures |r| == |vec| && r[..|r| - 1] == vec[..|vec| - 1]
    ensures Top(r) == Top(vec).(tag := if merge then 0 else 2)
    ensures Ordered(vec) ==> Ordered(r)
    ensures AllWellFormed(vec) ==> AllWellFormed(r)
  {
    var r := vec[..|vec| - 1] + [Top(vec).(tag := if merge then 0 else 2)];
    assert forall j :: 0 <= j < |r| ==>
      r[j].fam == vec[j].fam && r[j].net == vec[j].net && r[j].mask == vec[j].mask;
    r
  }

  /** One turn of the `shrink` loop for element `i`. */
  function Step(p: Pass, i: Subnet, merge: bool): (q: Pass)
    requires Ordered(p.vec) && AllWellFormed(p.vec) && WellFormed(i)
    requires p.last.None? ==> p.vec == []
    requires p.last.Some? ==>
      WellFormed(p.last.value) && Less(p.last.value, i) && |p.vec| > 0 &&
      Top(p.vec).fam == p.last.value.fam && Top(p.vec).net <= p.last.value.net &&
      End(Top(p.vec)) == End(p.last.value)
    ensures Ordered(q.vec) && AllWellFormed(q.vec) && q.last.Some? && |q.vec| > 0
    ensures q.last == p.last || q.last == Some(i)
    ensures WellFormed(q.last.value)
    ensures Top(q.vec).fam == q.last.value.fam && Top(q.vec).net <= q.last.value.net
    ensures End(Top(q.vec)) == End(q.last.value)
  {
    if p.last.Some? && Contains(p.last.value, i) then
      Pass(Retag(p.vec, merge), p.last)
    else
      assert Below(p.vec, i) by {
        if p.last.Some? { AfterCover(p.vec, p.last.value, i); }
      }
      Pass(MergeInto(p.vec, i), Some(i))
  }

  /** The `shrink` loop over the first `|items|` elements in order. */
  function Walk(items: seq<Subnet>, merge: bool): (p: Pass)
    requires StrictlySorted(items) && AllWellFormed(items)
    ensures PassInv(p, items)
    decreases |items|
  {
    if items == [] then Pass([], None)
    else
      var init := items[..|items| - 1];
      var p := Walk(init, merge);
      assert p.last.Some? ==> Less(p.last.value, items[|items| - 1]) by {
        if p.last.Some? {
          var k :| 0 <= k < |init| && init[k] == p.last.value;
        }
      }
      Step(p, items[|items| - 1], merge)
  }

  /** The stack entries whose tag is 0, in stack order. */
  function KeepTagZero(vec: seq<Subnet>): (r: seq<Subnet>)
    ensures forall x :: x in r <==> x in vec && x.tag == 0
  {
    if vec == [] then []
    else (if vec[0].tag == 0 then [vec[0]] else []) + KeepTagZero(vec[1..])
  }

  lemma PrependOrdered(h: Subnet, xs: seq<Subnet>)
    requires Ordered(xs) && forall x :: x in xs ==> Before(h, x)
    ensures Ordered([h] + xs)
  {
    forall j, k | 0 <= j < k < |[h] + xs| ensures Before(([h] + xs)[j], ([h] + xs)[k]) {
      assert ([h] + xs)[k] == xs[k - 1];
      if j == 0 {
        assert xs[k - 1] in xs;
      } else {
        assert ([h] + xs)[j] == xs[j - 1];
      }
    }
  }

  lemma {:induction false} KeepTagZeroOrdered(vec: seq<Subnet>)
    requires Ordered(vec)
    ensures Ordered(KeepTagZero(vec))
  {
    if vec != [] {
      var rest := KeepTagZero(vec[1..]);
      KeepTagZeroOrdered(vec[1..]);
      if vec[0].tag == 0 {
        forall x | x in rest ensures Before(vec[0], x) {
          var m :| 0 <= m < |vec[1..]| && vec[1..][m] == x;
          assert vec[m + 1] == x;
        }
        PrependOrdered(vec[0], rest);
      }
    }
  }

  /** `shrink(merge)`: the new contents of the set, in order. They are
      canonical, carry tag 0, are pairwise disjoint and strictly sorted. */
  function Shrunk(items: seq<Subnet>, merge: bool): (r: seq<Subnet>)
    requires StrictlySorted(items) && AllWellFormed(items)
    ensures StrictlySorted(r) && PairwiseDisjoint(r) && AllWellFormed(r)
    ensures forall j :: 0 <= j < |r| ==> r[j].tag == 0
  {
    var vec := Walk(items, merge).vec;
    Kept(vec);
    KeepTagZero(vec)
  }

  /** The tag-0 entries of an ordered canonical stack are strictly sorted,
      pairwise disjoint and canonical. */
  lemma Kept(vec: seq<Subnet>)
    requires Ordered(vec) && AllWellFormed(vec)
    ensures var r := KeepTagZero(vec);
      StrictlySorted(r) && PairwiseDisjoint(r) && AllWellFormed(r) &&
      forall j :: 0 <= j < |r| ==> r[j].tag == 0
  {
    var r := KeepTagZero(vec);
    KeepTagZeroOrdered(vec);
    OrderedIsSorted(r);
    assert forall j :: 0 <= j < |r| ==> r[j] in r && r[j] in vec;
    assert AllWellFormed(r) by {
      forall j | 0 <= j < |r| ensures WellFormed(r[j]) {
        var m :| 0 <= m < |vec| && vec[m] == r[j];
      }
    }
  }

  /** Changing a tag changes no address covered. */
  lemma RetagCovers(vec: seq<Subnet>, merge: bool, f: Family, a: nat)
    requires |vec| > 0
    ensures CoversAny(Retag(vec, merge), f, a) <==> CoversAny(vec, f, a)
  {
    var r := Retag(vec, merge);
    var n := |vec| - 1;
    assert forall j :: 0 <= j < n ==> r[j] == r[..n][j] == vec[..n][j] == vec[j];
    assert Covers(r[n], f, a) <==> Covers(vec[n], f, a);
    if CoversAny(r, f, a) {
      var j :| 0 <= j < |r| && Covers(r[j], f, a);
      assert Covers(vec[j], f, a);
    }
    if CoversAny(vec, f, a) {
      var j :| 0 <= j < |vec| && Covers(vec[j], f, a);
      assert Covers(r[j], f, a);
    }
  }

  /** `merge_vec` covers exactly the stack's addresses and `i`'s. */
  lemma {:induction false} MergeIntoCovers(vec: seq<Subnet>, i: Subnet, f: Family, a: nat)
    requires Ordered(vec) && AllWellFormed(vec) && WellFormed(i) && Below(vec, i)
    ensures CoversAny(MergeInto(vec, i), f, a) <==> CoversAny(vec, f, a) || Covers(i, f, a)
    decreases |vec|
  {
    if |vec| == 0 {
      CoversOne(i, f, a);
    } else if vec[|vec| - 1].tag == i.tag && IsNext(vec[|vec| - 1], i) {
      var l, init := vec[|vec| - 1], vec[..|vec| - 1];
      PopFacts(vec, i);
      MergeIntoCovers(init, Parent(l), f, a);
      PairTurn(vec, i, f, a);
    } else {
      PushTurn(vec, i, f, a);
    }
  }

  /** The merging turn of `merge_vec`: what the merged parent goes on to
      cover is what the popped top and `i` covered. */
  lemma PairTurn(vec: seq<Subnet>, i: Subnet, f: Family, a: nat)
    requires Ordered(vec) && AllWellFormed(vec) && WellFormed(i) && Below(vec, i) && |vec| > 0
    requires vec[|vec| - 1].tag == i.tag && IsNext(vec[|vec| - 1], i)
    requires var init, l := vec[..|vec| - 1], vec[|vec| - 1];
      Ordered(init) && AllWellFormed(init) && WellFormed(Parent(l)) && Below(init, Parent(l)) &&
      (CoversAny(MergeInto(init, Parent(l)), f, a) <==> CoversAny(init, f, a) || Covers(Parent(l), f, a))
    ensures CoversAny(MergeInto(vec, i), f, a) <==> CoversAny(vec, f, a) || Covers(i, f, a)
  {
    var l, init := vec[|vec| - 1], vec[..|vec| - 1];
    assert l.mask == i.mask && l.fam == i.fam ==> l.mask > 0 by {
      assert Before(l, i);
    }
    assert MergeInto(vec, i) == MergeInto(init, Parent(l));
    PopCovers(init, l, i, f, a);
    assert vec == init + [l];
  }

  /** The pushing turn of `merge_vec`. */
  lemma PushTurn(vec: seq<Subnet>, i: Subnet, f: Family, a: nat)
    requires Ordered(vec) && AllWellFormed(vec) && WellFormed(i) && Below(vec, i) && |vec| > 0
    requires !(vec[|vec| - 1].tag == i.tag && IsNext(vec[|vec| - 1], i))
    ensures CoversAny(MergeInto(vec, i), f, a) <==> CoversAny(vec, f, a) || Covers(i, f, a)
  {
    assert MergeInto(vec, i) == vec + [i];
    CoversAnyConcat(vec, [i], f, a);
    CoversOne(i, f, a);
  }

  /** When the top of the stack pairs with `i`, the rest of the stack lies
      below their parent. */
  lemma PopFacts(vec: seq<Subnet>, i: Subnet)
    requires Ordered(vec) && AllWellFormed(vec) && WellFormed(i) && Below(vec, i) && |vec| > 0
    requires vec[|vec| - 1].tag == i.tag && IsNext(vec[|vec| - 1], i)
    ensures var init, l := vec[..|vec| - 1], vec[|vec| - 1];
      Ordered(init) && AllWellFormed(init) && WellFormed(Parent(l)) && Below(init, Parent(l))
  {
    var l := vec[|vec| - 1];
    var init := vec[..|vec| - 1];
    assert l.mask == i.mask && l.fam == i.fam ==> l.mask > 0 by {
      assert Before(l, i);
    }
    ParentOfPair(l, i);
    forall j | 0 <= j < |init| ensures Before(init[j], Parent(l)) {
      assert Before(vec[j], l);
    }
  }

  /** Popping the top `l` and pushing its parent covers what `l` and `i`
      covered. */
  lemma PopCovers(init: seq<Subnet>, l: Subnet, i: Subnet, f: Family, a: nat)
    requires WellFormed(l) && WellFormed(i) && (l.mask == i.mask && l.fam == i.fam ==> l.mask > 0) && IsNext(l, i)
    ensures CoversAny(init, f, a) || Covers(Parent(l), f, a) <==>
      CoversAny(init + [l], f, a) || Covers(i, f, a)
  {
    ParentOfPair(l, i);
    CoversAnyConcat(init, [l], f, a);
    CoversOne(l, f, a);
  }

  /** Covering an address is kept when elements are appended. */
  lemma CoversAnyPrefix(items: seq<Subnet>, k: nat, f: Family, a: nat)
    requires k <= |items| && CoversAny(items[..k], f, a)
    ensures CoversAny(items, f, a)
  {
    var j :| 0 <= j < k && Covers(items[..k][j], f, a);
    assert items[..k][j] == items[j];
  }

  /** The stack after a step covers what it covered before plus, unless
      `i` was dropped as contained, `i`. */
  lemma StepCovers(p: Pass, i: Subnet, merge: bool, f: Family, a: nat)
    requires Ordered(p.vec) && AllWellFormed(p.vec) && WellFormed(i)
    requires p.last.None? ==> p.vec == []
    requires p.last.Some? ==>
      WellFormed(p.last.value) && Less(p.last.value, i) && |p.vec| > 0 &&
      Top(p.vec).fam == p.last.value.fam && Top(p.vec).net <= p.last.value.net &&
      End(Top(p.vec)) == End(p.last.value)
    ensures var q := Step(p, i, merge);
      if p.last.Some? && Contains(p.last.value, i) then
        (CoversAny(q.vec, f, a) <==> CoversAny(p.vec, f, a))
      else
        (CoversAny(q.vec, f, a) <==> CoversAny(p.vec, f, a) || Covers(i, f, a))
  {
    if p.last.Some? && Contains(p.last.value, i) {
      RetagCovers(p.vec, merge, f, a);
    } else {
      if p.last.Some? { AfterCover(p.vec, p.last.value, i); }
      MergeIntoCovers(p.vec, i, f, a);
    }
  }

  /** Everything the pass keeps is an address of the input. */
  lemma {:induction false} WalkSound(items: seq<Subnet>, merge: bool, f: Family, a: nat)
    requires StrictlySorted(items) && AllWellFormed(items)
    ensures CoversAny(Walk(items, merge).vec, f, a) ==> CoversAny(items, f, a)
    decreases |items|
  {
    if items != [] {
      var n := |items| - 1;
      var init, i := items[..n], items[n];
      var p := Walk(init, merge);
      WalkSound(init, merge, f, a);
      if p.last.Some? {
        var k :| 0 <= k < |init| && init[k] == p.last.value;
      }
      StepCovers(p, i, merge, f, a);
      if CoversAny(init, f, a) {
        CoversAnyPrefix(items, n, f, a);
      }
      if Covers(i, f, a) {
        assert Covers(items[n], f, a);
      }
    }
  }

  /** `shrink` never adds an address: whatever it keeps was covered by the
      set before. */
  lemma ShrinkSound(items: seq<Subnet>, merge: bool, f: Family, a: nat)
    requires StrictlySorted(items) && AllWellFormed(items)
    ensures CoversAny(Shrunk(items, merge), f, a) ==> CoversAny(items, f, a)
  {
    var vec := Walk(items, merge).vec;
    assert Shrunk(items, merge) == KeepTagZero(vec);
    KeptCovers(vec, f, a);
    WalkSound(items, merge, f, a);
  }

  /** Dropping stack entries loses addresses but adds none. */
  lemma KeptCovers(vec: seq<Subnet>, f: Family, a: nat)
    ensures CoversAny(KeepTagZero(vec), f, a) ==> CoversAny(vec, f, a)
  {
    var r := KeepTagZero(vec);
    if CoversAny(r, f, a) {
      var j :| 0 <= j < |r| && Covers(r[j], f, a);
      assert r[j] in vec;
      var m :| 0 <= m < |vec| && vec[m] == r[j];
    }
  }

  predicate AllTagZero(xs: seq<Subnet>)
  {
    forall j :: 0 <= j < |xs| ==> xs[j].tag == 0
  }

  /** No `/0` entry precedes an entry of the other family: the condition
      under which the family-blind zero-mask test of `contains` drops
      nothing it should keep. */
  predicate NoCrossZero(items: seq<Subnet>)
  {
    forall j, k :: 0 <= j < k < |items| && items[j].mask == 0 ==> items[k].fam == items[j].fam
  }

  lemma {:induction false} KeepAllZero(vec: seq<Subnet>)
    requires AllTagZero(vec)
    ensures KeepTagZero(vec) == vec
  {
    if vec != [] {
      assert AllTagZero(vec[1..]) by {
        forall j | 0 <= j < |vec[1..]| ensures vec[1..][j].tag == 0 {
          assert vec[1..][j] == vec[j + 1];
        }
      }
      KeepAllZero(vec[1..]);
      assert KeepTagZero(vec) == [vec[0]] + KeepTagZero(vec[1..]);
      assert vec == [vec[0]] + vec[1..];
    }
  }

  /** With `merge` on and every entry tagged 0, the stack keeps tags 0 and
      loses no address of the input, provided no `/0` precedes an entry of
      the other family. */
  lemma {:induction false} WalkComplete(items: seq<Subnet>, f: Family, a: nat)
    requires StrictlySorted(items) && AllWellFormed(items) && AllTagZero(items) && NoCrossZero(items)
    ensures AllTagZero(Walk(items, true).vec)
    ensures CoversAny(items, f, a) ==> CoversAny(Walk(items, true).vec, f, a)
    decreases |items|
  {
    if items != [] {
      var n := |items| - 1;
      var init, i := items[..n], items[n];
      DropLast(items);
      WalkComplete(init, f, a);
      LastTurn(items);
      var p := Walk(init, true);
      CoversAnyLast(items, f, a);
      StepComplete(p, i, f, a);
    }
  }

  /** An address covered by a list is covered by its last entry or by the
      entries before it. */
  lemma CoversAnyLast(items: seq<Subnet>, f: Family, a: nat)
    requires |items| > 0
    ensures CoversAny(items, f, a) ==>
      CoversAny(items[..|items| - 1], f, a) || Covers(items[|items| - 1], f, a)
  {
    if CoversAny(items, f, a) && !Covers(items[|items| - 1], f, a) {
      var j :| 0 <= j < |items| && Covers(items[j], f, a);
      assert items[..|items| - 1][j] == items[j];
    }
  }

  /** The last turn of the loop over sorted, tag-0 entries with no `/0`
      ahead of the other family meets what `StepComplete` needs. */
  lemma LastTurn(items: seq<Subnet>)
    requires |items| > 0
    requires StrictlySorted(items) && AllWellFormed(items) && NoCrossZero(items)
    ensures var init, i := items[..|items| - 1], items[|items| - 1]; var p := Walk(init, true);
      Walk(items, true) == Step(p, i, true) &&
      (p.last.Some? ==> Less(p.last.value, i)) &&
      (p.last.Some? && p.last.value.mask == 0 ==> p.last.value.fam == i.fam)
  {
    var n := |items| - 1;
    var init, i := items[..n], items[n];
    var p := Walk(init, true);
    if p.last.Some? {
      var k :| 0 <= k < |init| && init[k] == p.last.value;
      assert items[k] == p.last.value;
    }
  }


  lemma DropLast(items: seq<Subnet>)
    requires |items| > 0
    requires StrictlySorted(items) && AllWellFormed(items) && AllTagZero(items) && NoCrossZero(items)
    ensures var init := items[..|items| - 1];
      StrictlySorted(init) && AllWellFormed(init) && AllTagZero(init) && NoCrossZero(init)
  {
  }

  lemma StepComplete(p: Pass, i: Subnet, f: Family, a: nat)
    requires Ordered(p.vec) && AllWellFormed(p.vec) && WellFormed(i) && AllTagZero(p.vec) && i.tag == 0
    requires p.last.None? ==> p.vec == []
    requires p.last.Some? ==>
      WellFormed(p.last.value) && Less(p.last.value, i) && |p.vec| > 0 &&
      Top(p.vec).fam == p.last.value.fam && Top(p.vec).net <= p.last.value.net &&
      End(Top(p.vec)) == End(p.last.value)
    requires p.last.Some? && p.last.value.mask == 0 ==> p.last.value.fam == i.fam
    ensures AllTagZero(Step(p, i, true).vec)
    ensures CoversAny(p.vec, f, a) || Covers(i, f, a) ==> CoversAny(Step(p, i, true).vec, f, a)
  {
    StepCovers(p, i, true, f, a);
    StepTags(p, i);
    if Covers(i, f, a) && p.last.Some? && Contains(p.last.value, i) {
      ContainedCovered(p.vec, p.last.value, i, f, a);
    }
  }

  /** A step with `merge` on keeps every stack tag 0. */
  lemma StepTags(p: Pass, i: Subnet)
    requires Ordered(p.vec) && AllWellFormed(p.vec) && WellFormed(i) && AllTagZero(p.vec) && i.tag == 0
    requires p.last.None? ==> p.vec == []
    requires p.last.Some? ==>
      WellFormed(p.last.value) && Less(p.last.value, i) && |p.vec| > 0 &&
      Top(p.vec).fam == p.last.value.fam && Top(p.vec).net <= p.last.value.net &&
      End(Top(p.vec)) == End(p.last.value)
    ensures AllTagZero(Step(p, i, true).vec)
  {
    if p.last.Some? && Contains(p.last.value, i) {
      TopTagZero(Retag(p.vec, true), p.vec);
    } else {
      if p.last.Some? { AfterCover(p.vec, p.last.value, i); }
      TopTagZero(MergeInto(p.vec, i), p.vec);
    }
  }

  /** A stack that agrees with a tag-0 stack below its top, and whose top
      has tag 0, has only tag-0 entries. */
  lemma TopTagZero(q: seq<Subnet>, v: seq<Subnet>)
    requires 1 <= |q| <= |v| + 1 && q[..|q| - 1] == v[..|q| - 1]
    requires AllTagZero(v) && Top(q).tag == 0
    ensures AllTagZero(q)
  {
    var n := |q| - 1;
    assert forall j :: 0 <= j < n ==> q[j] == q[..n][j] == v[..n][j] == v[j];
  }

  /** An address of an entry contained in the last cover is on the stack,
      when the cover is of the entry's family or does not have a zero mask. */
  lemma ContainedCovered(vec: seq<Subnet>, l: Subnet, i: Subnet, f: Family, a: nat)
    requires |vec| > 0 && WellFormed(l) && WellFormed(i) && Contains(l, i)
    requires Top(vec).fam == l.fam && Top(vec).net <= l.net && End(Top(vec)) == End(l)
    requires l.mask == 0 ==> l.fam == i.fam
    requires Covers(i, f, a)
    ensures CoversAny(vec, f, a)
  {
    assert Covers(l, f, a) by {
      if l.mask == 0 {
        ZeroMaskCovers(l, i, a);
      } else {
        ContainsMeaning(l, i);
      }
    }
    assert Covers(vec[|vec| - 1], f, a);
  }

  /** A `/0` block covers every address of its family. */
  lemma ZeroMaskCovers(l: Subnet, i: Subnet, a: nat)
    requires WellFormed(l) && l.mask == 0 && WellFormed(i) && i.fam == l.fam && Covers(i, i.fam, a)
    ensures Covers(l, i.fam, a)
  {
    assert HostBits(l) == Width(l.fam);
    DivModUnique(l.net, Pow2(Width(l.fam)), 0, l.net);
    EndBound(i);
  }

  /** With `merge` on, on input tagged 0 and with no `/0` preceding an entry
      of the other family, `shrink` keeps exactly the addresses covered. */
  lemma ShrinkCoverage(items: seq<Subnet>, f: Family, a: nat)
    requires StrictlySorted(items) && AllWellFormed(items) && AllTagZero(items) && NoCrossZero(items)
    ensures CoversAny(Shrunk(items, true), f, a) <==> CoversAny(items, f, a)
  {
    ShrinkSound(items, true, f, a);
    WalkComplete(items, f, a);
    KeepAllZero(Walk(items, true).vec);
  }

  /** Everything in `InsertAll(xs, bs)` came from `xs` or `bs`. */
  lemma InsertAllWellFormed(xs: seq<Subnet>, bs: seq<Subnet>)
    requires AllWellFormed(xs) && AllWellFormed(bs)
    ensures AllWellFormed(InsertAll(xs, bs))
  {
    var r := InsertAll(xs, bs);
    forall j | 0 <= j < |r| ensures WellFormed(r[j]) {
      assert r[j] in r;
      if r[j] in xs {
        var k :| 0 <= k < |xs| && xs[k] == r[j];
      } else {
        var k :| 0 <= k < |bs| && bs[k] == r[j];
      }
    }
  }

  /** No two neighbours on the stack form a pair with equal tags, so no
      pop of `merge_vec` is left undone. */
  predicate NoPairs(vec: seq<Subnet>)
  {
    forall j :: 0 < j < |vec| ==> !(vec[j - 1].tag == vec[j].tag && Buddies(vec[j - 1], vec[j]))
  }

  /** `merge_vec` leaves no mergeable pair behind on a stack that had none. */
  lemma {:induction false} MergeIntoNoPairs(vec: seq<Subnet>, i: Subnet)
    requires Ordered(vec) && AllWellFormed(vec) && WellFormed(i) && Below(vec, i) && NoPairs(vec)
    ensures NoPairs(MergeInto(vec, i))
    decreases |vec|
  {
    if |vec| > 0 {
      var l := vec[|vec| - 1];
      var init := vec[..|vec| - 1];
      assert l.mask == i.mask && l.fam == i.fam ==> l.mask > 0 by {
        assert Before(l, i);
      }
      if l.tag == i.tag && IsNext(l, i) {
        PopFacts(vec, i);
        NoPairsInit(vec);
        MergeIntoNoPairs(init, Parent(l));
        assert MergeInto(vec, i) == MergeInto(init, Parent(l));
      } else {
        IsNextMeaning(l, i);
        PushNoPairs(vec, i);
        assert MergeInto(vec, i) == vec + [i];
      }
    }
  }

  /** Dropping the top of the stack leaves no pair behind. */
  lemma NoPairsInit(vec: seq<Subnet>)
    requires NoPairs(vec) && |vec| > 0
    ensures NoPairs(vec[..|vec| - 1])
  {
    var init := vec[..|vec| - 1];
    forall j | 0 < j < |init| ensures !(init[j - 1].tag == init[j].tag && Buddies(init[j - 1], init[j])) {
      assert init[j - 1] == vec[j - 1] && init[j] == vec[j];
    }
  }

  /** Pushing an entry that does not pair with the top leaves no pair. */
  lemma PushNoPairs(vec: seq<Subnet>, i: Subnet)
    requires Ordered(vec) && AllWellFormed(vec) && WellFormed(i) && Below(vec, i) && NoPairs(vec)
    requires |vec| > 0 && !(vec[|vec| - 1].tag == i.tag && Buddies(vec[|vec| - 1], i))
    ensures NoPairs(vec + [i])
  {
    var r := vec + [i];
    forall j | 0 < j < |r| ensures !(r[j - 1].tag == r[j].tag && Buddies(r[j - 1], r[j])) {
      if j < |vec| {
        assert r[j - 1] == vec[j - 1] && r[j] == vec[j];
      }
    }
  }

  /** With `merge` on and every entry tagged 0, the stack stays tagged 0 and
      holds no mergeable pair. */
  lemma {:induction false} WalkNoPairs(items: seq<Subnet>)
    requires StrictlySorted(items) && AllWellFormed(items) && AllTagZero(items)
    ensures AllTagZero(Walk(items, true).vec) && NoPairs(Walk(items, true).vec)
    decreases |items|
  {
    if items != [] {
      var n := |items| - 1;
      var init, i := items[..n], items[n];
      assert StrictlySorted(init) && AllWellFormed(init) && AllTagZero(init);
      var p := Walk(init, true);
      WalkNoPairs(init);
      assert Walk(items, true) == Step(p, i, true);
      if p.last.Some? {
        var k :| 0 <= k < |init| && init[k] == p.last.value;
        assert Less(items[k], items[n]);
      }
      StepNoPairs(p, i);
    }
  }

  /** One turn of the loop with `merge` on keeps the stack tagged 0 and free
      of mergeable pairs. */
  lemma StepNoPairs(p: Pass, i: Subnet)
    requires Ordered(p.vec) && AllWellFormed(p.vec) && WellFormed(i) && AllTagZero(p.vec) && i.tag == 0
    requires NoPairs(p.vec)
    requires p.last.None? ==> p.vec == []
    requires p.last.Some? ==>
      WellFormed(p.last.value) && Less(p.last.value, i) && |p.vec| > 0 &&
      Top(p.vec).fam == p.last.value.fam && Top(p.vec).net <= p.last.value.net &&
      End(Top(p.vec)) == End(p.last.value)
    ensures AllTagZero(Step(p, i, true).vec) && NoPairs(Step(p, i, true).vec)
  {
    StepTags(p, i);
    if p.last.Some? && Contains(p.last.value, i) {
      var m := |p.vec| - 1;
      assert Retag(p.vec, true) == p.vec[..m] + [Top(p.vec)] == p.vec;
    } else {
      if p.last.Some? { AfterCover(p.vec, p.last.value, i); }
      MergeIntoNoPairs(p.vec, i);
    }
  }

  /** A `/0` block does not lie wholly below any block of its own family. */
  lemma ZeroNotBefore(l: Subnet, i: Subnet)
    requires WellFormed(l) && WellFormed(i) && l.mask == 0 && l.fam == i.fam
    ensures !Before(l, i)
  {
    EndBound(i);
    assert HostBits(l) == Width(l.fam);
  }

  /** A shrunk set whose entries are wholly ordered, tagged 0, hold no
      mergeable pair and no `/0` before another family passes through the
      `shrink` loop untouched: nothing is contained in its predecessor and
      nothing merges. */
  lemma {:induction false} WalkSettled(out: seq<Subnet>)
    requires Ordered(out) && AllWellFormed(out) && AllTagZero(out) && NoPairs(out) && NoCrossZero(out)
    ensures StrictlySorted(out)
    ensures Walk(out, true) == Pass(out, if out == [] then None else Some(Top(out)))
    decreases |out|
  {
    OrderedIsSorted(out);
    if out != [] {
      var n := |out| - 1;
      var init, i := out[..n], out[n];
      SettledPrefix(out);
      WalkSettled(init);
      assert Walk(out, true) == Step(Walk(init, true), i, true);
      if n > 0 {
        SettledStep(out);
      }
      assert init + [i] == out;
    }
  }

  lemma SettledPrefix(out: seq<Subnet>)
    requires |out| > 0
    requires Ordered(out) && AllWellFormed(out) && AllTagZero(out) && NoPairs(out) && NoCrossZero(out)
    ensures var init := out[..|out| - 1];
      Ordered(init) && AllWellFormed(init) && AllTagZero(init) && NoPairs(init) && NoCrossZero(init)
  {
    var init := out[..|out| - 1];
    assert NoPairs(init) by {
      forall j | 0 < j < |init| ensures !(init[j - 1].tag == init[j].tag && Buddies(init[j - 1], init[j])) {
        assert init[j - 1] == out[j - 1] && init[j] == out[j];
      }
    }
  }

  /** The last entry of a settled set is neither contained in nor merged
      with the one before it. */
  lemma SettledStep(out: seq<Subnet>)
    requires |out| > 1
    requires Ordered(out) && AllWellFormed(out) && AllTagZero(out) && NoPairs(out) && NoCrossZero(out)
    ensures var n := |out| - 1; var init := out[..n];
      StrictlySorted(init) && AllWellFormed(init) && Less(out[n - 1], out[n]) &&
      Top(init) == out[n - 1] && !Contains(out[n - 1], out[n]) &&
      Below(init, out[n]) && MergeInto(init, out[n]) == init + [out[n]]
  {
    var n := |out| - 1;
    var init, l, i := out[..n], out[n - 1], out[n];
    LastTwo(out);
    assert l.mask == 0 ==> l.fam == i.fam;
    assert !(l.tag == i.tag && Buddies(l, i));
    SettledPair(l, i);
    assert MergeInto(init, i) == init + [i];
  }

  /** The entries before the last of an ordered set are sorted, canonical,
      end with the one before the last, and all lie before the last. */
  lemma LastTwo(out: seq<Subnet>)
    requires |out| > 1 && Ordered(out) && AllWellFormed(out)
    ensures var n := |out| - 1; var init := out[..n];
      Ordered(init) && StrictlySorted(init) && AllWellFormed(init) && Top(init) == out[n - 1] &&
      Before(out[n - 1], out[n]) && Less(out[n - 1], out[n]) && Below(init, out[n])
  {
    var n := |out| - 1;
    var init := out[..n];
    OrderedIsSorted(out);
    OrderedIsSorted(init);
    forall j | 0 <= j < |init| ensures Before(init[j], out[n]) {
      assert Before(out[j], out[n]);
    }
  }

  /** Two neighbours of a settled set: the later one is not contained in
      the earlier one and does not pair with it. */
  lemma SettledPair(l: Subnet, i: Subnet)
    requires WellFormed(l) && WellFormed(i) && Before(l, i) && Less(l, i)
    requires l.mask == 0 ==> l.fam == i.fam
    requires !(l.tag == i.tag && Buddies(l, i))
    ensures !Contains(l, i)
    ensures (l.mask == i.mask && l.fam == i.fam ==> l.mask > 0) && !(l.tag == i.tag && IsNext(l, i))
  {
    if l.mask == 0 {
      ZeroNotBefore(l, i);
    }
    ContainsMeaning(l, i);
    IsNextMeaning(l, i);
  }

  /** On input tagged 0, a second `shrink(true)` changes nothing, provided
      the first left no `/0` ahead of an entry of the other family (whose
      family-blind zero-mask test would then drop that entry). */
  lemma ShrinkIdempotent(items: seq<Subnet>)
    requires StrictlySorted(items) && AllWellFormed(items) && AllTagZero(items)
    requires NoCrossZero(Shrunk(items, true))
    ensures Shrunk(Shrunk(items, true), true) == Shrunk(items, true)
  {
    WalkNoPairs(items);
    var vec := Walk(items, true).vec;
    KeepAllZero(vec);
    assert Shrunk(items, true) == vec;
    WalkSettled(vec);
  }
}
