/** `SubnetList` (src/main.rs:273-380) and `merge_vec` (src/main.rs:382-393)
    as imperative code: the set is a field holding its elements in order,
    and each method is proved to leave it as the matching function of the
    old contents says. */
module Lists {
  import opened Bits
  import opened Subnets
  import opened RangeSplit
  import opened OrderedSet
  import opened Aggregate
  import opened Complement
  import opened Parse
  import opened Pipeline
  import opened Wrappers

  /** `merge_vec(vec, i)`: pop while the top pairs up with the carried
      block, then push. */
  method MergeVec(vec: seq<Subnet>, i: Subnet) returns (r: seq<Subnet>)
    requires Ordered(vec) && AllWellFormed(vec) && WellFormed(i) && Below(vec, i)
    ensures r == MergeInto(vec, i)
  {
    r := vec;
    var cur := i;
    while |r| > 0
      invariant Ordered(r) && AllWellFormed(r) && WellFormed(cur) && Below(r, cur)
      invariant MergeInto(r, cur) == MergeInto(vec, i)
      decreases |r|
    {
      var l := r[|r| - 1];
      PopStep(r, cur);
      if l.tag == cur.tag && IsNext(l, cur) {
        r := r[..|r| - 1];
        cur := Parent(l);
      } else {
        r := r + [cur];
        return;
      }
    }
    r := r + [cur];
  }

  /** One turn of the loop of `merge_vec`: either the top and the carried
      block merge and the loop goes on with their parent, or `cur` is
      pushed. */
  lemma PopStep(vec: seq<Subnet>, i: Subnet)
    requires Ordered(vec) && AllWellFormed(vec) && WellFormed(i) && Below(vec, i) && |vec| > 0
    ensures var l := vec[|vec| - 1];
      (l.mask == i.mask && l.fam == i.fam ==> l.mask > 0) &&
      (l.tag == i.tag && IsNext(l, i) ==>
        var init := vec[..|vec| - 1];
        Ordered(init) && AllWellFormed(init) && WellFormed(Parent(l)) && Below(init, Parent(l)) &&
        MergeInto(vec, i) == MergeInto(init, Parent(l)))
  {
    var l := vec[|vec| - 1];
    assert Before(l, i);
    if l.tag == i.tag && IsNext(l, i) {
      ParentOfPair(l, i);
      var init := vec[..|vec| - 1];
      forall j | 0 <= j < |init| ensures Before(init[j], Parent(l)) {
        assert Before(init[j], l);
      }
    }
  }

  class SubnetList {
    /** The members of the `BTreeSet`, in increasing order. */
    var items: seq<Subnet>

    ghost predicate Valid()
      reads this
    {
      StrictlySorted(items)
    }

    /** `SubnetList::default()`. */
    constructor()
      ensures Valid() && items == []
    {
      items := [];
    }

    /** `insert`: add `s` unless present; report whether it was added. */
    method Insert(s: Subnet) returns (added: bool)
      requires Valid()
      modifies this
      ensures Valid() && items == InsertSorted(old(items), s)
      ensures added == (s !in old(items))
    {
      added := s !in items;
      items := InsertSorted(items, s);
    }

    /** `parse_ipv4_range` / `parse_ipv6_range` (src/main.rs:98-142): the
        peel-and-halve loop inserting the blocks of `[from, upto]`. */
    method InsertRange(f: Family, from: nat, upto: nat, tag: Option<u8>)
      requires Valid() && upto < Pow2(Width(f))
      modifies this
      ensures Valid() && items == InsertAll(old(items), Split(f, from, upto, Width(f), tag.GetOr(0)))
    {
      var t := tag.GetOr(0);
      ghost var target := InsertAll(items, Split(f, from, upto, Width(f), t));
      var lo: nat, hi: nat, mask: nat := from, upto, Width(f);
      while lo <= hi
        invariant Valid() && mask <= Width(f) && hi < Pow2(mask)
        invariant InsertAll(items, Split(f, lo, hi, mask, t)) == target
        decreases hi
      {
        if lo == hi {
          InsertOne(items, Block(f, lo, mask, t));
          var _ := Insert(Block(f, lo, mask, t));
          return;
        }
        lo, hi := Peel(f, lo, hi, mask, t);
        lo, hi, mask := Shift(f, lo, hi, mask, t);
      }
    }

    /** One pass of the two `if`s of the loop: insert an odd lower bound
        and an even upper bound and move past them. */
    method Peel(f: Family, lo: nat, hi: nat, mask: nat, t: u8) returns (lo': nat, hi': nat)
      requires Valid() && mask <= Width(f) && hi < Pow2(mask) && lo < hi
      modifies this
      ensures lo' == (if lo % 2 == 1 then lo + 1 else lo) && hi' == (if hi % 2 == 0 then hi - 1 else hi)
      ensures Valid() && items == InsertAll(old(items), PeelLow(f, lo, mask, t) + PeelHigh(f, hi, mask, t))
      ensures lo' % 2 == 0 && hi' % 2 == 1 && hi' <= hi
      ensures InsertAll(items, Halve(f, lo', hi', mask, t)) == InsertAll(old(items), Split(f, lo, hi, mask, t))
    {
      lo' := if lo % 2 == 1 then lo + 1 else lo;
      hi' := if hi % 2 == 0 then hi - 1 else hi;
      ghost var peelLo, peelHi := PeelLow(f, lo, mask, t), PeelHigh(f, hi, mask, t);
      PeelPlan(items, f, lo, hi, mask, t, lo', hi');
      ghost var start := items;
      if lo % 2 == 1 {
        InsertOne(items, Block(f, lo, mask, t));
        var _ := Insert(Block(f, lo, mask, t));
      }
      assert items == InsertAll(start, peelLo);
      ghost var mid := items;
      if hi % 2 == 0 {
        InsertOne(items, Block(f, hi, mask, t));
        var _ := Insert(Block(f, hi, mask, t));
      }
      assert items == InsertAll(mid, peelHi);
      InsertAllConcat(start, peelLo, peelHi);
    }

    /** `Subnet::parse(s, self, tag)` (src/main.rs:208-219): a range line
        goes through the range loop, any other line inserts its subnet, if
        any, with the tag applied. */
    method Parse(d: Decoders, s: string, tag: Option<u8>) returns (r: Result<(), Error>)
      requires Valid()
      modifies this
      ensures Valid()
      ensures ParseLine(d, s, tag).Ok? ==>
        r == Ok(()) && items == InsertAll(old(items), ParseLine(d, s, tag).value)
      ensures ParseLine(d, s, tag).Err? ==> r == Err(ParseLine(d, s, tag).error) && items == old(items)
    {
      if ',' in s {
        var b := RangeBounds(d, s);
        if b.Err? {
          return Err(b.error);
        }
        var (lo, hi) := b.value;
        EndBound(hi);
        InsertRange(lo.fam, lo.net, hi.net, tag);
        return Ok(());
      }
      var x := ParseSubnet(d, s);
      if x.Err? {
        return Err(x.error);
      }
      if x.value.Some? {
        var y := x.value.value.(tag := tag.GetOr(0));
        InsertOne(items, y);
        var _ := Insert(y);
      }
      r := Ok(());
    }

    /** The line loop of `read_stdin`: parse each line with no tag, drop
        its ordinary error, stop at a panic. */
    method ParseAll(d: Decoders, lines: seq<string>) returns (r: Result<(), Error>)
      requires Valid()
      modifies this
      ensures Valid()
      ensures Pipeline.Load(d, lines, old(items)).Err? ==> r == Err(Pipeline.Load(d, lines, old(items)).error)
      ensures Pipeline.Load(d, lines, old(items)).Ok? ==>
        r == Ok(()) && items == Pipeline.Load(d, lines, old(items)).value
    {
      ghost var target := Pipeline.Load(d, lines, items);
      for k := 0 to |lines|
        invariant Valid() && Pipeline.Load(d, lines[k..], items) == target
      {
        assert lines[k..][0] == lines[k] && lines[k..][1..] == lines[k + 1..];
        var e := Parse(d, lines[k], None);
        if e.Err? && Fatal(e.error) {
          return e;
        }
      }
      assert lines[|lines|..] == [];
      r := Ok(());
    }

    /** `merge(new, merge)`: insert the gap of `other` tagged 1, then
        shrink; `false` where the gap overflows. */
    method Merge(other: SubnetList, merge: bool) returns (ok: bool)
      requires Valid() && AllWellFormed(items) && other.Valid() && AllWellFormed(other.items)
      modifies this
      ensures Valid()
      ensures ok <==> Exclude(old(items), old(other.items), merge).Some?
      ensures ok ==> items == Exclude(old(items), old(other.items), merge).value
      ensures !ok ==> items == old(items)
    {
      ghost var excl := other.items;
      var g := other.Gap();
      if g.None? {
        return false;
      }
      ghost var start := items;
      InsertTagged(g.value.items, 1);
      ExcludeInput(start, excl);
      Shrink(merge);
      ok := true;
    }

    /** The loop of `merge`: insert each block of `gl` in turn with tag `t`. */
    method InsertTagged(gl: seq<Subnet>, t: u8)
      requires Valid()
      modifies this
      ensures Valid() && items == InsertAll(old(items), Tagged(gl, t))
    {
      ghost var start := items;
      for k := 0 to |gl|
        invariant Valid() && items == InsertAll(start, Tagged(gl[..k], t))
      {
        TaggedStep(start, gl, k, t);
        var _ := Insert(gl[k].(tag := t));
      }
      assert gl[..|gl|] == gl;
    }

    /** `read_stdin(reverse, exclude, merge)` on the given lines and
        exclusion file contents. */
    method ReadStdin(d: Decoders, lines: seq<string>, reverse: bool, exclude: Option<seq<string>>, merge: bool)
      returns (r: Result<(), Error>)
      requires Valid() && AllWellFormed(items)
      modifies this
      ensures Valid()
      ensures Run(d, old(items), lines, reverse, exclude, merge).Err? ==>
        r == Err(Run(d, old(items), lines, reverse, exclude, merge).error)
      ensures Run(d, old(items), lines, reverse, exclude, merge).Ok? ==>
        r == Ok(()) && items == Run(d, old(items), lines, reverse, exclude, merge).value
    {
      r := ParseAll(d, lines);
      if r.Err? {
        return;
      }
      Shrink(true);
      if exclude.Some? {
        var n := new SubnetList();
        r := n.ParseAll(d, exclude.value);
        if r.Err? {
          return;
        }
        n.Shrink(true);
        var ok := Merge(n, merge);
        if !ok {
          return Err(Overflow);
        }
      } else if reverse {
        var g := Gap();
        if g.None? {
          return Err(Overflow);
        }
        items := g.value.items;
      }
      r := Ok(());
    }

    /** `gap()`: a fresh list of the blocks between and after the entries;
        `None` where the end address of an entry overflows. */
    method Gap() returns (r: Option<SubnetList>)
      requires Valid() && AllWellFormed(items)
      ensures r.None? <==> Complement.Gap(items).None?
      ensures r.Some? ==>
        fresh(r.value) && r.value.Valid() && r.value.items == InsertAll([], Complement.Gap(items).value)
    {
      var last4: nat, last6: nat := 0, 0;
      var list := new SubnetList();
      ghost var out: seq<Subnet> := [];
      assert items[..0] == [];
      for k := 0 to |items|
        invariant AllWellFormed(items[..k]) && GapFold(items[..k]) == Some(Mark(last4, last6, out))
        invariant fresh(list) && list.Valid() && list.items == InsertAll([], out)
      {
        GapFoldNext(items, k);
        ghost var m := Mark(last4, last6, out);
        var ok;
        ok, last4, last6 := GapTurn(list, m, last4, last6, items[k]);
        if !ok {
          GapFoldStops(items, k + 1);
          return None;
        }
        out := GapStep(m, items[k]).value.out;
      }
      assert items[..|items|] == items;
      AddTails(list, Mark(last4, last6, out), last4, last6);
      r := Some(list);
    }

    /** `shrink(merge)`: one pass building the stack, then the set is
        cleared and refilled with the stack entries tagged 0. */
    method Shrink(merge: bool)
      requires Valid() && AllWellFormed(items)
      modifies this
      ensures Valid() && items == Shrunk(old(items), merge)
    {
      ghost var orig := items;
      var vec := StackPass(items, merge);
      items := [];
      Refill(vec);
      Refilled(orig, merge, items);
    }

    /** The second loop of `shrink`: insert the entries of `vec` tagged 0
        into the emptied set. */
    method Refill(vec: seq<Subnet>)
      requires Valid()
      modifies this
      ensures Valid() && forall x :: x in items <==> (x in old(items) || (x in vec && x.tag == 0))
    {
      ghost var start := items;
      for k := 0 to |vec|
        invariant Valid()
        invariant forall x :: x in items <==> (x in start || (x in vec[..k] && x.tag == 0))
      {
        assert vec[..k + 1] == vec[..k] + [vec[k]];
        if vec[k].tag == 0 {
          var _ := Insert(vec[k]);
        }
      }
      assert vec[..|vec|] == vec;
    }
  }

  /** One turn of the loop of `gap` for `item`: insert the hole below it
      and raise the bound of its family to its end; `false` where the end
      overflows. */
  method GapTurn(list: SubnetList, ghost m: Mark, last4: nat, last6: nat, item: Subnet)
    returns (ok: bool, last4': nat, last6': nat)
    requires list.Valid() && list.items == InsertAll([], m.out) && m.last4 == last4 && m.last6 == last6
    requires WellFormed(item) && Last(m, item.fam) < Pow2(Width(item.fam))
    modifies list
    ensures list.Valid() && (ok <==> GapStep(m, item).Some?)
    ensures ok ==> GapStep(m, item).value == Mark(last4', last6', GapStep(m, item).value.out)
    ensures ok ==> list.items == InsertAll([], GapStep(m, item).value.out)
  {
    var f, s := item.fam, item.net;
    var last := if f == V4 then last4 else last6;
    EndBound(item);
    AddHole(list, f, last, s);
    InsertAllConcat([], m.out, Hole(f, last, s));
    if ReachesTop(item) {
      return false, last4, last6;
    }
    var x := End(item);
    ok, last4', last6' := true, last4, last6;
    if x > last {
      if f == V4 { last4' := x; } else { last6' := x; }
    }
  }

  /** `if s > last { parse_range(list, last, s - 1, None) }`. */
  method AddHole(list: SubnetList, f: Family, last: nat, s: nat)
    requires list.Valid() && s <= Pow2(Width(f))
    modifies list
    ensures list.Valid() && list.items == InsertAll(old(list.items), Hole(f, last, s))
  {
    if s > last {
      list.InsertRange(f, last, s - 1, None);
    }
  }

  /** `if last < MAX { parse_range(list, last, MAX, None) }`. */
  method AddTail(list: SubnetList, f: Family, last: nat)
    requires list.Valid() && last < Pow2(Width(f))
    modifies list
    ensures list.Valid()
    ensures list.items == InsertAll(old(list.items), if last < Max(f) then Range(f, last, Max(f)) else [])
  {
    if last < Max(f) {
      list.InsertRange(f, last, Max(f), None);
    }
  }

  /** Both tails, IPv4 first: the list then holds every block of the gap. */
  method AddTails(list: SubnetList, ghost m: Mark, last4: nat, last6: nat)
    requires list.Valid() && list.items == InsertAll([], m.out) && m.last4 == last4 && m.last6 == last6
    requires forall g :: Last(m, g) < Pow2(Width(g))
    modifies list
    ensures list.Valid() && list.items == InsertAll([], Blocks(m))
  {
    AddTail(list, V4, last4);
    InsertAllConcat([], m.out, Tail(m, V4));
    AddTail(list, V6, last6);
    InsertAllConcat([], m.out + Tail(m, V4), Tail(m, V6));
  }

  /** The first loop of `shrink`: skip an entry the last cover contains
      (retagging the stack top), otherwise make it the cover and push it
      through `merge_vec`. */
  method StackPass(items: seq<Subnet>, merge: bool) returns (vec: seq<Subnet>)
    requires StrictlySorted(items) && AllWellFormed(items)
    ensures vec == Walk(items, merge).vec
  {
    vec := [];
    var last: Option<Subnet> := None;
    for k := 0 to |items|
      invariant Pass(vec, last) == Walk(items[..k], merge)
    {
      var i := items[k];
      PrefixFacts(items, k);
      PrefixFacts(items, k + 1);
      assert items[..k + 1][..k] == items[..k];
      ghost var p := Walk(items[..k], merge);
      assert Walk(items[..k + 1], merge) == Step(p, i, merge);
      if last.Some? && Contains(last.value, i) {
        vec := vec[..|vec| - 1] + [vec[|vec| - 1].(tag := if merge then 0 else 2)];
        continue;
      }
      if last.Some? { AfterCover(vec, last.value, i); }
      last := Some(i);
      vec := MergeVec(vec, i);
    }
    assert items[..|items|] == items;
  }

  /** The set refilled with the tag-0 stack entries is the shrunk set. */
  lemma Refilled(items: seq<Subnet>, merge: bool, got: seq<Subnet>)
    requires StrictlySorted(items) && AllWellFormed(items) && StrictlySorted(got)
    requires forall x :: x in got <==> x in Walk(items, merge).vec && x.tag == 0
    ensures got == Shrunk(items, merge)
  {
    SortedUnique(got, Shrunk(items, merge));
  }

  lemma PrefixFacts(items: seq<Subnet>, k: nat)
    requires k <= |items| && StrictlySorted(items) && AllWellFormed(items)
    ensures StrictlySorted(items[..k]) && AllWellFormed(items[..k])
  {
  }

  /** Inserting the peeled bounds one after the other and then the halved
      rest is inserting the whole split. */
  lemma PeelPlan(xs: seq<Subnet>, f: Family, lo: nat, hi: nat, mask: nat, t: u8, lo': nat, hi': nat)
    requires mask <= Width(f) && hi < Pow2(mask) && lo < hi
    requires lo' == (if lo % 2 == 1 then lo + 1 else lo) && hi' == (if hi % 2 == 0 then hi - 1 else hi)
    ensures lo' % 2 == 0 && hi' % 2 == 1 && hi' < Pow2(mask)
    ensures InsertAll(InsertAll(InsertAll(xs, PeelLow(f, lo, mask, t)), PeelHigh(f, hi, mask, t)),
                      Halve(f, lo', hi', mask, t)) == InsertAll(xs, Split(f, lo, hi, mask, t))
  {
    var peelLo, peelHi := PeelLow(f, lo, mask, t), PeelHigh(f, hi, mask, t);
    SplitPeel(f, lo, hi, mask, t);
    InsertAllConcat(xs, peelLo, peelHi);
    InsertAllConcat(xs, peelLo + peelHi, Halve(f, lo', hi', mask, t));
  }

  /** Inserting the first `k + 1` retagged blocks is inserting the first
      `k` and then block `k`. */
  lemma TaggedStep(start: seq<Subnet>, gl: seq<Subnet>, k: nat, t: u8)
    requires k < |gl|
    ensures InsertAll(start, Tagged(gl[..k + 1], t)) ==
      InsertSorted(InsertAll(start, Tagged(gl[..k], t)), gl[k].(tag := t))
  {
    assert Tagged(gl[..k + 1], t) == Tagged(gl[..k], t) + [gl[k].(tag := t)];
    InsertAllConcat(start, Tagged(gl[..k], t), [gl[k].(tag := t)]);
    InsertOne(InsertAll(start, Tagged(gl[..k], t)), gl[k].(tag := t));
  }

  /** The inner `while` of the range loop: halve both bounds and shorten the
      prefix while the lower bound is even and the upper one odd. */
  method Shift(f: Family, lo: nat, hi: nat, mask: nat, t: u8) returns (lo': nat, hi': nat, mask': nat)
    requires mask <= Width(f) && hi < Pow2(mask) && lo % 2 == 0 && hi % 2 == 1
    ensures mask' <= Width(f) && hi' < Pow2(mask') && hi' < hi
    ensures Split(f, lo', hi', mask', t) == Halve(f, lo, hi, mask, t)
  {
    lo', hi', mask' := lo, hi, mask;
    while lo' % 2 == 0 && hi' % 2 == 1
      invariant mask' <= Width(f) && hi' < Pow2(mask') && hi' <= hi
      invariant hi' == hi ==> lo' % 2 == 0 && hi' % 2 == 1
      invariant (if lo' % 2 == 0 && hi' % 2 == 1 then Halve(f, lo', hi', mask', t)
                 else Split(f, lo', hi', mask', t)) == Halve(f, lo, hi, mask, t)
      decreases hi'
    {
      HalfBelow(hi', mask');
      mask' := mask' - 1;
      lo' := lo' / 2;
      hi' := hi' / 2;
    }
  }
}
