/** `read_stdin` (src/main.rs:277-305) and `merge` (src/main.rs:307-314) as
    functions over the lines read: the lines come in as a sequence (the
    standard input and the exclusion file's contents are not read here),
    and a checked build's panic is an `Err` that ends the run. */
module Pipeline {
  import opened Bits
  import opened Subnets
  import opened OrderedSet
  import opened Aggregate
  import opened Complement
  import opened Parse
  import opened Wrappers

  /** The blocks of `xs` with their tags set to `t`. */
  function Tagged(xs: seq<Subnet>, t: u8): seq<Subnet>
  {
    seq(|xs|, j requires 0 <= j < |xs| => xs[j].(tag := t))
  }

  /** `Subnet::parse(line, list, None).ok()` for each line in turn: what a
      line yields is inserted, an ordinary error skips the line, and a panic
      stops everything. The set stays sorted and canonical, and lines add
      only tag-0 blocks. */
  function Load(d: Decoders, lines: seq<string>, xs: seq<Subnet>): (r: Result<seq<Subnet>, Error>)
    ensures r.Err? ==> Fatal(r.error)
    ensures r.Ok? && StrictlySorted(xs) ==> StrictlySorted(r.value)
    ensures r.Ok? && AllWellFormed(xs) ==> AllWellFormed(r.value)
    ensures r.Ok? && AllTagZero(xs) ==> AllTagZero(r.value)
    ensures r.Ok? ==> forall x :: x in xs ==> x in r.value
    decreases |lines|
  {
    if lines == [] then Ok(xs)
    else
      match ParseLine(d, lines[0], None)
      case Ok(bs) =>
        ParseLineWellFormed(d, lines[0], None);
        LoadStep(xs, bs);
        Load(d, lines[1..], InsertAll(xs, bs))
      case Err(Rejected) => Load(d, lines[1..], xs)
      case Err(e) => Err(e)
  }

  /** `line` parses, with no tag, to blocks among which `x` is. */
  predicate LineYields(d: Decoders, line: string, x: Subnet)
  {
    ParseLine(d, line, None).Ok? && x in ParseLine(d, line, None).value
  }

  /** Some line of `lines` yields `x`. */
  predicate Yields(d: Decoders, lines: seq<string>, x: Subnet)
  {
    exists k :: 0 <= k < |lines| && LineYields(d, lines[k], x)
  }

  /** Some block that a line of `lines` yields covers `a` of family `f`. */
  ghost predicate LinesCover(d: Decoders, lines: seq<string>, f: Family, a: nat)
  {
    exists x :: Yields(d, lines, x) && Covers(x, f, a)
  }

  /** When no line panics, the loaded set is `xs` together with exactly
      the blocks of the lines that parse: a skipped line adds nothing. */
  lemma {:induction false} LoadMembers(d: Decoders, lines: seq<string>, xs: seq<Subnet>)
    requires Load(d, lines, xs).Ok?
    ensures forall x :: x in Load(d, lines, xs).value <==> x in xs || Yields(d, lines, x)
    decreases |lines|
  {
    if lines != [] {
      YieldsFirst(d, lines);
      match ParseLine(d, lines[0], None)
      case Ok(bs) =>
        LoadMembers(d, lines[1..], InsertAll(xs, bs));
      case Err(_) =>
        LoadMembers(d, lines[1..], xs);
    }
  }

  lemma YieldsFirst(d: Decoders, lines: seq<string>)
    requires lines != []
    ensures forall x :: Yields(d, lines, x) <==> LineYields(d, lines[0], x) || Yields(d, lines[1..], x)
  {
    forall x ensures Yields(d, lines, x) <==> LineYields(d, lines[0], x) || Yields(d, lines[1..], x) {
      if Yields(d, lines, x) {
        var k :| 0 <= k < |lines| && LineYields(d, lines[k], x);
        if k > 0 {
          assert lines[1..][k - 1] == lines[k];
        }
      }
      if Yields(d, lines[1..], x) {
        var k :| 0 <= k < |lines[1..]| && LineYields(d, lines[1..][k], x);
        assert lines[k + 1] == lines[1..][k];
      }
    }
  }

  /** When no line panics, the loaded set covers exactly the addresses of
      `xs` and of the blocks of the lines that parse. */
  lemma LoadCovers(d: Decoders, lines: seq<string>, xs: seq<Subnet>, f: Family, a: nat)
    requires Load(d, lines, xs).Ok?
    ensures CoversAny(Load(d, lines, xs).value, f, a) <==> CoversAny(xs, f, a) || LinesCover(d, lines, f, a)
  {
    var r := Load(d, lines, xs).value;
    LoadMembers(d, lines, xs);
    if CoversAny(r, f, a) {
      var j :| 0 <= j < |r| && Covers(r[j], f, a);
      assert r[j] in r;
    }
    if CoversAny(xs, f, a) {
      var k :| 0 <= k < |xs| && Covers(xs[k], f, a);
      assert xs[k] in r;
    }
    if LinesCover(d, lines, f, a) {
      var x :| Yields(d, lines, x) && Covers(x, f, a);
      assert x in r;
    }
  }

  lemma LoadStep(xs: seq<Subnet>, bs: seq<Subnet>)
    requires AllWellFormed(bs) && AllTagZero(bs)
    ensures AllWellFormed(xs) ==> AllWellFormed(InsertAll(xs, bs))
    ensures AllTagZero(xs) ==> AllTagZero(InsertAll(xs, bs))
  {
    if AllWellFormed(xs) {
      InsertAllWellFormed(xs, bs);
    }
    var r := InsertAll(xs, bs);
    if AllTagZero(xs) {
      forall j | 0 <= j < |r| ensures r[j].tag == 0 {
        assert r[j] in r;
        if r[j] in xs {
          var k :| 0 <= k < |xs| && xs[k] == r[j];
        } else {
          var k :| 0 <= k < |bs| && bs[k] == r[j];
        }
      }
    }
  }

  /** `merge(new, merge)`: the gap of the exclusion list, tagged 1, is
      inserted in increasing order and the set shrunk; `None` where the gap
      overflows. */
  function Exclude(base: seq<Subnet>, excl: seq<Subnet>, merge: bool): (r: Option<seq<Subnet>>)
    requires StrictlySorted(base) && AllWellFormed(base)
    requires StrictlySorted(excl) && AllWellFormed(excl)
    ensures r.None? <==> Gap(excl).None?
  {
    match Gap(excl)
    case None => None
    case Some(g) =>
      ExcludeInput(base, excl);
      Some(Shrunk(InsertAll(base, Tagged(InsertAll([], g), 1)), merge))
  }

  /** `merge` brings in no address from outside the set and the gap of the
      exclusion list: whatever it keeps was covered by one of the two. */
  lemma ExcludeSound(base: seq<Subnet>, excl: seq<Subnet>, merge: bool, f: Family, a: nat)
    requires StrictlySorted(base) && AllWellFormed(base)
    requires StrictlySorted(excl) && AllWellFormed(excl)
    requires Exclude(base, excl, merge).Some?
    ensures CoversAny(Exclude(base, excl, merge).value, f, a) ==>
      CoversAny(base, f, a) || CoversAny(Gap(excl).value, f, a)
  {
    var g := Gap(excl).value;
    var t := Tagged(InsertAll([], g), 1);
    var x := InsertAll(base, t);
    ExcludeInput(base, excl);
    assert Exclude(base, excl, merge).value == Shrunk(x, merge);
    ShrinkSound(x, merge, f, a);
    InsertAllCovers(base, t, f, a);
    TaggedCovers(InsertAll([], g), 1, f, a);
    InsertAllCovers([], g, f, a);
  }

  /** An address covered after inserting `bs` into `xs` is covered by one of them. */
  lemma InsertAllCovers(xs: seq<Subnet>, bs: seq<Subnet>, f: Family, a: nat)
    ensures CoversAny(InsertAll(xs, bs), f, a) ==> CoversAny(xs, f, a) || CoversAny(bs, f, a)
  {
    var x := InsertAll(xs, bs);
    if CoversAny(x, f, a) {
      var j :| 0 <= j < |x| && Covers(x[j], f, a);
      assert x[j] in x;
      if x[j] in xs {
        var k :| 0 <= k < |xs| && xs[k] == x[j];
      } else {
        var k :| 0 <= k < |bs| && bs[k] == x[j];
      }
    }
  }

  /** A tag covers no address. */
  lemma TaggedCovers(xs: seq<Subnet>, t: u8, f: Family, a: nat)
    ensures CoversAny(Tagged(xs, t), f, a) <==> CoversAny(xs, f, a)
  {
    var r := Tagged(xs, t);
    if CoversAny(r, f, a) {
      var j :| 0 <= j < |r| && Covers(r[j], f, a);
      assert Covers(xs[j], f, a);
    }
    if CoversAny(xs, f, a) {
      var j :| 0 <= j < |xs| && Covers(xs[j], f, a);
      assert Covers(r[j], f, a);
    }
  }

  /** The set `merge` shrinks is sorted and canonical. */
  lemma ExcludeInput(base: seq<Subnet>, excl: seq<Subnet>)
    requires StrictlySorted(base) && AllWellFormed(base)
    requires StrictlySorted(excl) && AllWellFormed(excl) && Gap(excl).Some?
    ensures StrictlySorted(InsertAll(base, Tagged(InsertAll([], Gap(excl).value), 1)))
    ensures AllWellFormed(InsertAll(base, Tagged(InsertAll([], Gap(excl).value), 1)))
  {
    var g := Gap(excl).value;
    GapWellFormed(excl);
    InsertAllWellFormed([], g);
    TaggedWellFormed(InsertAll([], g), 1);
    InsertAllWellFormed(base, Tagged(InsertAll([], g), 1));
  }

  lemma GapWellFormed(excl: seq<Subnet>)
    requires StrictlySorted(excl) && AllWellFormed(excl) && Gap(excl).Some?
    ensures AllWellFormed(Gap(excl).value)
  {
    GapCovers(excl, V4);
  }

  /** Retagging keeps a block canonical. */
  lemma TaggedWellFormed(xs: seq<Subnet>, t: u8)
    requires AllWellFormed(xs)
    ensures AllWellFormed(Tagged(xs, t))
  {
    var r := Tagged(xs, t);
    forall j | 0 <= j < |r| ensures WellFormed(r[j]) {
      assert WellFormed(xs[j]);
    }
  }

  /** `read_stdin(reverse, exclude, merge)` from the set `xs`: load the
      lines and shrink with merging; then, with an exclusion file, load and
      shrink it and `merge` with it; or else, when reversing, replace the
      set by its gap. */
  function Run(d: Decoders, xs: seq<Subnet>, lines: seq<string>, reverse: bool,
               exclude: Option<seq<string>>, merge: bool): Result<seq<Subnet>, Error>
    requires StrictlySorted(xs) && AllWellFormed(xs)
  {
    match Load(d, lines, xs)
    case Err(e) => Err(e)
    case Ok(b0) =>
      var b := Shrunk(b0, true);
      if exclude.Some? then
        match Load(d, exclude.value, [])
        case Err(e) => Err(e)
        case Ok(n0) =>
          match Exclude(b, Shrunk(n0, true), merge)
          case None => Err(Overflow)
          case Some(r) => Ok(r)
      else if reverse then
        match Gap(b)
        case None => Err(Overflow)
        case Some(g) => Ok(InsertAll([], g))
      else Ok(b)
  }

  /** Whatever the run leaves in the set is sorted, canonical, tagged 0 and
      pairwise disjoint, and a run only fails by a panic. */
  lemma RunOutput(d: Decoders, xs: seq<Subnet>, lines: seq<string>, reverse: bool,
                  exclude: Option<seq<string>>, merge: bool)
    requires StrictlySorted(xs) && AllWellFormed(xs)
    ensures Run(d, xs, lines, reverse, exclude, merge).Err? ==>
      Fatal(Run(d, xs, lines, reverse, exclude, merge).error)
    ensures Run(d, xs, lines, reverse, exclude, merge).Ok? ==>
      var r := Run(d, xs, lines, reverse, exclude, merge).value;
      StrictlySorted(r) && AllWellFormed(r) && AllTagZero(r) && PairwiseDisjoint(r)
  {
    if Run(d, xs, lines, reverse, exclude, merge).Ok? && exclude.None? && reverse {
      var b := Shrunk(Load(d, lines, xs).value, true);
      var g := Gap(b).value;
      GapCovers(b, V4);
      SameMembers(g, InsertAll([], g));
    }
  }

  /** A run with neither an exclusion file nor reversal shrinks the
      loaded set: it never covers an address that neither `xs` nor a
      parsed line covered, and with no `/0` ahead of the other family it
      covers exactly those. */
  lemma RunPlain(d: Decoders, xs: seq<Subnet>, lines: seq<string>, merge: bool, f: Family, a: nat)
    requires StrictlySorted(xs) && AllWellFormed(xs) && AllTagZero(xs) && Load(d, lines, xs).Ok?
    ensures Run(d, xs, lines, false, None, merge) == Ok(Shrunk(Load(d, lines, xs).value, true))
    ensures CoversAny(Run(d, xs, lines, false, None, merge).value, f, a) ==>
      CoversAny(xs, f, a) || LinesCover(d, lines, f, a)
    ensures NoCrossZero(Load(d, lines, xs).value) ==>
      (CoversAny(Run(d, xs, lines, false, None, merge).value, f, a) <==>
       CoversAny(xs, f, a) || LinesCover(d, lines, f, a))
  {
    var l := Load(d, lines, xs).value;
    LoadCovers(d, lines, xs, f, a);
    ShrinkSound(l, true, f, a);
    if NoCrossZero(l) {
      ShrinkCoverage(l, f, a);
    }
  }

  /** A reversing run without an exclusion file emits the complement of
      what was loaded: below the top address of each family it covers
      exactly the addresses that neither `xs` nor a parsed line covered,
      and the top address exactly when the one below it is uncovered. */
  lemma RunReverse(d: Decoders, xs: seq<Subnet>, lines: seq<string>, merge: bool, f: Family, a: nat)
    requires StrictlySorted(xs) && AllWellFormed(xs) && AllTagZero(xs) && Load(d, lines, xs).Ok?
    requires NoCrossZero(Load(d, lines, xs).value) && Run(d, xs, lines, true, None, merge).Ok?
    ensures a < Max(f) ==>
      (CoversAny(Run(d, xs, lines, true, None, merge).value, f, a) <==>
       !(CoversAny(xs, f, a) || LinesCover(d, lines, f, a)))
    ensures CoversAny(Run(d, xs, lines, true, None, merge).value, f, Max(f)) <==>
      !(CoversAny(xs, f, Max(f) - 1) || LinesCover(d, lines, f, Max(f) - 1))
  {
    ReverseIsGap(d, xs, lines, merge);
    LoadedComplement(d, xs, lines, Run(d, xs, lines, true, None, merge).value, f, a);
  }

  lemma LoadedComplement(d: Decoders, xs: seq<Subnet>, lines: seq<string>, r: seq<Subnet>, f: Family, a: nat)
    requires StrictlySorted(xs) && AllWellFormed(xs) && AllTagZero(xs) && Load(d, lines, xs).Ok?
    requires NoCrossZero(Load(d, lines, xs).value) && Gap(Shrunk(Load(d, lines, xs).value, true)).Some?
    requires r == InsertAll([], Gap(Shrunk(Load(d, lines, xs).value, true)).value)
    ensures a < Max(f) ==> (CoversAny(r, f, a) <==> !(CoversAny(xs, f, a) || LinesCover(d, lines, f, a)))
    ensures CoversAny(r, f, Max(f)) <==> !(CoversAny(xs, f, Max(f) - 1) || LinesCover(d, lines, f, Max(f) - 1))
  {
    ComplementOf(Load(d, lines, xs).value, f, a);
    LoadCovers(d, lines, xs, f, a);
    LoadCovers(d, lines, xs, f, Max(f) - 1);
  }

  lemma ReverseIsGap(d: Decoders, xs: seq<Subnet>, lines: seq<string>, merge: bool)
    requires StrictlySorted(xs) && AllWellFormed(xs) && Load(d, lines, xs).Ok?
    requires Run(d, xs, lines, true, None, merge).Ok?
    ensures Gap(Shrunk(Load(d, lines, xs).value, true)).Some?
    ensures Run(d, xs, lines, true, None, merge).value ==
      InsertAll([], Gap(Shrunk(Load(d, lines, xs).value, true)).value)
  {
  }

  /** The sorted gap of a shrunk set is the complement of the set before
      shrinking, up to the top address. */
  lemma ComplementOf(l: seq<Subnet>, f: Family, a: nat)
    requires StrictlySorted(l) && AllWellFormed(l) && AllTagZero(l) && NoCrossZero(l)
    requires Gap(Shrunk(l, true)).Some?
    ensures a < Max(f) ==>
      (CoversAny(InsertAll([], Gap(Shrunk(l, true)).value), f, a) <==> !CoversAny(l, f, a))
    ensures CoversAny(InsertAll([], Gap(Shrunk(l, true)).value), f, Max(f)) <==> !CoversAny(l, f, Max(f) - 1)
  {
    var b := Shrunk(l, true);
    var g := Gap(b).value;
    GapCovers(b, f);
    SameMembers(g, InsertAll([], g));
    ShrinkCoverage(l, f, a);
    ShrinkCoverage(l, f, Max(f) - 1);
  }

  /** A sorted arrangement of the blocks of `g` keeps `g`'s properties. */
  lemma SameMembers(g: seq<Subnet>, r: seq<Subnet>)
    requires OutOk(g) && StrictlySorted(r) && forall x :: x in r <==> x in g
    ensures AllWellFormed(r) && AllTagZero(r) && PairwiseDisjoint(r)
    ensures forall f, a: nat :: CoversAny(r, f, a) <==> CoversAny(g, f, a)
  {
    assert forall j :: 0 <= j < |r| ==> r[j] in g;
    forall j, k | 0 <= j < k < |r| ensures Disjoint(r[j], r[k]) {
      var p :| 0 <= p < |g| && g[p] == r[j];
      var q :| 0 <= q < |g| && g[q] == r[k];
      LessTotal(r[j], r[k]);
      assert p != q;
      if p > q {
        assert Disjoint(g[q], g[p]);
      }
    }
    forall f, a: nat ensures CoversAny(r, f, a) <==> CoversAny(g, f, a) {
      if CoversAny(r, f, a) {
        var j :| 0 <= j < |r| && Covers(r[j], f, a);
        var p :| 0 <= p < |g| && g[p] == r[j];
      }
      if CoversAny(g, f, a) {
        var p :| 0 <= p < |g| && Covers(g[p], f, a);
        assert g[p] in r;
        var j :| 0 <= j < |r| && r[j] == g[p];
      }
    }
  }
}
