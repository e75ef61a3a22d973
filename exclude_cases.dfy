/** The exclusion merge of `read_stdin` (src/main.rs:290-299, 308-314) on
    the smallest input: the set `{1.1.1.0/24}` and an empty exclusion list.
    The gap of the empty list is `{0.0.0.0/0, ::/0}`; tagged 1 and inserted,
    the IPv4 `/0` becomes the cover of everything after it, the IPv6 `/0`
    included, and the redundancy pass rewrites its tag: to 0 with `merge`,
    so the whole IPv4 space is the result, and to 2 without, so nothing is. */
module ExcludeScenarios {
  import opened Bits
  import opened Subnets
  import opened OrderedSet
  import opened Aggregate
  import opened Complement
  import opened Pipeline
  import opened Wrappers
  import opened ShrinkScenarios

  /** `1.1.1.0/24`. */
  const Base := Subnet(V4, 0x0101_0100, 24, 0)
  /** `0.0.0.0/0` and `::/0` with the exclusion tag 1. */
  const All4 := Subnet(V4, 0, 0, 1)
  const All6 := Subnet(V6, 0, 0, 1)

  lemma Facts()
    ensures WellFormed(Base) && WellFormed(All4) && WellFormed(All6)
    ensures Less(All4, Base) && Less(Base, All6) && Less(All4, All6)
    ensures Contains(All4, Base) && Contains(All4, All6)
  {
    BaseBlock();
    ZeroBlocks();
  }

  lemma ZeroBlocks()
    ensures WellFormed(All4) && WellFormed(All6)
  {
    All4Block();
    All6Block();
  }

  lemma All4Block()
    ensures WellFormed(All4)
  {
    DivPow2(0, 32, 0, 0);
  }

  lemma All6Block()
    ensures WellFormed(All6)
  {
    DivPow2(0, 128, 0, 0);
  }

  lemma BaseBlock()
    ensures WellFormed(Base)
  {
    Pow2Values();
    DivPow2(Base.net, 8, 0x01_0101, 0);
  }

  /** The tagged gap of the empty list, in order. */
  lemma TaggedGap()
    ensures Gap([]).Some? && Tagged(InsertAll([], Gap([]).value), 1) == [All4, All6]
  {
    GapEmpty();
    ZeroPair(Subnet(V4, 0, 0, 0), Subnet(V6, 0, 0, 0));
    TaggedTwo(Subnet(V4, 0, 0, 0), Subnet(V6, 0, 0, 0), 1);
  }

  /** Two blocks in order are inserted into the empty set in that order. */
  lemma ZeroPair(x: Subnet, y: Subnet)
    requires Less(x, y)
    ensures InsertAll([], [x, y]) == [x, y]
  {
    InsertAllSorted([x, y]);
  }

  lemma TaggedTwo(x: Subnet, y: Subnet, t: u8)
    ensures Tagged([x, y], t) == [x.(tag := t), y.(tag := t)]
  {
  }

  /** The exclusion merge spelled out for an exclusion list with a gap. */
  lemma ExcludeUnfold(base: seq<Subnet>, excl: seq<Subnet>, merge: bool)
    requires StrictlySorted(base) && AllWellFormed(base)
    requires StrictlySorted(excl) && AllWellFormed(excl)
    requires Gap(excl).Some?
    ensures StrictlySorted(InsertAll(base, Tagged(InsertAll([], Gap(excl).value), 1)))
    ensures AllWellFormed(InsertAll(base, Tagged(InsertAll([], Gap(excl).value), 1)))
    ensures Exclude(base, excl, merge) ==
      Some(Shrunk(InsertAll(base, Tagged(InsertAll([], Gap(excl).value), 1)), merge))
  {
    ExcludeInput(base, excl);
  }

  lemma InsertFirst()
    ensures InsertSorted([Base], All4) == [All4, Base]
  {
    assert Less(All4, Base);
  }

  lemma InsertSecond()
    ensures InsertSorted([All4, Base], All6) == [All4, Base, All6]
  {
    assert !Less(All6, All4) && All6 != All4;
    assert [All4, Base][1..] == [Base];
    assert InsertSorted([Base], All6) == [Base, All6] by {
      assert !Less(All6, Base) && All6 != Base;
      assert [Base][1..] == [];
    }
  }

  /** The set after the tagged gap is inserted. */
  lemma Inserted()
    ensures InsertAll([Base], [All4, All6]) == [All4, Base, All6]
  {
    InsertFirst();
    InsertSecond();
    assert [All4, All6][1..] == [All6];
    InsertOne([All4, Base], All6);
  }

  lemma Sorted3()
    ensures StrictlySorted([All4, Base, All6]) && AllWellFormed([All4, Base, All6])
  {
    Facts();
    Three(All4, Base, All6);
  }

  /** The first two turns: the IPv4 `/0` is pushed and becomes the cover;
      `1.1.1.0/24` is contained and retags it. */
  lemma WalkedTwo(merge: bool)
    ensures StrictlySorted([All4, Base]) && AllWellFormed([All4, Base])
    ensures Walk([All4, Base], merge) == Pass([All4.(tag := if merge then 0 else 2)], Some(All4))
  {
    Facts();
    WalkOne(All4, merge);
    WalkTwo(All4, Base, merge);
    StepCovered(All4, All4, Base, merge);
  }

  /** The third turn: `::/0` is contained in the IPv4 `/0` too. */
  lemma Walked(merge: bool)
    ensures StrictlySorted([All4, Base, All6]) && AllWellFormed([All4, Base, All6])
    ensures Walk([All4, Base, All6], merge).vec == [All4.(tag := if merge then 0 else 2)]
  {
    Facts();
    WalkThree(All4, Base, All6, merge);
    WalkedTwo(merge);
    StepCovered(All4.(tag := if merge then 0 else 2), All4, All6, merge);
  }

  /** `merge` shrinks the set holding the base entry and the tagged gap. */
  lemma ExcludeIs(merge: bool)
    ensures StrictlySorted([Base]) && AllWellFormed([Base])
    ensures StrictlySorted([All4, Base, All6]) && AllWellFormed([All4, Base, All6])
    ensures Exclude([Base], [], merge) == Some(Shrunk([All4, Base, All6], merge))
  {
    BaseBlock();
    TaggedGap();
    ExcludeUnfold([Base], [], merge);
    Inserted();
    Sorted3();
  }

  lemma ShrunkIs(merge: bool)
    ensures StrictlySorted([All4, Base, All6]) && AllWellFormed([All4, Base, All6])
    ensures Shrunk([All4, Base, All6], merge) == if merge then [Subnet(V4, 0, 0, 0)] else []
  {
    Walked(merge);
    ShrunkIsKeep([All4, Base, All6], merge);
    KeepOne(All4.(tag := if merge then 0 else 2));
  }

  /** Excluding nothing from `{1.1.1.0/24}`: with `merge` the result is the
      whole IPv4 space, `{0.0.0.0/0}`; without it the result is empty. */
  lemma ExcludeNothing()
    ensures StrictlySorted([Base]) && AllWellFormed([Base])
    ensures Exclude([Base], [], true) == Some([Subnet(V4, 0, 0, 0)])
    ensures Exclude([Base], [], false) == Some([])
  {
    ExcludeIs(true);
    ExcludeIs(false);
    ShrunkIs(true);
    ShrunkIs(false);
  }
}
