/** Concrete runs of `shrink` (src/main.rs:320-340): two standard cases
    (two adjacent halves become their parent, and a block swallows the
    blocks inside it) and the family-blind zero-mask test at work. */
module ShrinkScenarios {
  import opened Bits
  import opened Subnets
  import opened OrderedSet
  import opened Aggregate
  import opened Wrappers

  /** `10.0.0.0/25` and `10.0.0.128/25`. */
  const LowHalf := Subnet(V4, 0x0A00_0000, 25, 0)
  const HighHalf := Subnet(V4, 0x0A00_0080, 25, 0)
  /** `10.0.0.0/8` and `10.1.2.3/32`. */
  const Wide := Subnet(V4, 0x0A00_0000, 8, 0)
  const Host := Subnet(V4, 0x0A01_0203, 32, 0)

  lemma HalvesFacts()
    ensures WellFormed(LowHalf) && WellFormed(HighHalf)
    ensures IsNext(LowHalf, HighHalf) && !Contains(LowHalf, HighHalf)
  {
    HalvesBlocks();
    HalvesPair();
  }

  lemma HalvesBlocks()
    ensures WellFormed(LowHalf) && WellFormed(HighHalf)
  {
    Pow2Values();
    DivPow2(LowHalf.net, 7, 0x14_0000, 0);
    DivPow2(HighHalf.net, 7, 0x14_0001, 0);
  }

  lemma HalvesPair()
    ensures IsNext(LowHalf, HighHalf) && !Contains(LowHalf, HighHalf)
  {
    Pow2Values();
    DivPow2(LowHalf.net, 7, 0x14_0000, 0);
    DivPow2(HighHalf.net, 7, 0x14_0001, 0);
  }

  /** The walk of three entries is one step after the walk of the first
      two. */
  lemma WalkThree(x: Subnet, y: Subnet, z: Subnet, merge: bool)
    requires WellFormed(x) && WellFormed(y) && WellFormed(z) && Less(x, y) && Less(y, z) && Less(x, z)
    ensures StrictlySorted([x, y, z]) && AllWellFormed([x, y, z])
    ensures StrictlySorted([x, y]) && AllWellFormed([x, y])
    ensures Walk([x, y, z], merge) == Step(Walk([x, y], merge), z, merge)
  {
    Three(x, y, z);
    assert [x, y, z][..2] == [x, y];
  }

  lemma Three(x: Subnet, y: Subnet, z: Subnet)
    requires WellFormed(x) && WellFormed(y) && WellFormed(z) && Less(x, y) && Less(y, z) && Less(x, z)
    ensures StrictlySorted([x, y, z]) && AllWellFormed([x, y, z])
    ensures StrictlySorted([x, y]) && AllWellFormed([x, y])
  {
  }

  /** A step whose entry lies in the cover retags the top of the stack. */
  lemma StepCovered(v: Subnet, l: Subnet, i: Subnet, merge: bool)
    requires WellFormed(v) && WellFormed(l) && WellFormed(i) && Less(l, i) && Contains(l, i)
    requires v.fam == l.fam && v.net <= l.net && End(v) == End(l)
    ensures Ordered([v]) && AllWellFormed([v])
    ensures Step(Pass([v], Some(l)), i, merge) == Pass([v.(tag := if merge then 0 else 2)], Some(l))
  {
    assert Retag([v], merge) == [v.(tag := if merge then 0 else 2)];
  }

  /** A step whose entry lies after the cover, in the other family than
      the one-entry stack, pushes it. */
  lemma StepPushed(v: Subnet, l: Subnet, i: Subnet, merge: bool)
    requires WellFormed(v) && WellFormed(l) && WellFormed(i) && Less(l, i) && !Contains(l, i)
    requires v.fam == l.fam && v.net <= l.net && End(v) == End(l) && v.fam != i.fam
    ensures Ordered([v]) && AllWellFormed([v])
    ensures Step(Pass([v], Some(l)), i, merge) == Pass([v, i], Some(i))
  {
    AfterCover([v], l, i);
    assert MergeInto([v], i) == [v] + [i];
  }

  /** A stack of one entry keeps it exactly when its tag is 0. */
  lemma KeepOne(x: Subnet)
    ensures KeepTagZero([x]) == if x.tag == 0 then [x] else []
  {
    assert [x][1..] == [];
  }

  /** `shrink` keeps the entries of the walked stack tagged 0. */
  lemma ShrunkIsKeep(items: seq<Subnet>, merge: bool)
    requires StrictlySorted(items) && AllWellFormed(items)
    ensures Shrunk(items, merge) == KeepTagZero(Walk(items, merge).vec)
  {
  }

  /** The walk of one entry pushes it. */
  lemma WalkOne(x: Subnet, merge: bool)
    requires WellFormed(x)
    ensures StrictlySorted([x]) && AllWellFormed([x])
    ensures Walk([x], merge) == Pass([x], Some(x))
  {
    assert [x][..0] == [];
  }

  /** The walk of two entries is one step after the walk of the first. */
  lemma WalkTwo(x: Subnet, y: Subnet, merge: bool)
    requires WellFormed(x) && WellFormed(y) && Less(x, y)
    ensures StrictlySorted([x, y]) && AllWellFormed([x, y]) && AllWellFormed([x])
    ensures Walk([x, y], merge) == Step(Walk([x], merge), y, merge)
  {
    assert [x, y][..1] == [x];
  }

  lemma HalvesWalk()
    ensures StrictlySorted([LowHalf, HighHalf]) && AllWellFormed([LowHalf, HighHalf])
    ensures Walk([LowHalf, HighHalf], true).vec == [Parent(LowHalf)]
  {
    HalvesFacts();
    WalkOne(LowHalf, true);
    WalkTwo(LowHalf, HighHalf, true);
  }

  /** `10.0.0.0/25` and `10.0.0.128/25` shrink to `10.0.0.0/24`. */
  lemma ShrinkHalves()
    ensures StrictlySorted([LowHalf, HighHalf]) && AllWellFormed([LowHalf, HighHalf])
    ensures Shrunk([LowHalf, HighHalf], true) == [Subnet(V4, 0x0A00_0000, 24, 0)]
  {
    HalvesWalk();
    assert Parent(LowHalf) == Subnet(V4, 0x0A00_0000, 24, 0);
    ShrunkFromWalk([LowHalf, HighHalf]);
  }

  lemma AbsorbFacts()
    ensures WellFormed(Wide) && WellFormed(Host) && Contains(Wide, Host)
  {
    AbsorbBlocks();
    Pow2Values();
    Pow2Mid();
    DivPow2(Host.net, 24, 0x0A, 0x01_0203);
  }

  lemma AbsorbBlocks()
    ensures WellFormed(Wide) && WellFormed(Host)
  {
    Pow2Values();
    Pow2Mid();
    DivPow2(Wide.net, 24, 0x0A, 0);
    DivPow2(Host.net, 0, Host.net, 0);
  }

  lemma AbsorbFirst()
    ensures AllWellFormed([Wide]) && Walk([Wide], true) == Pass([Wide], Some(Wide))
  {
    AbsorbFacts();
    WalkOne(Wide, true);
  }

  lemma AbsorbStep()
    ensures WellFormed(Wide) && WellFormed(Host) && Less(Wide, Host)
    ensures Step(Pass([Wide], Some(Wide)), Host, true) == Pass([Wide], Some(Wide))
  {
    AbsorbFacts();
    assert Retag([Wide], true) == [Wide];
  }

  lemma AbsorbWalk()
    ensures StrictlySorted([Wide, Host]) && AllWellFormed([Wide, Host])
    ensures Walk([Wide, Host], true).vec == [Wide]
  {
    AbsorbStep();
    WalkTwo(Wide, Host, true);
    AbsorbFirst();
  }

  /** `10.0.0.0/8` swallows `10.1.2.3/32`. */
  lemma ShrinkAbsorbs()
    ensures StrictlySorted([Wide, Host]) && AllWellFormed([Wide, Host])
    ensures Shrunk([Wide, Host], true) == [Wide]
  {
    AbsorbWalk();
    ShrunkFromWalk([Wide, Host]);
  }

  /** `0.0.0.0/0` and `::1/128`. */
  const AllV4 := Subnet(V4, 0, 0, 0)
  const HostV6 := Subnet(V6, 1, 128, 0)

  lemma CrossFacts()
    ensures WellFormed(AllV4) && WellFormed(HostV6) && Contains(AllV4, HostV6) && Less(AllV4, HostV6)
    ensures AllWellFormed([AllV4]) && Walk([AllV4], true) == Pass([AllV4], Some(AllV4))
  {
    HostV6Block();
    WalkOne(AllV4, true);
  }

  lemma HostV6Block()
    ensures WellFormed(AllV4) && WellFormed(HostV6)
  {
    AllV4Block();
    Pow2Le(1, 128);
    DivPow2(1, 0, 1, 0);
  }

  lemma AllV4Block()
    ensures WellFormed(AllV4)
  {
    DivPow2(0, 32, 0, 0);
  }

  lemma CrossStep()
    ensures WellFormed(AllV4) && WellFormed(HostV6)
    ensures Step(Pass([AllV4], Some(AllV4)), HostV6, true) == Pass([AllV4], Some(AllV4))
  {
    CrossFacts();
    assert Retag([AllV4], true) == [AllV4];
  }

  lemma CrossWalk()
    ensures StrictlySorted([AllV4, HostV6]) && AllWellFormed([AllV4, HostV6])
    ensures Walk([AllV4, HostV6], true).vec == [AllV4]
  {
    CrossStep();
    CrossFacts();
    WalkTwo(AllV4, HostV6, true);
  }

  /** The zero mask of `0.0.0.0/0` contains `::1/128` although it is of the
      other family, so `shrink` drops the IPv6 entry and its address. */
  lemma ShrinkCrossFamily()
    ensures StrictlySorted([AllV4, HostV6]) && AllWellFormed([AllV4, HostV6])
    ensures Shrunk([AllV4, HostV6], true) == [AllV4]
    ensures CoversAny([AllV4, HostV6], V6, 1) && !CoversAny(Shrunk([AllV4, HostV6], true), V6, 1)
  {
    CrossShrunk();
    CrossLost();
  }

  lemma CrossShrunk()
    ensures StrictlySorted([AllV4, HostV6]) && AllWellFormed([AllV4, HostV6])
    ensures Shrunk([AllV4, HostV6], true) == [AllV4]
  {
    CrossWalk();
    ShrunkIsKeep([AllV4, HostV6], true);
    KeepOne(AllV4);
  }

  lemma CrossLost()
    ensures CoversAny([AllV4, HostV6], V6, 1) && !CoversAny([AllV4], V6, 1)
  {
    Pow2Values();
    assert Covers([AllV4, HostV6][1], V6, 1);
  }

  /** `0.0.0.0/1` and `128.0.0.0/1`. */
  const LowV4 := Subnet(V4, 0, 1, 0)
  const HighV4 := Subnet(V4, 0x8000_0000, 1, 0)

  lemma HalvesV4Facts()
    ensures WellFormed(LowV4) && WellFormed(HighV4) && WellFormed(HostV6)
    ensures IsNext(LowV4, HighV4) && !Contains(LowV4, HighV4) && !Contains(HighV4, HostV6)
    ensures Parent(LowV4) == AllV4 && !IsNext(AllV4, HostV6)
  {
    HalvesV4Blocks();
    HalvesV4Pair();
    HostV6Block();
  }

  lemma HalvesV4Blocks()
    ensures WellFormed(LowV4) && WellFormed(HighV4)
  {
    Pow2Values();
    Pow2Mid();
    DivPow2(0, 31, 0, 0);
    DivPow2(HighV4.net, 31, 1, 0);
  }

  lemma HalvesV4Pair()
    ensures IsNext(LowV4, HighV4) && !Contains(LowV4, HighV4)
  {
    Pow2Values();
    Pow2Mid();
    DivPow2(0, 31, 0, 0);
    DivPow2(HighV4.net, 31, 1, 0);
  }

  lemma MergeV4Walk()
    ensures StrictlySorted([LowV4, HighV4]) && AllWellFormed([LowV4, HighV4])
    ensures Walk([LowV4, HighV4], true) == Pass([AllV4], Some(HighV4))
  {
    HalvesV4Facts();
    WalkOne(LowV4, true);
    WalkTwo(LowV4, HighV4, true);
  }

  lemma MergeV4ThenV6Walk()
    ensures StrictlySorted([LowV4, HighV4, HostV6]) && AllWellFormed([LowV4, HighV4, HostV6])
    ensures Walk([LowV4, HighV4, HostV6], true).vec == [AllV4, HostV6]
  {
    MergeV4Walk();
    HalvesV4Facts();
    WalkThree(LowV4, HighV4, HostV6, true);
    StepPushed(AllV4, HighV4, HostV6, true);
  }

  lemma MergeV4ThenV6Shrunk()
    ensures StrictlySorted([LowV4, HighV4, HostV6]) && AllWellFormed([LowV4, HighV4, HostV6])
    ensures Shrunk([LowV4, HighV4, HostV6], true) == [AllV4, HostV6]
  {
    MergeV4ThenV6Walk();
    ShrunkFromWalk([LowV4, HighV4, HostV6]);
  }

  /** A pass whose stack is all tagged 0 keeps the whole stack. */
  lemma ShrunkFromWalk(items: seq<Subnet>)
    requires StrictlySorted(items) && AllWellFormed(items) && AllTagZero(Walk(items, true).vec)
    ensures Shrunk(items, true) == Walk(items, true).vec
  {
    KeepAllZero(Walk(items, true).vec);
  }

  /** `shrink(true)` is not idempotent across families: `0.0.0.0/1`,
      `128.0.0.0/1` and `::1/128` shrink to `0.0.0.0/0` and `::1/128`, and a
      second shrink then drops `::1/128`, because the merged `/0` contains
      it by the zero-mask test. */
  lemma ShrinkTwiceCrossFamily()
    ensures StrictlySorted([LowV4, HighV4, HostV6]) && AllWellFormed([LowV4, HighV4, HostV6])
    ensures Shrunk([LowV4, HighV4, HostV6], true) == [AllV4, HostV6]
    ensures Shrunk(Shrunk([LowV4, HighV4, HostV6], true), true) == [AllV4]
  {
    MergeV4ThenV6Shrunk();
    ShrinkCrossFamily();
  }
}
