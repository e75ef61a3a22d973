/** The range of the cidr-rs `range_test`: the line
    `223.255.229.0,223.255.230.255,` (src/main.rs:462) is split into two
    `/24` blocks. The loop halves the bounds eight times while the lower one
    is even and the upper one odd, then emits both bounds at prefix 24. */
module SplitScenarios {
  import opened Bits
  import opened Subnets
  import opened RangeSplit
  import opened Text
  import opened Parse
  import opened Wrappers
  import opened Scenarios

  /** `223.255.229.0` and `223.255.230.255`. */
  const From := 0xDFFF_E500
  const Upto := 0xDFFF_E6FF

  /** One turn of the halving loop: the bounds are halved and the prefix
      shortened; the loop goes on while the parities allow. */
  lemma HalveOnce(f: Family, from: nat, upto: nat, mask: nat, tag: u8)
    requires mask <= Width(f) && upto < Pow2(mask) && from % 2 == 0 && upto % 2 == 1
    ensures mask >= 1 && upto / 2 < Pow2(mask - 1)
    ensures Halve(f, from, upto, mask, tag) ==
      if (from / 2) % 2 == 0 && (upto / 2) % 2 == 1 then Halve(f, from / 2, upto / 2, mask - 1, tag)
      else Split(f, from / 2, upto / 2, mask - 1, tag)
  {
    HalfBelow(upto, mask);
  }

  /** The eight halvings, from prefix 32 down to prefix 24. */
  lemma HalveSteps()
    ensures Upto < Pow2(32) && 0xDF_FFE6 < Pow2(24)
    ensures Split(V4, From, Upto, 32, 0) == Split(V4, 0xDF_FFE5, 0xDF_FFE6, 24, 0)
  {
    Pow2Values();
    assert Split(V4, From, Upto, 32, 0) == Halve(V4, From, Upto, 32, 0);
    HalveOnce(V4, From, Upto, 32, 0);
    HalveOnce(V4, 0x6FFF_F280, 0x6FFF_F37F, 31, 0);
    HalveOnce(V4, 0x37FF_F940, 0x37FF_F9BF, 30, 0);
    HalveOnce(V4, 0x1BFF_FCA0, 0x1BFF_FCDF, 29, 0);
    HalveOnce(V4, 0x0DFF_FE50, 0x0DFF_FE6F, 28, 0);
    HalveOnce(V4, 0x06FF_FF28, 0x06FF_FF37, 27, 0);
    HalveOnce(V4, 0x037F_FF94, 0x037F_FF9B, 26, 0);
    HalveOnce(V4, 0x01BF_FFCA, 0x01BF_FFCD, 25, 0);
  }

  /** At prefix 24 both bounds are peeled and nothing is left between them. */
  lemma LastStep()
    ensures 0xDF_FFE6 < Pow2(24)
    ensures Split(V4, 0xDF_FFE5, 0xDF_FFE6, 24, 0) ==
      [Subnet(V4, 0xDFFF_E500, 24, 0), Subnet(V4, 0xDFFF_E600, 24, 0)]
  {
    Pow2Values();
    Pow2Add(24, 8);
    Pow2Le(23, 24);
    assert Halve(V4, 0xDF_FFE6, 0xDF_FFE5, 24, 0) == [];
  }

  /** `223.255.229.0` to `223.255.230.255` is `223.255.229.0/24` and
      `223.255.230.0/24`. */
  lemma SplitExample()
    ensures Upto < Pow2(32)
    ensures Split(V4, From, Upto, 32, 0) ==
      [Subnet(V4, 0xDFFF_E500, 24, 0), Subnet(V4, 0xDFFF_E600, 24, 0)]
  {
    HalveSteps();
    LastStep();
  }

  /** The line of the test, `t,u,` with its trailing comma: the third,
      empty field is ignored. */
  lemma RangeLine(d: Decoders, t: string, u: string)
    requires t == "223.255.229.0" && u == "223.255.230.255"
    requires d.v4(t) == Some(From) && d.v4(u) == Some(Upto)
    ensures ParseLine(d, t + "," + u + ",", None) ==
      Ok([Subnet(V4, 0xDFFF_E500, 24, 0), Subnet(V4, 0xDFFF_E600, 24, 0)])
  {
    NoComma(t, u);
    CleanPair(t, u);
    LowBound(d);
    HighBound(d);
    assert RangeBounds(d, t + "," + u + ",") == Ok((Subnet(V4, From, 32, 0), Subnet(V4, Upto, 32, 0)));
    SplitExample();
  }

  /** A range line `t,u,` with no white space at its start and no comment
      is prepared to itself and splits into `t` and `u`. */
  lemma CleanPair(t: string, u: string)
    requires t != [] && !IsSpace(t[0]) && ',' !in t && ',' !in u && '#' !in t + "," + u + ","
    ensures ',' in t + "," + u + ","
    ensures Fields(PrepareStr(t + "," + u + ",")) == (t, Some(u))
  {
    var s := t + "," + u + ",";
    assert s[0] == t[0] && s[|s| - 1] == ',';
    assert !IsSpace(',');
    PrepareClean(s);
    TwoFields(t, u);
  }

  lemma NoComma(t: string, u: string)
    requires t == "223.255.229.0" && u == "223.255.230.255"
    ensures ',' !in t && ',' !in u && '/' !in t && '/' !in u && '#' !in t + "," + u + ","
    ensures t != [] && u != [] && !IsSpace(t[0]) && !IsSpace(',')
  {
  }

  /** `split(',').take(2)` of `t,u,` is `t` and `u`. */
  lemma TwoFields(t: string, u: string)
    requires ',' !in t && ',' !in u
    ensures ',' in t + "," + u + ","
    ensures Fields(t + "," + u + ",") == (t, Some(u))
  {
    var s := t + "," + u + ",";
    assert s[..|t|] == t && s[|t|] == ',';
    FindFirst(s, ',', |t|);
    var rest := s[|t| + 1..];
    assert rest == u + ",";
    assert rest[..|u|] == u && rest[|u|] == ',';
    FindFirst(rest, ',', |u|);
  }

  lemma LowBound(d: Decoders)
    requires d.v4("223.255.229.0") == Some(From)
    ensures Bound(d, "223.255.229.0") == Ok(Subnet(V4, From, 32, 0))
  {
    var t := "223.255.229.0";
    PrepareClean(t);
    NoComma(t, "223.255.230.255");
    DecodeV4(d, t, From);
    HostLine(d, t, t, V4, From);
  }

  lemma HighBound(d: Decoders)
    requires d.v4("223.255.230.255") == Some(Upto)
    ensures Bound(d, "223.255.230.255") == Ok(Subnet(V4, Upto, 32, 0))
  {
    var u := "223.255.230.255";
    PrepareClean(u);
    NoComma("223.255.229.0", u);
    DecodeV4(d, u, Upto);
    HostLine(d, u, u, V4, Upto);
  }
}
