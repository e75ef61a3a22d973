/** The scenarios of the cidr-rs tests and a few more, as lemmas over
    concrete inputs. The decoders are left open: each lemma states only
    what it needs them to return for the texts involved. */
module Scenarios {
  import opened Bits
  import opened Subnets
  import opened Text
  import opened Parse
  import opened Wrappers

  const Loopback := 0x7F00_0001

  lemma ParseBlank(d: Decoders)
    ensures ParseSubnet(d, "") == Ok(None) && ParseSubnet(d, "#") == Ok(None)
    ensures ParseSubnet(d, "#127.0.0.1") == Ok(None)
  {
    PrepareEmpty();
  }

  /** `"127.0.0.1   ####hello"` is `127.0.0.1/32`. */
  lemma ParseCommented(d: Decoders)
    requires d.v4("127.0.0.1") == Some(Loopback)
    ensures ParseSubnet(d, "127.0.0.1   ####hello") == Ok(Some(Subnet(V4, Loopback, 32, 0)))
  {
    PrepareComment();
    NoSlash("127.0.0.1");
    DecodeV4(d, "127.0.0.1", Loopback);
    HostLine(d, "127.0.0.1   ####hello", "127.0.0.1", V4, Loopback);
  }

  lemma NoSlash(t: string)
    requires t == "127.0.0.1" || t == "1.2.3.4" || t == "::1"
    ensures t != [] && '/' !in t && ',' !in t
  {
  }

  lemma DecodeV4(d: Decoders, t: string, a: u32)
    requires d.v4(t) == Some(a)
    ensures Decode(d, V4, t) == Some(a)
  {
  }

  /** `"127.0.0.1/7"` is `126.0.0.0/7`. */
  lemma ParseMasked(d: Decoders)
    requires d.v4("127.0.0.1") == Some(Loopback) && d.prefix("7") == Some(7)
    ensures ParseSubnet(d, "127.0.0.1/7") == Ok(Some(Subnet(V4, 0x7E00_0000, 7, 0)))
  {
    MaskedText();
    NoSlash("127.0.0.1");
    DecodeV4(d, "127.0.0.1", Loopback);
    PrefixLine(d, "127.0.0.1", "7", V4, Loopback, 7);
    MaskLoopback();
  }

  lemma MaskedText()
    ensures "127.0.0.1" + "/" + "7" == "127.0.0.1/7"
    ensures PrepareStr("127.0.0.1/7") == "127.0.0.1/7"
  {
    MaskedConcat();
    PrepareClean("127.0.0.1/7");
  }

  lemma MaskedConcat()
    ensures "127.0.0.1" + "/" + "7" == "127.0.0.1/7"
  {
    assert "127.0.0.1" + "/" == "127.0.0.1/";
  }

  lemma MaskLoopback()
    ensures MaskDown(Loopback, 25) == 0x7E00_0000
  {
    Pow2Values();
    Pow2Mid();
    DivPow2(Loopback, 25, 0x3F, 0x100_0001);
    Pow2Add(7, 25);
    assert Pow2(25) == 0x200_0000;
    DivModUnique(Loopback, Pow2(25), 63, 0x100_0001);
  }

  /** `"0::1/128"` is `::1/128`: the IPv4 decoder refuses it and the IPv6
      one is tried. */
  lemma ParseV6(d: Decoders)
    requires d.v4("0::1") == None && d.v6("0::1") == Some(1) && d.prefix("128") == Some(128)
    ensures ParseSubnet(d, "0::1/128") == Ok(Some(Subnet(V6, 1, 128, 0)))
  {
    V6Text();
    DecodeV6(d, "0::1", 1);
    PrefixLine(d, "0::1", "128", V6, 1, 128);
    MaskNone(1);
  }

  lemma V6Text()
    ensures "0::1" + "/" + "128" == "0::1/128" && '/' !in "0::1"
    ensures PrepareStr("0::1/128") == "0::1/128"
  {
    V6Concat();
    PrepareClean("0::1/128");
  }

  lemma V6Concat()
    ensures "0::1" + "/" + "128" == "0::1/128" && '/' !in "0::1"
  {
    assert "0::1" + "/" == "0::1/";
  }

  lemma DecodeV6(d: Decoders, t: string, a: u128)
    requires d.v6(t) == Some(a)
    ensures Decode(d, V6, t) == Some(a)
  {
  }

  /** Masking nothing keeps the address. */
  lemma MaskNone(a: nat)
    ensures MaskDown(a, 0) == a
  {
    assert Pow2(0) == 1;
  }

  /** A line whose prepared text is a bare address decodes to the host
      block of that address. */
  lemma HostLine(d: Decoders, s: string, t: string, f: Family, a: nat)
    requires PrepareStr(s) == t && t != [] && '/' !in t
    requires Decode(d, f, t) == Some(a) && (f == V6 ==> d.v4(t) == None)
    ensures ParseSubnet(d, s) == Ok(Some(Subnet(f, a, Width(f), 0)))
    ensures Bound(d, s) == Ok(Subnet(f, a, Width(f), 0))
  {
    assert Find(t, '/') == None;
    assert Pow2(0) == 1;
    MaskDownBounds(a, 0);
    assert TryIp(d, f, t, None) == Ok(Subnet(f, a, Width(f), 0));
  }

  lemma PrepareInComment()
    ensures PrepareStr("1.2.3.4 # a,b") == "1.2.3.4"
  {
    CutInComment();
    PrepareStrMeaning("1.2.3.4 # a,b");
    PadInComment();
  }

  lemma CutInComment()
    ensures BeforeHash("1.2.3.4 # a,b") == "1.2.3.4 "
  {
    var t, w, c := "1.2.3.4", " ", "# a,b";
    var s := t + w + c;
    assert s == "1.2.3.4 # a,b";
    assert s[..8] == t + w;
    assert s[8] == '#';
    FindFirst(s, '#', 8);
  }

  lemma PadInComment()
    ensures Trim("1.2.3.4 ") == "1.2.3.4"
  {
    var t, w := "1.2.3.4", " ";
    assert t + w == "1.2.3.4 ";
    TrimPadding(t, w);
  }

  /** A comma inside a comment still makes the line a range line, and the
      prepared text then has no second field: a checked build panics. */
  lemma RangeInComment(d: Decoders)
    requires d.v4("1.2.3.4") == Some(0x0102_0304)
    ensures ParseLine(d, "1.2.3.4 # a,b", None) == Err(MissingField)
  {
    PrepareInComment();
    NoSlash("1.2.3.4");
    FirstBound(d);
    CommaInComment();
    assert Fields("1.2.3.4") == ("1.2.3.4", None);
    RangeFails(d, "1.2.3.4 # a,b", MissingField);
  }

  /** A line with a comma whose bounds fail fails with the same error. */
  lemma RangeFails(d: Decoders, s: string, e: Error)
    requires ',' in s && RangeBounds(d, s) == Err(e)
    ensures ParseLine(d, s, None) == Err(e)
  {
  }

  lemma CommaInComment()
    ensures ',' in "1.2.3.4 # a,b"
  {
    assert "1.2.3.4 # a,b"[11] == ',';
  }

  /** A range whose bounds are of two families: a checked build panics. */
  lemma RangeMixed(d: Decoders)
    requires d.v4("1.2.3.4") == Some(0x0102_0304) && d.v4("::1") == None && d.v6("::1") == Some(1)
    ensures ParseLine(d, "1.2.3.4,::1", None) == Err(MixedFamilies)
  {
    MixedFields();
    FirstBound(d);
    SecondBound(d);
    MixedBounds(d, "1.2.3.4,::1", "1.2.3.4", "::1");
    RangeFails(d, "1.2.3.4,::1", MixedFamilies);
  }

  /** Two bounds that decode to blocks of different families. */
  lemma MixedBounds(d: Decoders, s: string, t: string, u: string)
    requires Fields(PrepareStr(s)) == (t, Some(u))
    requires Bound(d, t).Ok? && Bound(d, u).Ok? && Bound(d, t).value.fam != Bound(d, u).value.fam
    ensures RangeBounds(d, s) == Err(MixedFamilies)
  {
  }

  lemma FirstBound(d: Decoders)
    requires d.v4("1.2.3.4") == Some(0x0102_0304)
    ensures Bound(d, "1.2.3.4") == Ok(Subnet(V4, 0x0102_0304, 32, 0))
  {
    var t := "1.2.3.4";
    PrepareClean(t);
    assert '/' !in t;
    assert Decode(d, V4, t) == Some(0x0102_0304);
    HostLine(d, t, t, V4, 0x0102_0304);
  }

  lemma SecondBound(d: Decoders)
    requires d.v4("::1") == None && d.v6("::1") == Some(1)
    ensures Bound(d, "::1") == Ok(Subnet(V6, 1, 128, 0))
  {
    var u := "::1";
    PrepareClean(u);
    HostLine(d, u, u, V6, 1);
  }

  lemma MixedFields()
    ensures Fields(PrepareStr("1.2.3.4,::1")) == ("1.2.3.4", Some("::1"))
    ensures ',' in "1.2.3.4,::1"
  {
    var t, u := "1.2.3.4", "::1";
    var s := t + "," + u;
    assert s == "1.2.3.4,::1";
    PrepareClean(s);
    assert s[..7] == t && s[7] == ',' && s[8..] == u;
    FindFirst(s, ',', 7);
    assert Find(u, ',') == None;
    assert ',' in s;
  }
}
