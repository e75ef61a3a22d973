/** Line parsing: `try_ipv4` / `try_ipv6` (src/main.rs:144-150),
    `parse_subnet` (169-180), `parse_range` (185-198) and `parse` (208-219).
    The standard library's text decoders (`Ipv4Addr`, `Ipv6Addr` and `u8`
    from text) are parameters. Each function returns what the program
    would insert, in order, or the error that stops it. */
module Parse {
  import opened Bits
  import opened Subnets
  import opened Text
  import opened RangeSplit
  import opened Wrappers

  type u32 = x: int | 0 <= x < 0x1_0000_0000
  type u128 = x: int | 0 <= x < 0x1_0000_0000_0000_0000_0000_0000_0000_0000

  /** `str::parse` for `Ipv4Addr` (as `u32`), `Ipv6Addr` (as `u128`) and
      the decimal prefix length (`u8`); `None` is a parse error. */
  datatype Decoders = Decoders(v4: string -> Option<u32>, v6: string -> Option<u128>,
                               prefix: string -> Option<u8>)

  /** Why a line produced nothing. `Rejected` is an `Err` the caller drops
      (a decoder failure, or a missing range bound turned into an error by
      `ok_or`); the others are panics of a checked build: a shift by the
      full width or an unsigned underflow (`Overflow`), bounds of two
      families (`MixedFamilies`, src/main.rs:196), and a range line whose
      prepared text has no comma (`MissingField`, the `split[1]` index at
      src/main.rs:190). */
  datatype Error = Rejected | Overflow | MixedFamilies | MissingField

  /** A fatal error aborts the whole run; only `Rejected` is skipped. */
  predicate Fatal(e: Error)
  {
    e != Rejected
  }

  /** The address decoder of family `f`. */
  function Decode(d: Decoders, f: Family, s: string): (r: Option<nat>)
    ensures r.Some? ==> r.value < Pow2(Width(f))
  {
    Pow2Values();
    if f == V4 then
      (match d.v4(s) case None => None case Some(a) => Some(a as nat))
    else
      (match d.v6(s) case None => None case Some(a) => Some(a as nat))
  }

  /** `try_ipv4` / `try_ipv6`: decode the address, default the prefix to
      the width, and clear the host bits with `(net >> mk) << mk` where
      `mk = width - mask`. */
  function TryIp(d: Decoders, f: Family, s: string, mask: Option<u8>): (r: Result<Subnet, Error>)
    ensures r.Err? ==> r.error == Rejected || r.error == Overflow
    ensures r.Ok? ==> WellFormed(r.value) && r.value.fam == f && r.value.tag == 0
  {
    var m := mask.GetOr(Width(f) as u8);
    match Decode(d, f, s)
    case None => Err(Rejected)
    case Some(a) =>
      if m > Width(f) || m == 0 then Err(Overflow)
      else
        MaskDownBounds(a, Width(f) - m);
        Ok(Subnet(f, MaskDown(a, Width(f) - m), m, 0))
  }

  /** `try_ipv4(s, mask).or_else(|_| try_ipv6(s, mask))`: the IPv6 decoder
      is tried only when the IPv4 one returned an error. */
  function TryBoth(d: Decoders, s: string, mask: Option<u8>): (r: Result<Option<Subnet>, Error>)
    ensures r.Err? ==> r.error == Rejected || r.error == Overflow
    ensures r.Ok? ==> r.value.Some? && WellFormed(r.value.value) && r.value.value.tag == 0
    ensures TryIp(d, V4, s, mask).Ok? ==> r == Ok(Some(TryIp(d, V4, s, mask).value))
    ensures TryIp(d, V4, s, mask).Err? && TryIp(d, V4, s, mask).error != Rejected ==>
      r == Err(TryIp(d, V4, s, mask).error)
    ensures TryIp(d, V4, s, mask) == Err(Rejected) ==>
      r == (match TryIp(d, V6, s, mask) case Ok(x) => Ok(Some(x)) case Err(e) => Err(e))
    ensures r.Ok? && r.value.value.fam == V6 ==> TryIp(d, V4, s, mask) == Err(Rejected)
  {
    match TryIp(d, V4, s, mask)
    case Ok(x) => Ok(Some(x))
    case Err(Rejected) =>
      (match TryIp(d, V6, s, mask) case Ok(x) => Ok(Some(x)) case Err(e) => Err(e))
    case Err(e) => Err(e)
  }

  /** `parse_subnet`: an empty prepared line is `Ok(None)`; otherwise the
      text after the first `/` is the prefix length. */
  function ParseSubnet(d: Decoders, s: string): (r: Result<Option<Subnet>, Error>)
    ensures r.Err? ==> r.error == Rejected || r.error == Overflow
    ensures r.Ok? && r.value.Some? ==> WellFormed(r.value.value) && r.value.value.tag == 0
  {
    var t := PrepareStr(s);
    if t == [] then Ok(None)
    else
      match Find(t, '/')
      case None => TryBoth(d, t, None)
      case Some(i) =>
        match d.prefix(t[i + 1..])
        case None => Err(Rejected)
        case Some(m) => TryBoth(d, t[..i], Some(m))
  }

  /** `split(',').take(2)`: the text before the first comma and, when
      there is a comma, the text from there to the next comma or the end. */
  function Fields(t: string): (string, Option<string>)
  {
    match Find(t, ',')
    case None => (t, None)
    case Some(i) =>
      var rest := t[i + 1..];
      (t[..i], Some(match Find(rest, ',') case None => rest case Some(j) => rest[..j]))
  }

  /** One range bound: `parse_subnet(field)?.ok_or(..)?`. */
  function Bound(d: Decoders, field: string): (r: Result<Subnet, Error>)
    ensures r.Err? ==> r.error == Rejected || r.error == Overflow
    ensures r.Ok? ==> WellFormed(r.value)
  {
    match ParseSubnet(d, field)
    case Err(e) => Err(e)
    case Ok(None) => Err(Rejected)
    case Ok(Some(x)) => Ok(x)
  }

  /** The two bounds of a range line, in the order the program evaluates
      them: the first bound's errors, then the missing second field, then
      the second bound's errors, then the family check. */
  function RangeBounds(d: Decoders, s: string): (r: Result<(Subnet, Subnet), Error>)
    ensures r.Ok? ==> WellFormed(r.value.0) && WellFormed(r.value.1) && r.value.0.fam == r.value.1.fam
  {
    var (f0, f1) := Fields(PrepareStr(s));
    match Bound(d, f0)
    case Err(e) => Err(e)
    case Ok(a) =>
      if f1.None? then Err(MissingField)
      else
        match Bound(d, f1.value)
        case Err(e) => Err(e)
        case Ok(b) => if a.fam != b.fam then Err(MixedFamilies) else Ok((a, b))
  }

  /** The fields of a range line's prepared text. */
  function RangeFields(s: string): (string, Option<string>)
  {
    Fields(PrepareStr(s))
  }

  /** A range line's bounds are the two fields of its prepared text, read
      as bounds; the line is `MixedFamilies` exactly when both fields read
      as bounds of different families. */
  lemma RangeBoundsMeaning(d: Decoders, s: string)
    ensures RangeBounds(d, s).Ok? ==>
      RangeFields(s).1.Some? &&
      Bound(d, RangeFields(s).0) == Ok(RangeBounds(d, s).value.0) &&
      Bound(d, RangeFields(s).1.value) == Ok(RangeBounds(d, s).value.1)
    ensures RangeBounds(d, s) == Err(MixedFamilies) <==>
      RangeFields(s).1.Some? && Bound(d, RangeFields(s).0).Ok? && Bound(d, RangeFields(s).1.value).Ok? &&
      Bound(d, RangeFields(s).0).value.fam != Bound(d, RangeFields(s).1.value).value.fam
  {
  }

  /** `parse_range`: the blocks the range splitter inserts between the two
      bounds' network addresses. */
  function ParseRange(d: Decoders, s: string, tag: Option<u8>): (r: Result<seq<Subnet>, Error>)
  {
    match RangeBounds(d, s)
    case Err(e) => Err(e)
    case Ok((a, b)) =>
      EndBound(b);
      Ok(Split(a.fam, a.net, b.net, Width(a.fam), tag.GetOr(0)))
  }

  /** `parse`: a line with a comma anywhere is a range; otherwise the
      single subnet, if any, with the tag applied. */
  function ParseLine(d: Decoders, s: string, tag: Option<u8>): (r: Result<seq<Subnet>, Error>)
  {
    if ',' in s then ParseRange(d, s, tag)
    else
      match ParseSubnet(d, s)
      case Err(e) => Err(e)
      case Ok(None) => Ok([])
      case Ok(Some(x)) => Ok([x.(tag := tag.GetOr(0))])
  }

  /** Canonical masking: a decoded address with a prefix length `m` in
      `1..width` gives the one canonical block of prefix `m` that contains
      it; an undecodable address is an ordinary error; a decoded address
      with prefix 0 or above the width overflows. A missing prefix is the
      width. */
  lemma TryIpMeaning(d: Decoders, f: Family, s: string, mask: Option<u8>)
    ensures var m := mask.GetOr(Width(f) as u8);
      (TryIp(d, f, s, mask) == Err(Rejected) <==> Decode(d, f, s).None?) &&
      (TryIp(d, f, s, mask) == Err(Overflow) <==> Decode(d, f, s).Some? && (m == 0 || m > Width(f))) &&
      (TryIp(d, f, s, mask).Ok? ==>
        var x := TryIp(d, f, s, mask).value;
        x.mask == m && Covers(x, f, Decode(d, f, s).value) &&
        forall b :: WellFormed(b) && b.mask == m && b.tag == 0 && Covers(b, f, Decode(d, f, s).value) ==> b == x)
  {
    var m := mask.GetOr(Width(f) as u8);
    if Decode(d, f, s).Some? && 0 < m <= Width(f) {
      var a := Decode(d, f, s).value;
      var x := TryIp(d, f, s, mask).value;
      MaskDownBounds(a, Width(f) - m);
      forall b | WellFormed(b) && b.mask == m && b.tag == 0 && Covers(b, f, a) ensures b == x {
        AlignedUnique(b.net, a, Width(f) - m);
      }
    }
  }

  /** Without a `/`, the prefix length is the width: the line names one
      address, kept as it was decoded. */
  lemma DefaultMask(d: Decoders, s: string)
    requires ParseSubnet(d, s).Ok? && ParseSubnet(d, s).value.Some? && '/' !in PrepareStr(s)
    ensures var x := ParseSubnet(d, s).value.value;
      x.mask == Width(x.fam) && Decode(d, x.fam, PrepareStr(s)) == Some(x.net)
  {
    var t := PrepareStr(s);
    var x := ParseSubnet(d, s).value.value;
    TryIpMeaning(d, x.fam, t, None);
    var a := Decode(d, x.fam, t).value;
    assert Pow2(0) == 1;
    MaskDownBounds(a, 0);
  }

  /** A line whose prepared text is an address, a `/` and a prefix length
      decodes to the canonical block of that prefix around the address. */
  lemma PrefixLine(d: Decoders, t: string, p: string, f: Family, a: nat, m: u8)
    requires PrepareStr(t + "/" + p) == t + "/" + p && '/' !in t
    requires d.prefix(p) == Some(m) && 0 < m <= Width(f)
    requires Decode(d, f, t) == Some(a) && (f == V6 ==> d.v4(t) == None)
    ensures MaskDown(a, Width(f) - m) < Pow2(Width(f))
    ensures ParseSubnet(d, t + "/" + p) == Ok(Some(Subnet(f, MaskDown(a, Width(f) - m), m, 0)))
  {
    SlashAt(t, p);
    MaskDownBounds(a, Width(f) - m);
    assert TryIp(d, f, t, Some(m)) == Ok(Subnet(f, MaskDown(a, Width(f) - m), m, 0));
  }

  lemma SlashAt(t: string, p: string)
    requires '/' !in t
    ensures var s := t + "/" + p;
      Find(s, '/') == Some(|t|) && s[..|t|] == t && s[|t| + 1..] == p
  {
    var s := t + "/" + p;
    assert s[|t|] == '/' && s[..|t|] == t && s[|t| + 1..] == p;
    FindFirst(s, '/', |t|);
  }

  /** The blocks of a range from `a` to `b`: they tile exactly the
      addresses from `a`'s network address to `b`'s, with the given tag, or
      there are none when `a` lies above `b`. */
  ghost predicate RangeTiles(r: seq<Subnet>, a: Subnet, b: Subnet, tag: u8)
  {
    (a.net <= b.net ==> Tiles(r, a.fam, a.net, b.net + 1, tag)) &&
    (a.net > b.net ==> r == [])
  }

  /** A range line with both bounds of one family inserts blocks tiling
      exactly the addresses from the first bound's network address to the
      second's, with the given tag (0 without one), and nothing when the
      first lies above the second. */
  lemma ParseRangeTiles(d: Decoders, s: string, tag: Option<u8>, a: Subnet, b: Subnet)
    requires RangeBounds(d, s) == Ok((a, b))
    ensures ParseRange(d, s, tag).Ok? && RangeTiles(ParseRange(d, s, tag).value, a, b, tag.GetOr(0))
  {
    RangeIsSplit(d, s, tag, a, b);
    SplitResult(ParseRange(d, s, tag), a, b, tag.GetOr(0));
  }

  lemma SplitResult(r: Result<seq<Subnet>, Error>, a: Subnet, b: Subnet, tag: u8)
    requires b.net < Pow2(Width(a.fam)) && r == Ok(Split(a.fam, a.net, b.net, Width(a.fam), tag))
    ensures r.Ok? && RangeTiles(r.value, a, b, tag)
  {
    SplitRange(a.fam, a.net, b.net, tag);
  }

  lemma RangeIsSplit(d: Decoders, s: string, tag: Option<u8>, a: Subnet, b: Subnet)
    requires RangeBounds(d, s) == Ok((a, b))
    ensures b.net < Pow2(Width(a.fam))
    ensures ParseRange(d, s, tag) == Ok(Split(a.fam, a.net, b.net, Width(a.fam), tag.GetOr(0)))
  {
    EndBound(b);
  }

  /** Every block is canonical and carries `tag`. */
  predicate TaggedBlocks(r: seq<Subnet>, tag: u8)
  {
    forall j :: 0 <= j < |r| ==> WellFormed(r[j]) && r[j].tag == tag
  }

  /** Whatever a line inserts is canonical and carries the given tag (0
      without one). */
  lemma ParseLineWellFormed(d: Decoders, s: string, tag: Option<u8>)
    requires ParseLine(d, s, tag).Ok?
    ensures TaggedBlocks(ParseLine(d, s, tag).value, tag.GetOr(0))
  {
    if ',' in s {
      assert ParseLine(d, s, tag) == ParseRange(d, s, tag);
      var (a, b) := RangeBounds(d, s).value;
      ParseRangeTiles(d, s, tag, a, b);
      RangeWellFormed(ParseRange(d, s, tag).value, a, b, tag.GetOr(0));
    } else {
      SubnetLineWellFormed(d, s, tag);
    }
  }

  lemma RangeWellFormed(r: seq<Subnet>, a: Subnet, b: Subnet, tag: u8)
    requires RangeTiles(r, a, b, tag)
    ensures TaggedBlocks(r, tag)
  {
  }

  lemma SubnetLineWellFormed(d: Decoders, s: string, tag: Option<u8>)
    requires ',' !in s && ParseLine(d, s, tag).Ok?
    ensures TaggedBlocks(ParseLine(d, s, tag).value, tag.GetOr(0))
  {
    match ParseSubnet(d, s)
    case Ok(Some(x)) =>
      assert ParseLine(d, s, tag) == Ok([x.(tag := tag.GetOr(0))]);
    case Ok(None) =>
      assert ParseLine(d, s, tag) == Ok([]);
    case Err(_) =>
  }

}
