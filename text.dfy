/** The string handling of line parsing: `str::trim`, `str::find` and
    `prepare_str` (src/main.rs:200-206). Strings are sequences of
    characters and positions are character positions. */
module Text {
  import opened Wrappers

  /** Characters with the Unicode `White_Space` property, which `str::trim`
      strips. */
  predicate IsSpace(c: char)
  {
    ('\U{9}' <= c <= '\U{D}') || c == ' ' || c == '\U{85}' || c == '\U{A0}' ||
    c == '\U{1680}' || ('\U{2000}' <= c <= '\U{200A}') || c == '\U{2028}' ||
    c == '\U{2029}' || c == '\U{202F}' || c == '\U{205F}' || c == '\U{3000}'
  }

  /** `trim_start`: the longest suffix that does not start with white space. */
  function TrimStart(s: string): (r: string)
    ensures |r| <= |s| && r == s[|s| - |r|..]
    ensures forall k :: 0 <= k < |s| - |r| ==> IsSpace(s[k])
    ensures r != [] ==> !IsSpace(r[0])
  {
    if s != [] && IsSpace(s[0]) then
      var r := TrimStart(s[1..]);
      assert s[1..][|s| - 1 - |r|..] == s[|s| - |r|..];
      assert forall k :: 1 <= k < |s| - |r| ==> s[k] == s[1..][k - 1];
      r
    else s
  }

  /** `trim_end`: the longest prefix that does not end with white space. */
  function TrimEnd(s: string): (r: string)
    ensures |r| <= |s| && r == s[..|r|]
    ensures forall k :: |r| <= k < |s| ==> IsSpace(s[k])
    ensures r != [] ==> !IsSpace(r[|r| - 1])
  {
    if s != [] && IsSpace(s[|s| - 1]) then
      var r := TrimEnd(s[..|s| - 1]);
      assert s[..|s| - 1][..|r|] == s[..|r|];
      assert forall k :: |r| <= k < |s| - 1 ==> s[k] == s[..|s| - 1][k];
      r
    else s
  }

  /** `trim`: the text with white space removed at both ends. */
  function Trim(s: string): string
  {
    TrimEnd(TrimStart(s))
  }

  /** `find(c)`: the position of the first `c`, if any. */
  function Find(s: string, c: char): (r: Option<nat>)
    ensures r.Some? ==> r.value < |s| && s[r.value] == c && c !in s[..r.value]
    ensures r.None? <==> c !in s
  {
    if s == [] then None
    else if s[0] == c then Some(0)
    else
      var r := Find(s[1..], c);
      if r.None? then None
      else
        assert s[..r.value + 1] == [s[0]] + s[1..][..r.value];
        Some(r.value + 1)
  }

  /** The text before the first `#` (all of it when there is none). */
  function BeforeHash(s: string): (r: string)
    ensures |r| <= |s| && r == s[..|r|] && '#' !in r && (|r| < |s| ==> s[|r|] == '#')
  {
    match Find(s, '#')
    case None => s
    case Some(i) => s[..i]
  }

  /** `prepare_str`: trim, cut at the first `#`, trim again. */
  function PrepareStr(s: string): string
  {
    var t := Trim(s);
    match Find(t, '#')
    case None => t
    case Some(i) => Trim(t[..i])
  }

  lemma {:induction false} TrimStartSkip(w: string, x: string)
    requires forall k :: 0 <= k < |w| ==> IsSpace(w[k])
    ensures TrimStart(w + x) == TrimStart(x)
  {
    if w == [] {
      assert w + x == x;
    } else {
      assert (w + x)[0] == w[0];
      assert (w + x)[1..] == w[1..] + x;
      TrimStartSkip(w[1..], x);
    }
  }

  lemma {:induction false} TrimEndSkip(x: string, w: string)
    requires forall k :: 0 <= k < |w| ==> IsSpace(w[k])
    ensures TrimEnd(x + w) == TrimEnd(x)
  {
    if w == [] {
      assert x + w == x;
    } else {
      assert (x + w)[|x + w| - 1] == w[|w| - 1];
      assert (x + w)[..|x + w| - 1] == x + w[..|w| - 1];
      TrimEndSkip(x, w[..|w| - 1]);
    }
  }

  /** `prepare_str` keeps exactly the text before the first `#`, trimmed at
      both ends. */
  lemma PrepareStrMeaning(s: string)
    ensures PrepareStr(s) == Trim(BeforeHash(s))
  {
    if '#' in s {
      PrepareWithHash(s);
    } else {
      var u := TrimStart(s);
      var l := |s| - |u|;
      var t := TrimEnd(u);
      assert forall k :: 0 <= k < |t| ==> t[k] == s[l + k];
      assert '#' !in t;
    }
  }

  lemma PrepareWithHash(s: string)
    requires '#' in s
    ensures PrepareStr(s) == Trim(BeforeHash(s))
  {
    var l := |s| - |TrimStart(s)|;
    var h := Find(s, '#').value;
    HashAfterLead(s, h);
    var i := FirstHashKept(s, h);
    PrepareCut(s, i);
    TrimSlice(s, i);
    assert Trim(s)[..i] == s[l..h];
    DropLead(s, l, h);
    assert BeforeHash(s) == s[..h];
  }

  /** When the trimmed text has its first `#` at `i`, `prepare_str` trims
      the text before it. */
  lemma PrepareCut(s: string, i: nat)
    requires Find(Trim(s), '#') == Some(i)
    ensures PrepareStr(s) == Trim(Trim(s)[..i])
  {
  }

  /** A prefix of the trimmed text is a slice of the line. */
  lemma TrimSlice(s: string, i: nat)
    requires i <= |Trim(s)|
    ensures i + |s| - |TrimStart(s)| <= |s|
    ensures Trim(s)[..i] == s[|s| - |TrimStart(s)|..i + |s| - |TrimStart(s)|]
  {
    var u := TrimStart(s);
    var t := TrimEnd(u);
    assert Trim(s) == t;
    PrefixPrefix(u, t, i);
    SuffixPrefix(s, u, i);
  }

  lemma PrefixPrefix(u: string, t: string, i: nat)
    requires |t| <= |u| && t == u[..|t|] && i <= |t|
    ensures t[..i] == u[..i]
  {
    assert forall k :: 0 <= k < i ==> t[k] == u[k];
  }

  lemma SuffixPrefix(s: string, u: string, i: nat)
    requires |u| <= |s| && u == s[|s| - |u|..] && i <= |u|
    ensures u[..i] == s[|s| - |u|..i + |s| - |u|]
  {
    var l := |s| - |u|;
    assert forall k :: 0 <= k < i ==> u[k] == s[l + k];
  }

  /** Cutting the line at `h` and trimming gives the same as cutting the
      trimmed-at-the-start line. */
  lemma DropLead(s: string, l: nat, h: nat)
    requires l == |s| - |TrimStart(s)| && l <= h <= |s|
    ensures Trim(s[..h]) == Trim(s[l..h])
  {
    assert s[..h] == s[..l] + s[l..h];
    TrimStartSkip(s[..l], s[l..h]);
  }

  /** The leading white space holds no `#`. */
  lemma HashAfterLead(s: string, h: nat)
    requires h < |s| && s[h] == '#'
    ensures |s| - |TrimStart(s)| <= h
  {
    assert !IsSpace('#');
  }

  /** The first `#` of the trimmed text is the first `#` of the line. */
  lemma FirstHashKept(s: string, h: nat) returns (i: nat)
    requires Find(s, '#') == Some(h) && |s| - |TrimStart(s)| <= h
    ensures Find(Trim(s), '#') == Some(i) && i == h - (|s| - |TrimStart(s)|)
  {
    var l := |s| - |TrimStart(s)|;
    HashInTrim(s, h);
    i := Find(Trim(s), '#').value;
    TrimIndex(s, i);
    assert s[l + i] == '#';
  }

  /** The `k`-th character of the trimmed text is the character `k` places
      after the leading white space of the line. */
  lemma TrimIndex(s: string, k: nat)
    requires k < |Trim(s)|
    ensures k + |s| - |TrimStart(s)| < |s| && Trim(s)[k] == s[k + |s| - |TrimStart(s)|]
  {
    var u := TrimStart(s);
    assert TrimEnd(u)[k] == u[k];
  }

  /** A `#` after the leading white space survives trimming. */
  lemma HashInTrim(s: string, h: nat)
    requires h < |s| && s[h] == '#' && |s| - |TrimStart(s)| <= h
    ensures h - (|s| - |TrimStart(s)|) < |Trim(s)| && Trim(s)[h - (|s| - |TrimStart(s)|)] == '#'
  {
    var u := TrimStart(s);
    var l := |s| - |u|;
    assert u[h - l] == s[h];
    assert !IsSpace('#');
    assert TrimEnd(u)[h - l] == u[h - l];
  }


  lemma PrepareEmpty()
    ensures PrepareStr("") == "" && PrepareStr("#") == "" && PrepareStr("#127.0.0.1") == ""
  {
    assert Trim("") == "";
    HashFirst("#");
    HashFirst("#127.0.0.1");
  }

  /** A line that starts with `#` is all comment. */
  lemma HashFirst(s: string)
    requires s != [] && s[0] == '#'
    ensures PrepareStr(s) == ""
  {
    assert !IsSpace('#');
    var t := TrimEnd(s);
    assert TrimStart(s) == s;
    assert t != [] && t[0] == '#';
    assert Find(t, '#') == Some(0);
    assert Trim(t[..0]) == "";
  }

  /** `find` returns the first occurrence. */
  lemma FindFirst(s: string, c: char, h: nat)
    requires h < |s| && s[h] == c && c !in s[..h]
    ensures Find(s, c) == Some(h)
  {
  }

  /** A trailing comment after white space is cut, and the white space
      before it trimmed. */
  lemma PrepareComment()
    ensures PrepareStr("127.0.0.1   ####hello") == "127.0.0.1"
  {
    PrepareStrMeaning("127.0.0.1   ####hello");
    CommentCut();
    SpacesTrimmed();
  }

  lemma CommentCut()
    ensures BeforeHash("127.0.0.1   ####hello") == "127.0.0.1   "
  {
    var s := "127.0.0.1   ####hello";
    assert s[..12] == "127.0.0.1   ";
    FindFirst(s, '#', 12);
  }

  lemma SpacesTrimmed()
    ensures Trim("127.0.0.1   ") == "127.0.0.1"
  {
    var a, w := "127.0.0.1", "   ";
    assert a + w == "127.0.0.1   ";
    TrimPadding(a, w);
  }

  /** Trailing white space after a word is trimmed away. */
  lemma TrimPadding(a: string, w: string)
    requires a != [] && !IsSpace(a[0]) && !IsSpace(a[|a| - 1])
    requires forall k :: 0 <= k < |w| ==> IsSpace(w[k])
    ensures Trim(a + w) == a
  {
    assert (a + w)[0] == a[0];
    assert TrimStart(a + w) == a + w;
    TrimEndSkip(a, w);
    assert TrimEnd(a) == a;
  }

  /** A line with no comment and no white space at its ends is prepared
      to itself. */
  lemma PrepareClean(s: string)
    requires s != [] ==> !IsSpace(s[0]) && !IsSpace(s[|s| - 1])
    requires '#' !in s
    ensures PrepareStr(s) == s
  {
    assert TrimStart(s) == s;
    assert TrimEnd(s) == s;
  }
}
