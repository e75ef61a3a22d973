/** The `BTreeSet<Subnet>` inside `SubnetList`, as the strictly increasing
    sequence of its elements under the derived order. Insertion is
    `BTreeSet::insert`: it adds an element not yet present, in its place by
    the order, and leaves the set alone otherwise. */
module OrderedSet {
  import opened Subnets

  predicate StrictlySorted(xs: seq<Subnet>)
  {
    forall j, k :: 0 <= j < k < |xs| ==> Less(xs[j], xs[k])
  }

  lemma LessTotal(a: Subnet, b: Subnet)
    ensures Less(a, b) || a == b || Less(b, a)
    ensures !(Less(a, b) && Less(b, a)) && !Less(a, a)
  {
  }

  function InsertSorted(xs: seq<Subnet>, s: Subnet): (r: seq<Subnet>)
    ensures forall x :: x in r <==> x in xs || x == s
    ensures StrictlySorted(xs) ==> StrictlySorted(r)
    ensures StrictlySorted(xs) && s in xs ==> r == xs
    ensures s !in xs ==> |r| == |xs| + 1
  {
    if xs == [] then [s]
    else if Less(s, xs[0]) then
      assert StrictlySorted(xs) ==> s !in xs by {
        if StrictlySorted(xs) && s in xs {
          var k :| 0 <= k < |xs| && xs[k] == s;
          assert k == 0 || Less(xs[0], xs[k]);
          LessTotal(s, xs[0]);
        }
      }
      [s] + xs
    else if s == xs[0] then xs
    else
      LessTotal(s, xs[0]);
      var rest := InsertSorted(xs[1..], s);
      assert StrictlySorted(xs) ==> StrictlySorted([xs[0]] + rest) by {
        if StrictlySorted(xs) {
          assert forall x :: x in rest ==> Less(xs[0], x) by {
            forall x | x in rest ensures Less(xs[0], x) {
              if x in xs[1..] {
                var k :| 1 <= k < |xs| && xs[k] == x;
              }
            }
          }
          PrependSorted(xs[0], rest);
        }
      }
      [xs[0]] + rest
  }

  lemma PrependSorted(h: Subnet, xs: seq<Subnet>)
    requires StrictlySorted(xs) && forall x :: x in xs ==> Less(h, x)
    ensures StrictlySorted([h] + xs)
  {
    forall j, k | 0 <= j < k < |[h] + xs| ensures Less(([h] + xs)[j], ([h] + xs)[k]) {
      if j == 0 {
        assert ([h] + xs)[k] == xs[k - 1];
        assert xs[k - 1] in xs;
      } else {
        assert ([h] + xs)[j] == xs[j - 1] && ([h] + xs)[k] == xs[k - 1];
      }
    }
  }

  /** Inserting a sequence of elements in turn. */
  function InsertAll(xs: seq<Subnet>, bs: seq<Subnet>): (r: seq<Subnet>)
    ensures forall x :: x in r <==> x in xs || x in bs
    ensures StrictlySorted(xs) ==> StrictlySorted(r)
    decreases |bs|
  {
    if bs == [] then xs
    else InsertAll(InsertSorted(xs, bs[0]), bs[1..])
  }

  /** A strictly sorted sequence is determined by its elements. */
  lemma {:induction false} SortedUnique(a: seq<Subnet>, b: seq<Subnet>)
    requires StrictlySorted(a) && StrictlySorted(b)
    requires forall x :: x in a <==> x in b
    ensures a == b
  {
    assert |a| == 0 <==> |b| == 0 by {
      if |a| > 0 { assert a[0] in b; }
      if |b| > 0 { assert b[0] in a; }
    }
    if a != [] {
      assert a[0] == b[0] by {
        var x, y := a[0], b[0];
        assert y in a && x in b;
        var i :| 0 <= i < |a| && a[i] == y;
        var j :| 0 <= j < |b| && b[j] == x;
        assert i > 0 ==> Less(x, y);
        assert j > 0 ==> Less(y, x);
        LessTotal(x, y);
      }
      forall x ensures x in a[1..] <==> x in b[1..] {
        if x in a[1..] {
          var i :| 1 <= i < |a| && a[i] == x;
          assert Less(a[0], x);
          LessTotal(a[0], x);
          assert x in b;
          var k :| 0 <= k < |b| && b[k] == x;
          assert k != 0;
          assert b[1..][k - 1] == x;
        }
        if x in b[1..] {
          var i :| 1 <= i < |b| && b[i] == x;
          assert Less(b[0], x);
          LessTotal(b[0], x);
          assert x in a;
          var k :| 0 <= k < |a| && a[k] == x;
          assert k != 0;
          assert a[1..][k - 1] == x;
        }
      }
      SortedUnique(a[1..], b[1..]);
      assert a == [a[0]] + a[1..] && b == [b[0]] + b[1..];
    }
  }

  /** Building a set from an already sorted sequence gives that sequence. */
  lemma InsertAllSorted(xs: seq<Subnet>)
    requires StrictlySorted(xs)
    ensures InsertAll([], xs) == xs
  {
    SortedUnique(InsertAll([], xs), xs);
  }

  /** Inserting `a` and then `b` is inserting `a + b`. */
  lemma {:induction false} InsertAllConcat(xs: seq<Subnet>, a: seq<Subnet>, b: seq<Subnet>)
    ensures InsertAll(xs, a + b) == InsertAll(InsertAll(xs, a), b)
    decreases |a|
  {
    if a == [] {
      assert a + b == b;
    } else {
      assert (a + b)[0] == a[0] && (a + b)[1..] == a[1..] + b;
      InsertAllConcat(InsertSorted(xs, a[0]), a[1..], b);
    }
  }

  lemma InsertOne(xs: seq<Subnet>, s: Subnet)
    ensures InsertAll(xs, [s]) == InsertSorted(xs, s)
  {
    assert [s][1..] == [];
  }
}
