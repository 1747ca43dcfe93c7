/** `np.unique` on a sequence of labels: the distinct labels in ascending
    order. Only its result is modelled (the library sorts and drops adjacent
    duplicates); `UniqueIsCanonical` shows that the result is determined by
    that contract alone, whatever algorithm computes it. */
module UniqueLabels {
  import opened LexOrder

  /** Strictly ascending, hence free of duplicates. */
  predicate StrictlySorted(s: seq<string>) {
    forall i, j :: 0 <= i < j < |s| ==> Less(s[i], s[j])
  }

  /** The set of labels occurring in `s`. */
  function Elems(s: seq<string>): set<string> {
    set y | y in s
  }

  /** Puts `x` into its place in the strictly ascending `s`, unless it is
      already there. */
  function Insert(x: string, s: seq<string>): (r: seq<string>)
    requires StrictlySorted(s)
    ensures StrictlySorted(r)
    ensures forall y :: y in r <==> y == x || y in s
    decreases |s|
  {
    if s == [] then [x]
    else if x == s[0] then s
    else if Less(x, s[0]) then
      SmallerHeadSorted(x, s);
      [x] + s
    else
      LessTotal(x, s[0]);
      var t := Insert(x, s[1..]);
      assert forall y :: y in t ==> Less(s[0], y) by {
        forall y | y in t ensures Less(s[0], y) {
          if y != x {
            var k :| 1 <= k < |s| && s[k] == y;
          }
        }
      }
      SmallerHeadSorted(s[0], t);
      [s[0]] + t
  }

  lemma SmallerHeadSorted(h: string, t: seq<string>)
    requires StrictlySorted(t)
    requires |t| > 0 ==> Less(h, t[0])
    ensures StrictlySorted([h] + t)
  {
    forall j | 1 <= j < |t| + 1 ensures Less(([h] + t)[0], ([h] + t)[j]) {
      if j > 1 {
        LessTransitive(h, t[0], t[j - 1]);
      }
    }
  }

  /** The result of `np.unique(labels)`. */
  function Unique(labels: seq<string>): (u: seq<string>)
    ensures StrictlySorted(u)
    ensures Elems(u) == Elems(labels)
  {
    if labels == [] then []
    else
      var init, last := labels[..|labels| - 1], labels[|labels| - 1];
      var u := Insert(last, Unique(init));
      assert labels == init + [last];
      assert Elems(labels) == Elems(init) + {last};
      u
  }

  /** Two strictly ascending sequences with the same elements are equal: the
      sorted distinct labels are a function of the label set alone. */
  lemma {:induction false} UniqueIsCanonical(s: seq<string>, t: seq<string>)
    requires StrictlySorted(s) && StrictlySorted(t)
    requires Elems(s) == Elems(t)
    ensures s == t
    decreases |s|
  {
    assert s != [] ==> s[0] in Elems(t);
    assert t != [] ==> t[0] in Elems(s);
    if s != [] && t != [] {
      if s[0] != t[0] {
        var i :| 0 <= i < |t| && t[i] == s[0];
        var j :| 0 <= j < |s| && s[j] == t[0];
        LessAsymmetric(t[0], s[0]);
        assert false;
      }
      forall y ensures y in Elems(s[1..]) <==> y in Elems(t[1..]) {
        if y in s[1..] {
          var k :| 1 <= k < |s| && s[k] == y;
          assert Less(s[0], y);
          LessIrreflexive(y);
          assert y in Elems(t);
        }
        if y in t[1..] {
          var k :| 1 <= k < |t| && t[k] == y;
          assert Less(t[0], y);
          LessIrreflexive(y);
          assert y in Elems(s);
        }
      }
      UniqueIsCanonical(s[1..], t[1..]);
      assert s == [s[0]] + s[1..] && t == [t[0]] + t[1..];
    }
  }

  /** A duplicate-free sequence has as many elements as its set. */
  lemma {:induction false} SortedCardinality(s: seq<string>)
    requires StrictlySorted(s)
    ensures |Elems(s)| == |s|
    decreases |s|
  {
    if s != [] {
      SortedCardinality(s[1..]);
      assert Elems(s) == {s[0]} + Elems(s[1..]);
      if s[0] in Elems(s[1..]) {
        var k :| 1 <= k < |s| && s[k] == s[0];
        LessIrreflexive(s[0]);
        assert false;
      }
    }
  }

  /** The position of `x` in `s` (its first position). */
  function IndexOf(s: seq<string>, x: string): (k: nat)
    requires x in s
    ensures k < |s| && s[k] == x
    ensures forall j :: 0 <= j < k ==> s[j] != x
  {
    if s[0] == x then 0 else 1 + IndexOf(s[1..], x)
  }

  /** In a strictly ascending sequence every element sits at its own
      position only. */
  lemma IndexOfSorted(s: seq<string>, k: nat)
    requires StrictlySorted(s) && k < |s|
    ensures IndexOf(s, s[k]) == k
  {
    var m := IndexOf(s, s[k]);
    if m < k {
      LessIrreflexive(s[k]);
      assert false;
    }
  }

  /** The labels of `s` that sort strictly before `x`. */
  function SmallerThan(s: seq<string>, x: string): set<string> {
    set y | y in s && Less(y, x)
  }

  /** In a strictly ascending sequence, the position of `x` is the number of
      its elements that sort before `x`. */
  lemma RankCountsSmaller(s: seq<string>, x: string)
    requires StrictlySorted(s) && x in s
    ensures IndexOf(s, x) == |SmallerThan(s, x)|
  {
    var k := IndexOf(s, x);
    assert SmallerThan(s, x) == Elems(s[..k]) by {
      forall y | y in s && Less(y, x) ensures y in Elems(s[..k]) {
        var m :| 0 <= m < |s| && s[m] == y;
        if m >= k {
          if m > k {
            LessAsymmetric(x, y);
          } else {
            LessIrreflexive(x);
          }
          assert false;
        }
      }
      forall y | y in Elems(s[..k]) ensures y in s && Less(y, x) {
        var m :| 0 <= m < k && s[..k][m] == y;
      }
    }
    SortedCardinality(s[..k]);
  }

  /** Distinct elements have distinct positions: a position identifies its
      element. */
  lemma IndexOfInjective(s: seq<string>, x: string, y: string)
    requires x in s && y in s
    ensures IndexOf(s, x) == IndexOf(s, y) <==> x == y
  {
  }
}
