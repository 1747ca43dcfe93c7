/** `labels_to_one_hot` and `one_hot_to_label` (src/train_lstm_keras.py):
    string labels are numbered by their rank among the sorted distinct
    labels, and each label becomes a one-hot row of that rank. Decoding
    recomputes the same ranking and reads the label at the row's argmax. */
module LabelEncoding {
  import opened Wrappers
  import opened LexOrder
  import opened UniqueLabels

  /** A row of `width` zeros with a 1 at column `k` (no 1 at all when
      `k >= width`). The Python rows are float32 holding exactly 0.0 and 1.0. */
  function OneHot(k: nat, width: nat): seq<int> {
    seq(width, j => if j == k then 1 else 0)
  }

  /** The sum of a row's entries. */
  function Sum(row: seq<int>): int {
    if row == [] then 0 else Sum(row[..|row| - 1]) + row[|row| - 1]
  }

  lemma {:induction false} SumOneHot(k: nat, width: nat)
    ensures Sum(OneHot(k, width)) == if k < width then 1 else 0
  {
    if width > 0 {
      assert OneHot(k, width)[..width - 1] == OneHot(k, width - 1);
      SumOneHot(k, width - 1);
    }
  }

  /** `np.argmax`: the index of the FIRST maximal entry; an empty vector
      raises, which is `None` here. */
  function Argmax(v: seq<int>): (r: Option<nat>)
    ensures r.None? <==> v == []
    ensures r.Some? ==> r.value < |v|
    ensures r.Some? ==> forall j :: 0 <= j < |v| ==> v[j] <= v[r.value]
    ensures r.Some? ==> forall j :: 0 <= j < r.value ==> v[j] < v[r.value]
  {
    if v == [] then None
    else
      match Argmax(v[..|v| - 1])
      case None => Some(0)
      case Some(k) => if v[k] < v[|v| - 1] then Some(|v| - 1) else Some(k)
  }

  /** The largest of a non-empty sequence of indices (`np.max`). */
  function MaxOf(s: seq<nat>): (m: nat)
    requires s != []
    ensures forall i :: 0 <= i < |s| ==> s[i] <= m
    ensures exists i :: 0 <= i < |s| && s[i] == m
  {
    if |s| == 1 then s[0]
    else
      var m := MaxOf(s[1..]);
      assert forall i :: 1 <= i < |s| ==> s[i] == s[1..][i - 1];
      if s[0] < m then m else s[0]
  }

  /** `to_categorical(indices)`: one one-hot row per index, all of width
      `max(indices) + 1`. An empty input raises (the maximum of nothing). */
  function ToCategorical(indices: seq<nat>): (r: Option<seq<seq<int>>>)
    ensures r.None? <==> indices == []
    ensures r.Some? ==> |r.value| == |indices|
    ensures r.Some? ==> forall i :: 0 <= i < |indices| ==>
              indices[i] < |r.value[0]| && r.value[i] == OneHot(indices[i], |r.value[0]|)
    ensures r.Some? ==> exists i :: 0 <= i < |indices| && indices[i] + 1 == |r.value[0]|
  {
    if indices == [] then None
    else
      var width := MaxOf(indices) + 1;
      Some(seq(|indices|, i requires 0 <= i < |indices| => OneHot(indices[i], width)))
  }

  /** K, the number of classes: the length of the sorted distinct labels. */
  function NumClasses(labels: seq<string>): nat {
    |Unique(labels)|
  }

  /** The entry of `label_encoding_table` for `x`: its position among the
      sorted distinct labels. */
  function Rank(labels: seq<string>, x: string): nat
    requires x in labels
  {
    assert x in Elems(labels);
    IndexOf(Unique(labels), x)
  }

  /** What `labels_to_one_hot(labels)` returns: row `i` is the one-hot row of
      width K with its 1 at the rank of `labels[i]`. */
  function Encode(labels: seq<string>): Option<seq<seq<int>>> {
    if labels == [] then None
    else Some(seq(|labels|, i requires 0 <= i < |labels| =>
                OneHot(Rank(labels, labels[i]), NumClasses(labels))))
  }

  /** `labels_to_one_hot`: the loop numbers the sorted distinct labels into
      `label_encoding_table`, every label is replaced by its number, and
      `to_categorical` expands the numbers into one-hot rows. */
  method LabelsToOneHot(labels: seq<string>) returns (r: Option<seq<seq<int>>>)
    ensures r == Encode(labels)
  {
    var uniqueLabels := Unique(labels);
    var table: map<string, nat> := map[];
    var ind := 0;
    while ind < |uniqueLabels|
      invariant ind <= |uniqueLabels|
      invariant table.Keys == Elems(uniqueLabels[..ind])
      invariant forall j :: 0 <= j < ind ==> table[uniqueLabels[j]] == j
    {
      forall j | 0 <= j < ind ensures uniqueLabels[j] != uniqueLabels[ind] {
        LessIrreflexive(uniqueLabels[j]);
      }
      assert uniqueLabels[..ind + 1] == uniqueLabels[..ind] + [uniqueLabels[ind]];
      table := table[uniqueLabels[ind] := ind];
      ind := ind + 1;
    }
    assert uniqueLabels[..ind] == uniqueLabels;
    forall i | 0 <= i < |labels| ensures labels[i] in table && table[labels[i]] == Rank(labels, labels[i]) {
      assert labels[i] in Elems(labels);
    }
    var indices := seq(|labels|, i requires 0 <= i < |labels| => table[labels[i]]);
    r := ToCategorical(indices);
    CategoricalOfRanks(labels, indices);
  }

  /** Expanding the rank of every label with `to_categorical` gives width
      exactly K, because the last distinct label occurs and has rank K - 1. */
  lemma CategoricalOfRanks(labels: seq<string>, indices: seq<nat>)
    requires |indices| == |labels|
    requires forall i :: 0 <= i < |labels| ==> indices[i] == Rank(labels, labels[i])
    ensures ToCategorical(indices) == Encode(labels)
  {
    if labels != [] {
      var uniqueLabels := Unique(labels);
      var r := ToCategorical(indices).value;
      var k := NumClasses(labels);
      var top :| 0 <= top < |labels| && indices[top] + 1 == |r[0]|;
      assert uniqueLabels[k - 1] in Elems(labels);
      var last :| 0 <= last < |labels| && labels[last] == uniqueLabels[k - 1];
      IndexOfSorted(uniqueLabels, k - 1);
      assert indices[last] == k - 1;
      assert indices[top] < k;
      assert |r[0]| == k;
      var e := Encode(labels).value;
      assert |r| == |e|;
      forall i | 0 <= i < |labels| ensures r[i] == e[i] {
        assert r[i] == OneHot(indices[i], k);
      }
      assert r == e;
    }
  }

  /** `one_hot_to_label(one_hot, labels)`: the sorted distinct label at the
      argmax of `one_hot`. An empty vector or an argmax at or beyond K
      raises, which is `None` here. */
  function OneHotToLabel(oneHot: seq<int>, labels: seq<string>): (r: Option<string>)
    ensures r.Some? <==> oneHot != [] && Argmax(oneHot).value < NumClasses(labels)
    ensures r.Some? ==> r.value in labels
    ensures r.Some? ==> |SmallerThan(labels, r.value)| == Argmax(oneHot).value
  {
    var uniqueLabels := Unique(labels);
    match Argmax(oneHot)
    case None => None
    case Some(ind) =>
      if ind < |uniqueLabels| then
        var x := uniqueLabels[ind];
        IndexOfSorted(uniqueLabels, ind);
        RankCountsSmaller(uniqueLabels, x);
        assert x in Elems(labels);
        assert SmallerThan(uniqueLabels, x) == SmallerThan(labels, x) by {
          forall y ensures y in SmallerThan(uniqueLabels, x) <==> y in SmallerThan(labels, x) {
            assert y in uniqueLabels <==> y in Elems(labels);
          }
        }
        Some(x)
      else None
  }

  /** Encoding fails exactly on an empty label sequence; otherwise it has one
      row per label, each as wide as the number of distinct labels. */
  lemma EncodeShape(labels: seq<string>)
    ensures Encode(labels).None? <==> labels == []
    ensures Encode(labels).Some? ==> |Encode(labels).value| == |labels|
    ensures Encode(labels).Some? ==> forall i :: 0 <= i < |labels| ==>
              |Encode(labels).value[i]| == |Elems(labels)|
  {
    SortedCardinality(Unique(labels));
  }

  /** Every row holds only 0s and 1s, exactly one 1, and sums to 1. */
  lemma EncodeRowIsOneHot(labels: seq<string>, i: nat)
    requires i < |labels|
    ensures Encode(labels).Some?
    ensures var row := Encode(labels).value[i];
      Sum(row) == 1 &&
      (forall j :: 0 <= j < |row| ==> row[j] == 0 || row[j] == 1) &&
      (forall j, j' :: 0 <= j < j' < |row| ==> row[j] == 0 || row[j'] == 0)
  {
    SumOneHot(Rank(labels, labels[i]), NumClasses(labels));
  }

  /** The 1 of row `i` sits at the rank of `labels[i]`: the number of
      distinct labels that sort before it. */
  lemma EncodeHotColumnIsRank(labels: seq<string>, i: nat, j: nat)
    requires i < |labels| && j < NumClasses(labels)
    ensures Encode(labels).Some?
    ensures Encode(labels).value[i][j] == 1 <==> j == |SmallerThan(labels, labels[i])|
  {
    var x := labels[i];
    assert x in Elems(labels);
    RankCountsSmaller(Unique(labels), x);
    assert SmallerThan(Unique(labels), x) == SmallerThan(labels, x) by {
      forall y ensures y in SmallerThan(Unique(labels), x) <==> y in SmallerThan(labels, x) {
        assert y in Unique(labels) <==> y in Elems(labels);
      }
    }
  }

  /** Equal labels get identical rows and distinct labels get different
      rows. */
  lemma EncodeInjective(labels: seq<string>, i: nat, j: nat)
    requires i < |labels| && j < |labels|
    ensures Encode(labels).Some?
    ensures Encode(labels).value[i] == Encode(labels).value[j] <==> labels[i] == labels[j]
  {
    var rows := Encode(labels).value;
    var ri, rj := Rank(labels, labels[i]), Rank(labels, labels[j]);
    if rows[i] == rows[j] {
      assert rows[i][ri] == 1;
      assert ri == rj;
      assert labels[i] in Elems(labels) && labels[j] in Elems(labels);
      IndexOfInjective(Unique(labels), labels[i], labels[j]);
    }
  }

  /** Every column 0 .. K-1 holds the 1 of some row. */
  lemma EncodeUsesEveryColumn(labels: seq<string>, c: nat)
    requires c < NumClasses(labels)
    ensures Encode(labels).Some?
    ensures exists i :: 0 <= i < |labels| && Encode(labels).value[i][c] == 1
  {
    var uniqueLabels := Unique(labels);
    assert uniqueLabels[c] in Elems(labels);
    var i :| 0 <= i < |labels| && labels[i] == uniqueLabels[c];
    IndexOfSorted(uniqueLabels, c);
    assert Encode(labels).value[i][c] == 1;
  }

  /** The argmax of a one-hot row is its hot column. */
  lemma ArgmaxOneHot(k: nat, width: nat)
    requires k < width
    ensures Argmax(OneHot(k, width)) == Some(k)
  {
    var v := OneHot(k, width);
    assert v[k] == 1;
  }

  /** Decoding the encoding of `labels[i]` against the same population gives
      `labels[i]` back. */
  lemma RoundTrip(labels: seq<string>, i: nat)
    requires i < |labels|
    ensures Encode(labels).Some?
    ensures OneHotToLabel(Encode(labels).value[i], labels) == Some(labels[i])
  {
    var k := Rank(labels, labels[i]);
    ArgmaxOneHot(k, NumClasses(labels));
  }

  /** Decoding depends only on the SET of labels in the population: any two
      populations with the same distinct labels decode every vector alike. */
  lemma DecodeDependsOnlyOnLabelSet(oneHot: seq<int>, labels: seq<string>, others: seq<string>)
    requires Elems(labels) == Elems(others)
    ensures OneHotToLabel(oneHot, labels) == OneHotToLabel(oneHot, others)
  {
    UniqueIsCanonical(Unique(labels), Unique(others));
  }

  /** A population with one distinct label encodes every label as [1]. */
  lemma SingleClassEncoding(labels: seq<string>)
    requires labels != []
    requires forall i :: 0 <= i < |labels| ==> labels[i] == labels[0]
    ensures Encode(labels).Some?
    ensures forall i :: 0 <= i < |labels| ==> Encode(labels).value[i] == [1]
  {
    assert Elems(labels) == {labels[0]};
    SortedCardinality(Unique(labels));
    var rows := Encode(labels).value;
    forall i | 0 <= i < |labels| ensures rows[i] == [1] {
      assert |rows[i]| == 1;
    }
  }
}
