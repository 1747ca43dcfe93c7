/** `disarrange(a, axis)` (src/train_lstm_keras.py) on a three-dimensional
    array such as the N x 10 x 2048 feature block: every one-dimensional slice
    along `axis` (one slice per combination of indices on the other two axes)
    is shuffled in place, independently of the others. The random choices of
    `np.random.shuffle` are left open: each slice ends up in SOME order of its
    own elements. */
module Disarrange {
  import opened Wrappers

  /** A cell of the array: its indices on axes 0, 1 and 2. */
  datatype Cell = Cell(i0: nat, i1: nat, i2: nat)

  /** The axis that `axis` names in a 3-dimensional array, counting negative
      values from the end as numpy does; any other value raises
      `AxisError`, which is `None` here. */
  function NormalizeAxis(axis: int): (r: Option<nat>)
    ensures r.Some? <==> -3 <= axis < 3
    ensures r.Some? ==> r.value < 3 && (r.value == axis || r.value == axis + 3)
  {
    if 0 <= axis < 3 then Some(axis)
    else if -3 <= axis < 0 then Some(axis + 3)
    else None
  }

  /** The length of axis `d`. */
  function Dim<T>(a: array3<T>, d: nat): nat
    requires d < 3
  {
    if d == 0 then a.Length0 else if d == 1 then a.Length1 else a.Length2
  }

  /** The two axes other than `axis`, in increasing order. */
  function OtherAxes(axis: nat): (nat, nat)
    requires axis < 3
  {
    if axis == 0 then (1, 2) else if axis == 1 then (0, 2) else (0, 1)
  }

  /** The cell at position `k` along `axis` of the slice whose indices on the
      other two axes are `u` and `v`. */
  function CellAt(axis: nat, u: nat, v: nat, k: nat): Cell
    requires axis < 3
  {
    if axis == 0 then Cell(k, u, v)
    else if axis == 1 then Cell(u, k, v)
    else Cell(u, v, k)
  }

  /** `(u, v)` names a slice along `axis` of `a`. */
  predicate IsSlice<T>(a: array3<T>, axis: nat, u: nat, v: nat)
    requires axis < 3
  {
    u < Dim(a, OtherAxes(axis).0) && v < Dim(a, OtherAxes(axis).1)
  }

  function Get<T>(a: array3<T>, c: Cell): T
    reads a
    requires c.i0 < a.Length0 && c.i1 < a.Length1 && c.i2 < a.Length2
  {
    a[c.i0, c.i1, c.i2]
  }

  /** The slice `(u, v)` along `axis`, read in order along that axis: the row
      `b[ndx]` of the swapped view `b = a.swapaxes(axis, -1)`. */
  function Slice<T>(a: array3<T>, axis: nat, u: nat, v: nat): (s: seq<T>)
    reads a
    requires axis < 3 && IsSlice(a, axis, u, v)
    ensures |s| == Dim(a, axis)
  {
    seq(Dim(a, axis), k reads a requires 0 <= k < Dim(a, axis) => Get(a, CellAt(axis, u, v, k)))
  }

  /** Exchanges positions `i` and `j` of slice `(u, v)`; nothing else in `a`
      changes. */
  method SwapInSlice<T>(a: array3<T>, axis: nat, u: nat, v: nat, i: nat, j: nat)
    requires axis < 3 && IsSlice(a, axis, u, v)
    requires i < Dim(a, axis) && j < Dim(a, axis)
    modifies a
    ensures Slice(a, axis, u, v) == old(Slice(a, axis, u, v))[i := old(Slice(a, axis, u, v))[j]][j := old(Slice(a, axis, u, v))[i]]
    ensures forall u': nat, v': nat :: IsSlice(a, axis, u', v') && (u', v') != (u, v) ==>
              Slice(a, axis, u', v') == old(Slice(a, axis, u', v'))
  {
    ghost var s := Slice(a, axis, u, v);
    var ci, cj := CellAt(axis, u, v, i), CellAt(axis, u, v, j);
    var x, y := a[ci.i0, ci.i1, ci.i2], a[cj.i0, cj.i1, cj.i2];
    a[ci.i0, ci.i1, ci.i2] := y;
    a[cj.i0, cj.i1, cj.i2] := x;
    forall k | 0 <= k < Dim(a, axis)
      ensures Slice(a, axis, u, v)[k] == s[i := s[j]][j := s[i]][k]
    {
      assert k != i && k != j ==> CellAt(axis, u, v, k) != ci && CellAt(axis, u, v, k) != cj;
    }
    forall u': nat, v': nat | IsSlice(a, axis, u', v') && (u', v') != (u, v)
      ensures Slice(a, axis, u', v') == old(Slice(a, axis, u', v'))
    {
      forall k | 0 <= k < Dim(a, axis)
        ensures Slice(a, axis, u', v')[k] == old(Slice(a, axis, u', v'))[k]
      {
        assert CellAt(axis, u', v', k) != ci && CellAt(axis, u', v', k) != cj;
      }
    }
  }

  /** `np.random.shuffle(b[ndx])` on one slice: numpy's loop runs `i` from
      n-1 down to 1 and swaps position `i` with a random `j` in `0 .. i`; here
      `j` is any such value. */
  method ShuffleSlice<T>(a: array3<T>, axis: nat, u: nat, v: nat)
    requires axis < 3 && IsSlice(a, axis, u, v)
    modifies a
    ensures multiset(Slice(a, axis, u, v)) == multiset(old(Slice(a, axis, u, v)))
    ensures forall u': nat, v': nat :: IsSlice(a, axis, u', v') && (u', v') != (u, v) ==>
              Slice(a, axis, u', v') == old(Slice(a, axis, u', v'))
  {
    var i := Dim(a, axis);
    while i > 1
      invariant i <= Dim(a, axis)
      invariant multiset(Slice(a, axis, u, v)) == multiset(old(Slice(a, axis, u, v)))
      invariant forall u': nat, v': nat :: IsSlice(a, axis, u', v') && (u', v') != (u, v) ==>
                  Slice(a, axis, u', v') == old(Slice(a, axis, u', v'))
    {
      i := i - 1;
      var j :| 0 <= j <= i;
      SwapInSlice(a, axis, u, v, i, j);
    }
  }

  /** `disarrange(a, axis)`: shuffles every slice along `axis` in place and
      returns the same array. Each slice keeps exactly its own elements, so
      no value is invented, lost or moved into another slice. An invalid axis
      raises before anything changes. */
  method Disarrange<T>(a: array3<T>, axis: int) returns (r: Option<array3<T>>)
    modifies a
    ensures r.Some? <==> -3 <= axis < 3
    ensures r.None? ==> unchanged(a)
    ensures r.Some? ==> r.value == a
    ensures r.Some? ==> var ax := NormalizeAxis(axis).value;
              forall u: nat, v: nat :: IsSlice(a, ax, u, v) ==>
                multiset(Slice(a, ax, u, v)) == multiset(old(Slice(a, ax, u, v)))
  {
    var normalized := NormalizeAxis(axis);
    if normalized.None? {
      return None;
    }
    var ax := normalized.value;
    var (d0, d1) := OtherAxes(ax);
    for u := 0 to Dim(a, d0)
      invariant forall u': nat, v': nat :: IsSlice(a, ax, u', v') ==>
                  multiset(Slice(a, ax, u', v')) == multiset(old(Slice(a, ax, u', v')))
    {
      for v := 0 to Dim(a, d1)
        invariant forall u': nat, v': nat :: IsSlice(a, ax, u', v') ==>
                    multiset(Slice(a, ax, u', v')) == multiset(old(Slice(a, ax, u', v')))
      {
        ShuffleSlice(a, ax, u, v);
      }
    }
    return Some(a);
  }

  /** With `axis=-2`, as the training code calls it, the slices are the
      columns `a[s, :, f]`: one per (sample, feature) pair, holding that
      feature's values over the timesteps. Values of one timestep's feature
      vector lie in different slices, so each is moved independently. */
  lemma TimeAxisSlices<T>(a: array3<T>, s: nat, f: nat)
    ensures NormalizeAxis(-2) == Some(1)
    ensures IsSlice(a, 1, s, f) <==> s < a.Length0 && f < a.Length2
    ensures IsSlice(a, 1, s, f) ==> Slice(a, 1, s, f) == seq(a.Length1, t reads a requires 0 <= t < a.Length1 => a[s, t, f])
  {
  }
}
