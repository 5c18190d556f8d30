/**
 * The per-city statistics record `CityDetails`: its sentinel default, its
 * in-place `update`, and what a run of updates computes.
 */
module CityStats {
  import opened Bytes

  /** The value of a record: minimum, maximum and sum of the scaled measurements, and their count. */
  datatype Stats = Stats(min: int, max: int, sum: int, count: int)

  /** `CityDetails::default()`: sentinels that the first update overwrites. */
  function Default(): (d: Stats)
    ensures d.min == I16_MAX && d.max == I16_MIN && d.sum == 0 && d.count == 0
  {
    Stats(I16_MAX, I16_MIN, 0, 0)
  }

  /** The record after `update(meas)`, as a value. */
  function Updated(s: Stats, meas: int): (r: Stats)
    ensures r.min <= s.min && r.min <= meas && (r.min == s.min || r.min == meas)
    ensures r.max >= s.max && r.max >= meas && (r.max == s.max || r.max == meas)
    ensures r.sum == s.sum + meas && r.count == s.count + 1
  {
    var min := if s.min > meas then meas else s.min;
    var max := if s.max < meas then meas else s.max;
    Stats(min, max, s.sum + meas, s.count + 1)
  }

  /** The record obtained by updating the default record with `vs`, in order. */
  function Fold(vs: seq<int>): Stats
  {
    if vs == [] then Default() else Updated(Fold(vs[..|vs| - 1]), vs[|vs| - 1])
  }

  function Sum(vs: seq<int>): int
  {
    if vs == [] then 0 else vs[0] + Sum(vs[1..])
  }

  predicate AllInI16(vs: seq<int>)
  {
    forall i :: 0 <= i < |vs| ==> InI16(vs[i])
  }

  lemma {:induction false} SumAppend(vs: seq<int>, x: int)
    ensures Sum(vs + [x]) == Sum(vs) + x
  {
    if vs != [] {
      assert (vs + [x])[1..] == vs[1..] + [x];
      SumAppend(vs[1..], x);
    }
  }

  /**
   * Updating the default record with a non-empty run of i16 measurements
   * yields their minimum, maximum, sum and count.
   */
  lemma FoldSummarises(vs: seq<int>)
    requires vs != [] && AllInI16(vs)
    ensures Fold(vs).count == |vs|
    ensures Fold(vs).sum == Sum(vs)
    ensures Fold(vs).min in vs && forall i :: 0 <= i < |vs| ==> Fold(vs).min <= vs[i]
    ensures Fold(vs).max in vs && forall i :: 0 <= i < |vs| ==> vs[i] <= Fold(vs).max
  {
    FoldCountSum(vs);
    FoldMin(vs);
    FoldMax(vs);
  }

  lemma {:induction false} FoldCountSum(vs: seq<int>)
    ensures Fold(vs).count == |vs| && Fold(vs).sum == Sum(vs)
  {
    if vs != [] {
      var init, last := vs[..|vs| - 1], vs[|vs| - 1];
      assert vs == init + [last];
      SumAppend(init, last);
      FoldCountSum(init);
    }
  }

  /** The split of a non-empty run into all but the last measurement, and the last. */
  lemma InitLast(vs: seq<int>)
    requires vs != [] && AllInI16(vs)
    ensures AllInI16(vs[..|vs| - 1]) && InI16(vs[|vs| - 1])
    ensures forall x | x in vs[..|vs| - 1] :: x in vs
    ensures forall i :: 0 <= i < |vs| - 1 ==> vs[i] == vs[..|vs| - 1][i]
  {
  }

  lemma {:induction false} FoldMin(vs: seq<int>)
    requires vs != [] && AllInI16(vs)
    ensures Fold(vs).min in vs && forall i :: 0 <= i < |vs| ==> Fold(vs).min <= vs[i]
  {
    var init, last := vs[..|vs| - 1], vs[|vs| - 1];
    InitLast(vs);
    if init != [] {
      FoldMin(init);
    }
  }

  lemma {:induction false} FoldMax(vs: seq<int>)
    requires vs != [] && AllInI16(vs)
    ensures Fold(vs).max in vs && forall i :: 0 <= i < |vs| ==> vs[i] <= Fold(vs).max
  {
    var init, last := vs[..|vs| - 1], vs[|vs| - 1];
    InitLast(vs);
    if init != [] {
      FoldMax(init);
    }
  }

  /** A non-empty record's minimum is at most its maximum, and its mean lies between them. */
  lemma FoldBounds(vs: seq<int>)
    requires vs != [] && AllInI16(vs)
    ensures Fold(vs).min <= Fold(vs).max
    ensures Fold(vs).min * Fold(vs).count <= Fold(vs).sum <= Fold(vs).max * Fold(vs).count
  {
    FoldSummarises(vs);
    SumBetween(vs, Fold(vs).min, Fold(vs).max);
  }

  lemma {:induction false} SumBetween(vs: seq<int>, lo: int, hi: int)
    requires forall i :: 0 <= i < |vs| ==> lo <= vs[i] <= hi
    ensures lo * |vs| <= Sum(vs) <= hi * |vs|
  {
    if vs != [] {
      SumBetween(vs[1..], lo, hi);
    }
  }

  /** Removing one element at position `j` takes it off the sum. */
  lemma {:induction false} SumRemove(vs: seq<int>, j: nat)
    requires j < |vs|
    ensures Sum(vs) == vs[j] + Sum(vs[..j] + vs[j + 1..])
  {
    if j > 0 {
      SumRemove(vs[1..], j - 1);
      assert vs[1..][..j - 1] + vs[1..][j..] == (vs[..j] + vs[j + 1..])[1..];
    } else {
      assert vs[..0] + vs[1..] == vs[1..];
    }
  }

  lemma MultisetRemove(ws: seq<int>, j: nat)
    requires j < |ws|
    ensures multiset(ws[..j] + ws[j + 1..]) == multiset(ws) - multiset{ws[j]}
  {
    assert ws == ws[..j] + [ws[j]] + ws[j + 1..];
  }

  lemma MultisetTail(vs: seq<int>)
    requires vs != []
    ensures multiset(vs[1..]) == multiset(vs) - multiset{vs[0]}
  {
    assert vs == [vs[0]] + vs[1..];
  }

  lemma {:induction false} SumPermutation(vs: seq<int>, ws: seq<int>)
    requires multiset(vs) == multiset(ws)
    ensures Sum(vs) == Sum(ws)
  {
    if vs != [] {
      var x := vs[0];
      assert x in multiset(ws);
      var j :| 0 <= j < |ws| && ws[j] == x;
      var rest := ws[..j] + ws[j + 1..];
      MultisetRemove(ws, j);
      MultisetTail(vs);
      assert multiset(vs[1..]) == multiset(rest);
      SumRemove(ws, j);
      SumPermutation(vs[1..], rest);
    } else {
      assert |ws| == |multiset(ws)| == 0;
    }
  }

  /** The record depends only on the multiset of measurements, not on their order. */
  lemma FoldPermutation(vs: seq<int>, ws: seq<int>)
    requires multiset(vs) == multiset(ws) && AllInI16(vs)
    ensures Fold(vs) == Fold(ws)
  {
    assert |vs| == |multiset(vs)| == |ws|;
    if vs != [] {
      assert AllInI16(ws) by {
        forall i | 0 <= i < |ws| ensures InI16(ws[i]) {
          assert ws[i] in multiset(vs);
        }
      }
      FoldSummarises(vs);
      FoldSummarises(ws);
      SumPermutation(vs, ws);
      var a, b := Fold(vs), Fold(ws);
      assert a.min in multiset(ws) && b.min in multiset(vs);
      assert a.max in multiset(ws) && b.max in multiset(vs);
    }
  }

  /** `CityDetails`: the record, updated in place, with Rust's field widths. */
  class CityDetails {
    var min: i16
    var max: i16
    var sum: i32
    var count: u32

    function Value(): (s: Stats)
      reads this
      ensures InI16(s.min) && InI16(s.max) && InI32(s.sum) && 0 <= s.count <= U32_MAX
    {
      Stats(min as int, max as int, sum as int, count as int)
    }

    /** `CityDetails::default()`. */
    constructor ()
      ensures min as int == I16_MAX && max as int == I16_MIN && sum == 0 && count == 0
      ensures Value() == Default()
    {
      min := I16_MAX as i16;
      max := I16_MIN as i16;
      sum := 0;
      count := 0;
    }

    /** `update(meas)`; the sum and the count must not overflow their widths. */
    method Update(meas: i16)
      requires InI32(sum as int + meas as int) && count as int < U32_MAX
      modifies this
      ensures Value() == Updated(old(Value()), meas as int)
    {
      if min > meas {
        min := meas;
      }
      if max < meas {
        max := meas;
      }
      sum := sum + meas as i32;
      count := count + 1;
    }
  }
}
