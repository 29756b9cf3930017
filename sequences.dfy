/**
  `Array.prototype.filter` on sequences, and what it means: the result is the
  sub-list of the input, in the input's order, made of exactly the elements
  the predicate accepts.
 */
module Sequences {

  /** `s.filter(p)`. */
  function Filter<T>(s: seq<T>, p: T -> bool): (r: seq<T>)
    ensures |r| <= |s|
    ensures forall x :: x in r ==> x in s && p(x)
    ensures forall x :: x in s && p(x) ==> x in r
  {
    if s == [] then []
    else (if p(s[0]) then [s[0]] else []) + Filter(s[1..], p)
  }

  /**
    `r` is picked out of `s` at the strictly increasing positions `idx`, every
    picked element satisfies `p`, and every position of `s` whose element
    satisfies `p` is picked.
   */
  ghost predicate IsSelection<T>(s: seq<T>, r: seq<T>, p: T -> bool, idx: seq<nat>) {
    && |idx| == |r|
    && (forall k :: 0 <= k < |idx| ==> idx[k] < |s| && r[k] == s[idx[k]])
    && Increasing(idx)
    && (forall k :: 0 <= k < |r| ==> p(r[k]))
    && (forall i :: 0 <= i < |s| && p(s[i]) ==> i in idx)
  }

  ghost predicate Increasing(idx: seq<nat>) {
    forall k, l :: 0 <= k < l < |idx| ==> idx[k] < idx[l]
  }

  /** Every position in `idx` moved one to the right. */
  function Shift(idx: seq<nat>): (r: seq<nat>)
    ensures |r| == |idx| && forall k :: 0 <= k < |idx| ==> r[k] == idx[k] + 1
  {
    seq(|idx|, k requires 0 <= k < |idx| => idx[k] + 1)
  }

  /** The filter is a selection: an order-preserving sub-list of exactly the accepted elements. */
  lemma {:induction false} FilterIsSelection<T>(s: seq<T>, p: T -> bool) returns (idx: seq<nat>)
    ensures IsSelection(s, Filter(s, p), p, idx)
  {
    if s == [] {
      idx := [];
    } else {
      var rest := FilterIsSelection(s[1..], p);
      idx := SelectionPrepend(s, Filter(s[1..], p), p, rest);
    }
  }

  /** A selection from `s[1..]` extends to one from `s`, taking `s[0]` exactly when `p` accepts it. */
  lemma SelectionPrepend<T>(s: seq<T>, tail: seq<T>, p: T -> bool, rest: seq<nat>) returns (idx: seq<nat>)
    requires s != [] && IsSelection(s[1..], tail, p, rest)
    ensures IsSelection(s, (if p(s[0]) then [s[0]] else []) + tail, p, idx)
  {
    idx := (if p(s[0]) then [0] else []) + Shift(rest);
    ShiftIncreasing(rest, p(s[0]));
    PrependPicks(s, tail, p, rest);
    PrependCovers(s, tail, p, rest);
  }

  lemma PrependPicks<T>(s: seq<T>, tail: seq<T>, p: T -> bool, rest: seq<nat>)
    requires s != [] && IsSelection(s[1..], tail, p, rest)
    ensures var r := (if p(s[0]) then [s[0]] else []) + tail;
      var idx := (if p(s[0]) then [0] else []) + Shift(rest);
      forall k :: 0 <= k < |idx| ==> idx[k] < |s| && r[k] == s[idx[k]]
  {
    var r := (if p(s[0]) then [s[0]] else []) + tail;
    var idx := (if p(s[0]) then [0] else []) + Shift(rest);
    var d := if p(s[0]) then 1 else 0;
    forall k | d <= k < |idx| ensures idx[k] < |s| && r[k] == s[idx[k]] {
      assert idx[k] == rest[k - d] + 1 && r[k] == tail[k - d];
      assert s[1..][rest[k - d]] == s[rest[k - d] + 1];
    }
  }

  lemma PrependCovers<T>(s: seq<T>, tail: seq<T>, p: T -> bool, rest: seq<nat>)
    requires s != [] && IsSelection(s[1..], tail, p, rest)
    ensures var idx := (if p(s[0]) then [0] else []) + Shift(rest);
      forall i :: 0 <= i < |s| && p(s[i]) ==> i in idx
  {
    var idx := (if p(s[0]) then [0] else []) + Shift(rest);
    var d := if p(s[0]) then 1 else 0;
    forall i | 1 <= i < |s| && p(s[i]) ensures i in idx {
      assert s[1..][i - 1] == s[i];
      var k :| 0 <= k < |rest| && rest[k] == i - 1;
      assert idx[k + d] == i;
    }
  }

  /** The positions `idx[from..]`, each moved one to the left. */
  function Unshift(idx: seq<nat>, from: nat): (r: seq<nat>)
    requires from <= |idx|
    requires forall k :: from <= k < |idx| ==> idx[k] >= 1
    ensures |r| == |idx| - from && forall k :: 0 <= k < |r| ==> r[k] == idx[k + from] - 1
  {
    seq(|idx| - from, k requires 0 <= k < |idx| - from => idx[k + from] - 1)
  }

  /** A selection is unique: it can only be the filter. */
  lemma {:induction false} SelectionIsFilter<T>(s: seq<T>, r: seq<T>, p: T -> bool, idx: seq<nat>)
    requires IsSelection(s, r, p, idx)
    ensures r == Filter(s, p)
  {
    if s != [] {
      var from := SelectionTail(s, r, p, idx);
      SelectionIsFilter(s[1..], r[from..], p, Unshift(idx, from));
      FilterCons(s, r, p, from);
    } else {
      SelectionFirst(s, r, p, idx);
    }
  }

  lemma SelectionFirst<T>(s: seq<T>, r: seq<T>, p: T -> bool, idx: seq<nat>)
    requires IsSelection(s, r, p, idx)
    ensures r != [] ==> idx[0] < |s|
  {
  }

  /** A list that takes `s[0]` exactly when `p` accepts it, followed by the filter of `s[1..]`, is the filter of `s`. */
  lemma FilterCons<T>(s: seq<T>, r: seq<T>, p: T -> bool, from: nat)
    requires s != [] && from == (if p(s[0]) then 1 else 0) && from <= |r|
    requires from == 1 ==> r[0] == s[0]
    requires r[from..] == Filter(s[1..], p)
    ensures r == Filter(s, p)
  {
    if from == 1 {
      assert r == [r[0]] + r[1..];
    } else {
      assert r[0..] == r;
    }
  }

  /**
    Dropping the first element of `s` leaves a selection of the rest: the
    first picked element goes when `p` accepted `s[0]`.
   */
  lemma SelectionTail<T>(s: seq<T>, r: seq<T>, p: T -> bool, idx: seq<nat>) returns (from: nat)
    requires s != [] && IsSelection(s, r, p, idx)
    ensures from == (if p(s[0]) then 1 else 0) && from <= |r|
    ensures from == 1 ==> r[0] == s[0]
    ensures forall k :: from <= k < |idx| ==> idx[k] >= 1
    ensures IsSelection(s[1..], r[from..], p, Unshift(idx, from))
  {
    from := if p(s[0]) then 1 else 0;
    if p(s[0]) {
      assert 0 in idx;
      var z :| 0 <= z < |idx| && idx[z] == 0;
      forall k | 1 <= k < |idx| ensures idx[k] >= 1 {
        assert idx[0] < idx[k];
      }
    } else {
      forall k | 0 <= k < |idx| ensures idx[k] >= 1 {
        assert r[k] == s[idx[k]] && p(r[k]);
      }
    }
    SelectionShift(s, r, p, idx, from);
  }

  lemma SelectionShift<T>(s: seq<T>, r: seq<T>, p: T -> bool, idx: seq<nat>, from: nat)
    requires s != [] && IsSelection(s, r, p, idx)
    requires from == (if p(s[0]) then 1 else 0) && from <= |r|
    requires forall k :: from <= k < |idx| ==> idx[k] >= 1
    ensures IsSelection(s[1..], r[from..], p, Unshift(idx, from))
  {
    UnshiftIncreasing(idx, from);
    ShiftPicks(s, r, p, idx, from);
    ShiftCovers(s, r, p, idx, from);
  }

  lemma ShiftPicks<T>(s: seq<T>, r: seq<T>, p: T -> bool, idx: seq<nat>, from: nat)
    requires s != [] && IsSelection(s, r, p, idx)
    requires from == (if p(s[0]) then 1 else 0) && from <= |r|
    requires forall k :: from <= k < |idx| ==> idx[k] >= 1
    ensures var idx', r' := Unshift(idx, from), r[from..];
      forall k :: 0 <= k < |r'| ==> idx'[k] < |s| - 1 && r'[k] == s[1..][idx'[k]] && p(r'[k])
  {
    var idx' := Unshift(idx, from);
    var r' := r[from..];
    forall k | 0 <= k < |r'| ensures idx'[k] < |s| - 1 && r'[k] == s[1..][idx'[k]] && p(r'[k]) {
      assert r'[k] == r[k + from] == s[idx[k + from]];
      assert idx'[k] == idx[k + from] - 1;
    }
  }

  lemma ShiftCovers<T>(s: seq<T>, r: seq<T>, p: T -> bool, idx: seq<nat>, from: nat)
    requires s != [] && IsSelection(s, r, p, idx)
    requires from == (if p(s[0]) then 1 else 0) && from <= |r|
    requires forall k :: from <= k < |idx| ==> idx[k] >= 1
    ensures var idx' := Unshift(idx, from);
      forall i :: 0 <= i < |s| - 1 && p(s[1..][i]) ==> i in idx'
  {
    var idx' := Unshift(idx, from);
    forall i | 0 <= i < |s| - 1 && p(s[1..][i]) ensures i in idx' {
      assert s[1..][i] == s[i + 1];
      var k :| 0 <= k < |idx| && idx[k] == i + 1;
      assert idx'[k - from] == i;
    }
  }

  lemma ShiftIncreasing(idx: seq<nat>, withZero: bool)
    requires Increasing(idx)
    ensures Increasing((if withZero then [0] else []) + Shift(idx))
  {
    var shifted := Shift(idx);
    var d := if withZero then 1 else 0;
    var idx' := (if withZero then [0] else []) + shifted;
    forall k, l | 0 <= k < l < |idx'| ensures idx'[k] < idx'[l] {
      if k >= d {
        assert idx[k - d] < idx[l - d];
      }
    }
  }

  lemma UnshiftIncreasing(idx: seq<nat>, from: nat)
    requires from <= |idx| && Increasing(idx)
    requires forall k :: from <= k < |idx| ==> idx[k] >= 1
    ensures Increasing(Unshift(idx, from))
  {
    var idx' := Unshift(idx, from);
    forall k, l | 0 <= k < l < |idx'| ensures idx'[k] < idx'[l] {
      assert idx[k + from] < idx[l + from];
    }
  }

  /** The filter keeps everything exactly when every element is accepted. */
  lemma {:induction false} FilterKeepsAll<T>(s: seq<T>, p: T -> bool)
    ensures |Filter(s, p)| == |s| <==> forall i :: 0 <= i < |s| ==> p(s[i])
    ensures (forall i :: 0 <= i < |s| ==> p(s[i])) ==> Filter(s, p) == s
  {
    if s != [] {
      FilterKeepsAll(s[1..], p);
      assert forall i :: 1 <= i < |s| ==> s[1..][i - 1] == s[i];
      if !p(s[0]) {
        assert |Filter(s, p)| < |s|;
      }
    }
  }

  /** When `p` rejects only position `i`, the filter removes exactly that element. */
  lemma {:induction false} FilterDropsOne<T>(s: seq<T>, p: T -> bool, i: nat)
    requires i < |s| && !p(s[i])
    requires forall j :: 0 <= j < |s| && j != i ==> p(s[j])
    ensures Filter(s, p) == s[..i] + s[i + 1..]
  {
    if i == 0 {
      assert forall j :: 0 <= j < |s| - 1 ==> s[1..][j] == s[j + 1];
      FilterKeepsAll(s[1..], p);
    } else {
      assert forall j :: 0 <= j < |s| - 1 && j != i - 1 ==> s[1..][j] == s[j + 1];
      FilterDropsOne(s[1..], p, i - 1);
      DropOneTail(s, i);
    }
  }

  lemma DropOneTail<T>(s: seq<T>, i: nat)
    requires 0 < i < |s|
    ensures [s[0]] + (s[1..][..i - 1] + s[1..][i..]) == s[..i] + s[i + 1..]
  {
    assert s[1..][..i - 1] == s[1..i];
    assert s[1..][i..] == s[i + 1..];
  }
}
