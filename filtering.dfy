/**
 * Keeping the elements of a sequence that pass a test, in order: the
 * shape of a loop that appends to a list when a condition holds.
 */
module Filtering {

  function Filter<T>(xs: seq<T>, keep: T -> bool): seq<T> {
    if xs == [] then []
    else (if keep(xs[0]) then [xs[0]] else []) + Filter(xs[1..], keep)
  }

  /** Filtering a concatenation filters each part. */
  lemma {:induction false} FilterAppend<T>(xs: seq<T>, ys: seq<T>, keep: T -> bool)
    ensures Filter(xs + ys, keep) == Filter(xs, keep) + Filter(ys, keep)
    decreases |xs|
  {
    if xs == [] {
      assert xs + ys == ys;
    } else {
      var head := if keep(xs[0]) then [xs[0]] else [];
      assert (xs + ys)[0] == xs[0];
      assert (xs + ys)[1..] == xs[1..] + ys;
      assert Filter(xs + ys, keep) == head + Filter(xs[1..] + ys, keep);
      FilterAppend(xs[1..], ys, keep);
      assert head + (Filter(xs[1..], keep) + Filter(ys, keep))
          == (head + Filter(xs[1..], keep)) + Filter(ys, keep);
    }
  }

  /** One more element at the end is kept or dropped on its own. */
  lemma FilterSnoc<T>(xs: seq<T>, x: T, keep: T -> bool)
    ensures Filter(xs + [x], keep) == Filter(xs, keep) + (if keep(x) then [x] else [])
  {
    FilterAppend(xs, [x], keep);
    assert Filter([x], keep) == (if keep(x) then [x] else []) + Filter([], keep);
  }

  /** `idx` picks out `xs` from `ys` at strictly increasing positions. */
  ghost predicate Embeds<T>(idx: seq<nat>, xs: seq<T>, ys: seq<T>) {
    && |idx| == |xs|
    && (forall k :: 0 <= k < |idx| ==> idx[k] < |ys| && xs[k] == ys[idx[k]])
    && (forall k, l :: 0 <= k < l < |idx| ==> idx[k] < idx[l])
  }

  /** Every position moved one place on. */
  function Shift(idx: seq<nat>): (r: seq<nat>)
    ensures |r| == |idx| && forall k :: 0 <= k < |idx| ==> r[k] == idx[k] + 1
  {
    seq(|idx|, k requires 0 <= k < |idx| => idx[k] + 1)
  }

  /** Positions of the elements the filter keeps. */
  function Kept<T>(xs: seq<T>, keep: T -> bool): seq<nat> {
    if xs == [] then []
    else (if keep(xs[0]) then [0] else []) + Shift(Kept(xs[1..], keep))
  }

  lemma {:induction false} KeptEmbeds<T>(xs: seq<T>, keep: T -> bool)
    ensures Embeds(Kept(xs, keep), Filter(xs, keep), xs)
    decreases |xs|
  {
    if xs != [] {
      KeptEmbeds(xs[1..], keep);
      var tail, out := Kept(xs[1..], keep), Filter(xs[1..], keep);
      var shifted := Shift(tail);
      assert forall k :: 0 <= k < |tail| ==> out[k] == xs[shifted[k]];
    }
  }

  lemma ShiftMember(idx: seq<nat>, i: nat)
    ensures 0 !in Shift(idx)
    ensures i + 1 in Shift(idx) <==> i in idx
  {
    var r := Shift(idx);
    if i in idx {
      var k :| 0 <= k < |idx| && idx[k] == i;
      assert r[k] == i + 1;
    }
    if i + 1 in r {
      var k :| 0 <= k < |r| && r[k] == i + 1;
      assert idx[k] == i;
    }
  }

  lemma {:induction false} KeptExactly<T>(xs: seq<T>, keep: T -> bool)
    ensures forall i :: 0 <= i < |xs| ==> (i in Kept(xs, keep) <==> keep(xs[i]))
    decreases |xs|
  {
    if xs != [] {
      var tail := Kept(xs[1..], keep);
      KeptExactly(xs[1..], keep);
      var head: seq<nat> := if keep(xs[0]) then [0] else [];
      assert Kept(xs, keep) == head + Shift(tail);
      forall i | 0 <= i < |xs|
        ensures i in Kept(xs, keep) <==> keep(xs[i])
      {
        if i == 0 {
          ShiftMember(tail, 0);
        } else {
          ShiftMember(tail, i - 1);
          assert xs[i] == xs[1..][i - 1];
          assert i - 1 in tail <==> keep(xs[1..][i - 1]);
          assert i !in head;
        }
      }
    }
  }

  /**
   * The result is a subsequence of the input, elements unchanged and in
   * input order, taken at exactly the positions whose element passes.
   */
  lemma FilterSelects<T>(xs: seq<T>, keep: T -> bool)
    ensures Embeds(Kept(xs, keep), Filter(xs, keep), xs)
    ensures forall i :: 0 <= i < |xs| ==> (i in Kept(xs, keep) <==> keep(xs[i]))
  {
    KeptEmbeds(xs, keep);
    KeptExactly(xs, keep);
  }

  /** Everything kept is an element of the input that passes. */
  lemma FilterSound<T>(xs: seq<T>, keep: T -> bool, x: T)
    requires x in Filter(xs, keep)
    ensures x in xs && keep(x)
  {
    FilterSelects(xs, keep);
    var idx := Kept(xs, keep);
    var k :| 0 <= k < |Filter(xs, keep)| && Filter(xs, keep)[k] == x;
    assert xs[idx[k]] == x;
    assert idx[k] in idx;
  }

  /** Nothing is kept exactly when no element passes. */
  lemma {:induction false} FilterEmptyIff<T>(xs: seq<T>, keep: T -> bool)
    ensures Filter(xs, keep) == [] <==> forall i :: 0 <= i < |xs| ==> !keep(xs[i])
    decreases |xs|
  {
    if xs != [] {
      FilterEmptyIff(xs[1..], keep);
      assert forall i :: 1 <= i < |xs| ==> xs[i] == xs[1..][i - 1];
    }
  }

  /** Filtering the result again changes nothing. */
  lemma {:induction false} FilterIdempotent<T>(xs: seq<T>, keep: T -> bool)
    ensures Filter(Filter(xs, keep), keep) == Filter(xs, keep)
    decreases |xs|
  {
    if xs != [] {
      var head := if keep(xs[0]) then [xs[0]] else [];
      FilterAppend(head, Filter(xs[1..], keep), keep);
      FilterIdempotent(xs[1..], keep);
      if head != [] {
        assert Filter(head, keep) == head + Filter([], keep);
      }
    }
  }

  /** A stricter test keeps a subsequence of what a looser one keeps. */
  lemma {:induction false} FilterStricter<T>(xs: seq<T>, strict: T -> bool, loose: T -> bool)
    requires forall x :: strict(x) ==> loose(x)
    ensures Filter(xs, strict) == Filter(Filter(xs, loose), strict)
    decreases |xs|
  {
    if xs != [] {
      var head := if loose(xs[0]) then [xs[0]] else [];
      FilterAppend(head, Filter(xs[1..], loose), strict);
      FilterStricter(xs[1..], strict, loose);
      if head != [] {
        assert Filter(head, strict) == (if strict(xs[0]) then [xs[0]] else []) + Filter([], strict);
      }
    }
  }
}
