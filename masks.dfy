/**
 * Selecting rows by a boolean mask: a mask with one entry per row keeps the
 * rows whose entry is true, in order. pandas implements boolean indexing
 * `df[m]` and `drop_duplicates` this way, and the scrapers' filtering loops
 * compute the same selection.
 */
module Masks {

  /** `df[m]`: the rows whose mask entry is true, in their original order. */
  function Mask<T(==)>(xs: seq<T>, m: seq<bool>): (r: seq<T>)
    requires |m| == |xs|
    ensures |r| <= |xs|
    ensures forall a :: a in r ==> a in xs
  {
    if xs == [] then []
    else
      var n := |xs| - 1;
      Mask(xs[..n], m[..n]) + (if m[n] then [xs[n]] else [])
  }

  /** `idx` picks the rows of `r` out of `xs` in increasing order: `r` is a subsequence of `xs`. */
  predicate Picks<T(==)>(r: seq<T>, xs: seq<T>, idx: seq<nat>) {
    && |idx| == |r|
    && (forall i :: 0 <= i < |idx| ==> idx[i] < |xs| && r[i] == xs[idx[i]])
    && (forall i, j :: 0 <= i < j < |idx| ==> idx[i] < idx[j])
  }

  /**
   * The rows that `Mask` keeps are exactly the rows whose entry is true,
   * each once and in their original order.
   */
  lemma {:induction false} MaskPicks<T>(xs: seq<T>, m: seq<bool>) returns (idx: seq<nat>)
    requires |m| == |xs|
    ensures Picks(Mask(xs, m), xs, idx)
    ensures forall i :: 0 <= i < |idx| ==> m[idx[i]]
    ensures forall k :: 0 <= k < |xs| && m[k] ==> k in idx
  {
    if xs == [] {
      idx := [];
    } else {
      var n := |xs| - 1;
      var rest := MaskPicks(xs[..n], m[..n]);
      idx := MaskPicksStep(xs, m, rest);
    }
  }

  lemma MaskPicksStep<T>(xs: seq<T>, m: seq<bool>, rest: seq<nat>) returns (idx: seq<nat>)
    requires |m| == |xs| && xs != []
    requires Picks(Mask(xs[..|xs| - 1], m[..|xs| - 1]), xs[..|xs| - 1], rest)
    requires forall i :: 0 <= i < |rest| ==> m[..|xs| - 1][rest[i]]
    requires forall k :: 0 <= k < |xs| - 1 && m[..|xs| - 1][k] ==> k in rest
    ensures Picks(Mask(xs, m), xs, idx)
    ensures forall i :: 0 <= i < |idx| ==> m[idx[i]]
    ensures forall k :: 0 <= k < |xs| && m[k] ==> k in idx
  {
    var n := |xs| - 1;
    var front := Mask(xs[..n], m[..n]);
    MaskLast(xs, m);
    PicksWiden(front, xs, n, rest);
    PrefixEntries(m, n, rest);
    if m[n] {
      idx := rest + [n];
      PicksAppend(front, xs, rest, n);
      EntriesAppend(m, n, rest);
    } else {
      idx := rest;
    }
  }

  /** `Mask` unfolded once at the last row. */
  lemma MaskLast<T>(xs: seq<T>, m: seq<bool>)
    requires |m| == |xs| && xs != []
    ensures Mask(xs, m) == Mask(xs[..|xs| - 1], m[..|xs| - 1]) + (if m[|xs| - 1] then [xs[|xs| - 1]] else [])
  {
  }

  /** What the positions say about a prefix of the mask holds of the mask. */
  lemma PrefixEntries(m: seq<bool>, n: nat, rest: seq<nat>)
    requires n <= |m|
    requires forall i :: 0 <= i < |rest| ==> rest[i] < n && m[..n][rest[i]]
    requires forall k :: 0 <= k < n && m[..n][k] ==> k in rest
    ensures forall i :: 0 <= i < |rest| ==> m[rest[i]]
    ensures forall k :: 0 <= k < n && m[k] ==> k in rest
  {
    forall i | 0 <= i < |rest| ensures m[rest[i]] {
      assert m[..n][rest[i]] == m[rest[i]];
    }
    forall k | 0 <= k < n && m[k] ensures k in rest {
      assert m[..n][k] == m[k];
    }
  }

  /** Adding the last position, whose entry is true, keeps the positions exact. */
  lemma EntriesAppend(m: seq<bool>, n: nat, rest: seq<nat>)
    requires n == |m| - 1 && m[n]
    requires forall i :: 0 <= i < |rest| ==> rest[i] < n && m[rest[i]]
    requires forall k :: 0 <= k < n && m[k] ==> k in rest
    ensures forall i :: 0 <= i < |rest + [n]| ==> m[(rest + [n])[i]]
    ensures forall k :: 0 <= k < |m| && m[k] ==> k in rest + [n]
  {
  }

  /** Positions that pick `r` out of a prefix of `xs` pick it out of `xs`. */
  lemma PicksWiden<T>(r: seq<T>, xs: seq<T>, n: nat, idx: seq<nat>)
    requires n <= |xs| && Picks(r, xs[..n], idx)
    ensures Picks(r, xs, idx) && forall i :: 0 <= i < |idx| ==> idx[i] < n
  {
    forall i | 0 <= i < |idx| ensures r[i] == xs[idx[i]] {
      assert xs[..n][idx[i]] == xs[idx[i]];
    }
  }

  /** Picking one more row, after all those already picked, extends the subsequence. */
  lemma PicksAppend<T>(r: seq<T>, xs: seq<T>, idx: seq<nat>, n: nat)
    requires n < |xs| && Picks(r, xs, idx) && forall i :: 0 <= i < |idx| ==> idx[i] < n
    ensures Picks(r + [xs[n]], xs, idx + [n])
  {
  }

  /** A mask that keeps every row keeps the table as it is. */
  lemma {:induction false} MaskAll<T>(xs: seq<T>, m: seq<bool>)
    requires |m| == |xs| && forall k :: 0 <= k < |m| ==> m[k]
    ensures Mask(xs, m) == xs
  {
    if xs != [] {
      var n := |xs| - 1;
      MaskAll(xs[..n], m[..n]);
      assert xs == xs[..n] + [xs[n]];
    }
  }

  /** Masking one more row appends it exactly when its entry is true. */
  lemma MaskSnoc<T>(xs: seq<T>, m: seq<bool>, x: T, b: bool)
    requires |m| == |xs|
    ensures Mask(xs + [x], m + [b]) == Mask(xs, m) + (if b then [x] else [])
  {
    assert (xs + [x])[..|xs|] == xs;
    assert (m + [b])[..|xs|] == m;
  }
}
