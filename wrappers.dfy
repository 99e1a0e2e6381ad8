/** Option and Result values used in place of Python's None and raised exceptions. */
module Wrappers {

  /** A value that may be absent (Python's `None`). */
  datatype Option<+T> = None | Some(value: T)

  /** Either a value or the text of the exception that replaced it (`str(e)`). */
  datatype Result<+T> = Ok(value: T) | Err(error: string)

  // ---------------------------------------------------------------------------
  // Keeping the present entries of a sequence, in order

  /** The values of the `Some` entries, in order: a loop that appends only when it has something. */
  function Kept<T>(xs: seq<Option<T>>): seq<T>
    decreases |xs|
  {
    if xs == [] then []
    else
      var last := xs[|xs| - 1];
      Kept(xs[..|xs| - 1]) + (if last.Some? then [last.value] else [])
  }

  /** One more entry visited: its value is appended when it has one. */
  lemma KeptSnoc<T>(xs: seq<Option<T>>, i: nat)
    requires i < |xs|
    ensures Kept(xs[..i + 1]) == Kept(xs[..i]) + (if xs[i].Some? then [xs[i].value] else [])
  {
    assert xs[..i + 1][..i] == xs[..i];
  }

  /** Every entry visited from the front: the first entry's value comes before the rest. */
  lemma {:induction false} KeptCons<T>(x: Option<T>, xs: seq<Option<T>>)
    ensures Kept([x] + xs) == (if x.Some? then [x.value] else []) + Kept(xs)
    decreases |xs|
  {
    if xs != [] {
      var n := |xs| - 1;
      assert ([x] + xs)[..n + 1] == [x] + xs[..n];
      KeptCons(x, xs[..n]);
    }
  }

  /** `f` applied to every element, in order. */
  function Map<A, B>(f: A -> B, xs: seq<A>): (ys: seq<B>)
    ensures |ys| == |xs| && forall k :: 0 <= k < |xs| ==> ys[k] == f(xs[k])
  {
    seq(|xs|, k requires 0 <= k < |xs| => f(xs[k]))
  }

  lemma MapCons<A, B>(f: A -> B, xs: seq<A>)
    requires xs != []
    ensures Map(f, xs) == [f(xs[0])] + Map(f, xs[1..])
  {
    var a, b := Map(f, xs), [f(xs[0])] + Map(f, xs[1..]);
    forall k | 0 <= k < |a| ensures a[k] == b[k] {
      if k > 0 {
        assert xs[1..][k - 1] == xs[k];
      }
    }
  }

  /** The positions of the `Some` entries, in increasing order. */
  function PresentAt<T>(xs: seq<Option<T>>): (idx: seq<nat>)
    ensures forall m :: 0 <= m < |idx| ==> idx[m] < |xs| && xs[idx[m]].Some?
    ensures forall m, n :: 0 <= m < n < |idx| ==> idx[m] < idx[n]
    decreases |xs|
  {
    if xs == [] then []
    else
      var n := |xs| - 1;
      PresentAt(xs[..n]) + (if xs[n].Some? then [n] else [])
  }

  /** Every `Some` position is listed. */
  lemma {:induction false} PresentAtComplete<T>(xs: seq<Option<T>>, j: nat)
    requires j < |xs| && xs[j].Some?
    ensures j in PresentAt(xs)
    decreases |xs|
  {
    var n := |xs| - 1;
    if j < n {
      PresentAtComplete(xs[..n], j);
    }
  }

  /** The m-th kept value is the value at the m-th present position. */
  lemma {:induction false} KeptSpec<T>(xs: seq<Option<T>>)
    ensures var idx := PresentAt(xs);
      |Kept(xs)| == |idx| && forall m :: 0 <= m < |idx| ==> Kept(xs)[m] == xs[idx[m]].value
    decreases |xs|
  {
    if xs != [] {
      var n := |xs| - 1;
      KeptSpec(xs[..n]);
    }
  }
}
