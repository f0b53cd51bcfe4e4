/**
 Keeping the present values of a sequence of options, in order: the shape of a loop
 that pushes an element for some inputs and skips the others.
 */
module Filtering {
  import opened Wrappers

  /** The values of the `Some` elements of `os`, in order. */
  function Somes<T>(os: seq<Option<T>>): (r: seq<T>)
    ensures |r| <= |os|
  {
    if |os| == 0 then []
    else
      var last := os[|os| - 1];
      Somes(os[..|os| - 1]) + (if last.Some? then [last.value] else [])
  }

  /** Appending one option appends its value, if it has one. */
  lemma SomesSnoc<T>(os: seq<Option<T>>, o: Option<T>)
    ensures Somes(os + [o]) == Somes(os) + (if o.Some? then [o.value] else [])
  {
    assert (os + [o])[..|os|] == os;
  }

  /** The positions of the `Some` elements of `os`, in increasing order. */
  function SomeIndices<T>(os: seq<Option<T>>): (r: seq<nat>)
    ensures forall k :: 0 <= k < |r| ==> r[k] < |os|
    ensures forall k, l :: 0 <= k < l < |r| ==> r[k] < r[l]
    ensures forall i :: 0 <= i < |os| ==> (i in r <==> os[i].Some?)
  {
    if |os| == 0 then []
    else
      var n := |os| - 1;
      var front := os[..n];
      assert forall i :: 0 <= i < n ==> front[i] == os[i];
      SomeIndices(front) + (if os[n].Some? then [n] else [])
  }

  /**
   `Somes(os)` is the order-preserving subsequence of `os` at `SomeIndices(os)`:
   its k-th element is the value at the k-th present position.
   */
  lemma {:induction false} SomesAtIndices<T>(os: seq<Option<T>>)
    ensures |Somes(os)| == |SomeIndices(os)|
    ensures forall k :: 0 <= k < |Somes(os)| ==> os[SomeIndices(os)[k]] == Some(Somes(os)[k])
  {
    if |os| > 0 {
      var n := |os| - 1;
      var front := os[..n];
      SomesAtIndices(front);
      var vs, idx := Somes(os), SomeIndices(os);
      var fv, fi := Somes(front), SomeIndices(front);
      if os[n].Some? {
        assert vs == fv + [os[n].value] && idx == fi + [n];
      } else {
        assert vs == fv && idx == fi;
      }
      forall k | 0 <= k < |vs|
        ensures os[idx[k]] == Some(vs[k])
      {
        if k < |fv| {
          assert front[fi[k]] == os[fi[k]];
        }
      }
    }
  }

  /** A value is kept exactly when some element of `os` holds it. */
  lemma SomesMembership<T>(os: seq<Option<T>>, x: T)
    ensures x in Somes(os) <==> exists i :: 0 <= i < |os| && os[i] == Some(x)
  {
    SomesAtIndices(os);
    var idx := SomeIndices(os);
    var vs := Somes(os);
    if x in vs {
      var k :| 0 <= k < |vs| && vs[k] == x;
      assert os[idx[k]] == Some(x);
    }
    if i :| 0 <= i < |os| && os[i] == Some(x) {
      assert i in idx;
      var k :| 0 <= k < |idx| && idx[k] == i;
      assert vs[k] == x;
    }
  }

  /** Keeping the values of a prefix gives a prefix of the kept values. */
  lemma {:induction false} SomesOfPrefix<T>(os: seq<Option<T>>, k: nat)
    requires k <= |os|
    ensures Somes(os[..k]) <= Somes(os)
    decreases |os|
  {
    if k < |os| {
      var front := os[..|os| - 1];
      assert front[..k] == os[..k];
      SomesOfPrefix(front, k);
    } else {
      assert os[..k] == os;
    }
  }

  /** One more position of `os` adds its value, if any. */
  lemma SomesStep<T>(os: seq<Option<T>>, k: nat)
    requires k < |os|
    ensures Somes(os[..k + 1]) == Somes(os[..k]) + (if os[k].Some? then [os[k].value] else [])
  {
    assert os[..k + 1] == os[..k] + [os[k]];
    SomesSnoc(os[..k], os[k]);
  }

  /** When every element is present, every value is kept, in place. */
  lemma {:induction false} SomesAllPresent<T>(os: seq<Option<T>>)
    requires forall i :: 0 <= i < |os| ==> os[i].Some?
    ensures |Somes(os)| == |os|
    ensures forall k :: 0 <= k < |os| ==> os[k] == Some(Somes(os)[k])
  {
    if |os| > 0 {
      var n := |os| - 1;
      var front := os[..n];
      SomesAllPresent(front);
      forall k | 0 <= k < |os|
        ensures os[k] == Some(Somes(os)[k])
      {
        if k < n {
          assert front[k] == os[k];
        }
      }
    }
  }
}
