/**
 * Removing objects from a pool: the backward erase loop of the demo and the
 * order-preserving filter that specifies it.
 */
module Pools {

  /** The elements of `s` that satisfy `p`, in their order in `s`. */
  function Keep<T>(s: seq<T>, p: T -> bool): (r: seq<T>)
    ensures |r| <= |s|
  {
    if s == [] then []
    else (if p(s[0]) then [s[0]] else []) + Keep(s[1..], p)
  }

  /** Every index of `xs` moved up by one. */
  function Shift(xs: seq<nat>): (r: seq<nat>)
    ensures |r| == |xs|
    ensures forall k :: 0 <= k < |xs| ==> r[k] == xs[k] + 1
  {
    seq(|xs|, k requires 0 <= k < |xs| => xs[k] + 1)
  }

  /** The positions in `s` of the elements that satisfy `p`, in increasing order. */
  function KeptIndices<T>(s: seq<T>, p: T -> bool): (r: seq<nat>)
  {
    if s == [] then []
    else (if p(s[0]) then [0] else []) + Shift(KeptIndices(s[1..], p))
  }

  /** There are as many selected positions as survivors. */
  lemma {:induction false} KeptIndicesLength<T>(s: seq<T>, p: T -> bool)
    ensures |KeptIndices(s, p)| == |Keep(s, p)|
  {
    if s != [] {
      KeptIndicesLength(s[1..], p);
    }
  }

  /** The selected position of rank `k` holds the survivor of rank `k`. */
  lemma {:induction false} KeptIndexAt<T>(s: seq<T>, p: T -> bool, k: nat)
    requires k < |KeptIndices(s, p)|
    ensures k < |Keep(s, p)|
    ensures KeptIndices(s, p)[k] < |s| && p(s[KeptIndices(s, p)[k]])
    ensures Keep(s, p)[k] == s[KeptIndices(s, p)[k]]
  {
    KeptIndicesLength(s, p);
    assert s != [];
    var t := s[1..];
    var idx, rest := KeptIndices(s, p), KeptIndices(t, p);
    var kept, keptRest := Keep(s, p), Keep(t, p);
    KeptIndicesLength(t, p);
    if p(s[0]) && k == 0 {
      assert idx[0] == 0 && kept[0] == s[0];
    } else {
      var k' := if p(s[0]) then k - 1 else k;
      assert idx == (if p(s[0]) then [0] else []) + Shift(rest);
      assert kept == (if p(s[0]) then [s[0]] else []) + keptRest;
      assert idx[k] == rest[k'] + 1 && kept[k] == keptRest[k'];
      KeptIndexAt(t, p, k');
      assert s[rest[k'] + 1] == t[rest[k']];
    }
  }

  /** Each selected position holds the element Keep puts at the same rank. */
  lemma {:induction false} KeptIndicesMatch<T>(s: seq<T>, p: T -> bool)
    ensures |KeptIndices(s, p)| == |Keep(s, p)|
    ensures forall k :: 0 <= k < |KeptIndices(s, p)| ==>
      KeptIndices(s, p)[k] < |s| && p(s[KeptIndices(s, p)[k]]) && Keep(s, p)[k] == s[KeptIndices(s, p)[k]]
  {
    KeptIndicesLength(s, p);
    forall k | 0 <= k < |KeptIndices(s, p)|
      ensures KeptIndices(s, p)[k] < |s| && p(s[KeptIndices(s, p)[k]]) && Keep(s, p)[k] == s[KeptIndices(s, p)[k]]
    {
      KeptIndexAt(s, p, k);
    }
  }

  /** The selected positions are strictly increasing. */
  lemma {:induction false} KeptIndicesIncreasing<T>(s: seq<T>, p: T -> bool)
    ensures forall k, l :: 0 <= k < l < |KeptIndices(s, p)| ==> KeptIndices(s, p)[k] < KeptIndices(s, p)[l]
  {
    if s != [] {
      var t := s[1..];
      KeptIndicesIncreasing(t, p);
      var rest := KeptIndices(t, p);
      var head: seq<nat> := if p(s[0]) then [0] else [];
      var idx := head + Shift(rest);
      assert idx == KeptIndices(s, p);
      forall k, l | 0 <= k < l < |idx| ensures idx[k] < idx[l] {
        assert idx[l] == rest[l - |head|] + 1;
        if k >= |head| {
          assert idx[k] == rest[k - |head|] + 1;
        }
      }
    }
  }

  /** Every position whose element satisfies `p` is selected. */
  lemma {:induction false} KeptIndicesComplete<T>(s: seq<T>, p: T -> bool)
    ensures forall i :: 0 <= i < |s| && p(s[i]) ==> i in KeptIndices(s, p)
  {
    if s != [] {
      var t := s[1..];
      KeptIndicesComplete(t, p);
      var rest := KeptIndices(t, p);
      var head: seq<nat> := if p(s[0]) then [0] else [];
      var idx := head + Shift(rest);
      assert idx == KeptIndices(s, p);
      forall i | 0 <= i < |s| && p(s[i])
        ensures i in idx
      {
        if i > 0 {
          assert t[i - 1] == s[i];
          var k :| 0 <= k < |rest| && rest[k] == i - 1;
          assert idx[|head| + k] == i;
        } else {
          assert idx[0] == 0;
        }
      }
    }
  }

  /**
   * Keep(s, p) is exactly the selection of the positions where `p` holds,
   * taken in increasing order: every selected position satisfies `p`, every
   * position that satisfies `p` is selected, and the relative order of the
   * survivors is the order they had in `s`.
   */
  lemma {:induction false} KeepSelectsInOrder<T>(s: seq<T>, p: T -> bool)
    ensures var idx := KeptIndices(s, p);
      && |idx| == |Keep(s, p)|
      && (forall k :: 0 <= k < |idx| ==> idx[k] < |s| && p(s[idx[k]]) && Keep(s, p)[k] == s[idx[k]])
      && (forall k, l :: 0 <= k < l < |idx| ==> idx[k] < idx[l])
      && (forall i :: 0 <= i < |s| && p(s[i]) ==> i in idx)
  {
    KeptIndicesMatch(s, p);
    KeptIndicesIncreasing(s, p);
    KeptIndicesComplete(s, p);
  }

  /**
   * Every survivor satisfies the filter, and every property that all
   * elements of the pool had, the survivors still have.
   */
  lemma {:induction false} KeepPreserves<T>(s: seq<T>, p: T -> bool, q: T -> bool)
    requires forall i :: 0 <= i < |s| ==> q(s[i])
    ensures forall k :: 0 <= k < |Keep(s, p)| ==> p(Keep(s, p)[k]) && q(Keep(s, p)[k])
  {
    KeptIndicesMatch(s, p);
  }

  /** Filtering distributes over concatenation. */
  lemma {:induction false} KeepAppend<T>(a: seq<T>, b: seq<T>, p: T -> bool)
    ensures Keep(a + b, p) == Keep(a, p) + Keep(b, p)
  {
    if a != [] {
      assert (a + b)[1..] == a[1..] + b;
      KeepAppend(a[1..], b, p);
    } else {
      assert a + b == b;
    }
  }

  /** A pool in which every element survives is left as it is. */
  lemma {:induction false} KeepAll<T>(s: seq<T>, p: T -> bool)
    requires forall i :: 0 <= i < |s| ==> p(s[i])
    ensures Keep(s, p) == s
  {
    if s != [] {
      KeepAll(s[1..], p);
    }
  }

  /** Filtering twice is filtering once: a second pass removes nothing. */
  lemma {:induction false} KeepIdempotent<T>(s: seq<T>, p: T -> bool)
    ensures Keep(Keep(s, p), p) == Keep(s, p)
  {
    KeepPreserves(s, p, _ => true);
    KeepAll(Keep(s, p), p);
  }

  /** Keep(s, p) has the same length as `s` exactly when no element of `s` is dropped. */
  lemma {:induction false} KeepShrinks<T>(s: seq<T>, p: T -> bool)
    ensures |Keep(s, p)| == |s| <==> forall i :: 0 <= i < |s| ==> p(s[i])
  {
    if s != [] {
      KeepShrinks(s[1..], p);
      if !p(s[0]) {
        assert |Keep(s, p)| < |s|;
      } else {
        forall i | 0 < i < |s| && p(s[i]) ensures p(s[1..][i - 1]) { }
        if forall i :: 0 <= i < |s[1..]| ==> p(s[1..][i]) {
          forall i | 0 <= i < |s| ensures p(s[i]) {
            if i > 0 { assert s[i] == s[1..][i - 1]; }
          }
        }
      }
    }
  }

  /**
   * The removal loop of the pool: walk the pool from the back and erase every
   * dead element.  `alive` reads the `life` flag of an element.  The pool is
   * passed in and returned, as the demo passes it by reference.
   */
  method DeleteDestroyedObject<T>(objects: seq<T>, alive: T -> bool) returns (r: seq<T>)
    ensures r == Keep(objects, alive)
  {
    r := objects;
    var i := |objects|;
    while i > 0
      invariant 0 <= i <= |objects|
      invariant r == objects[..i] + Keep(objects[i..], alive)
    {
      i := i - 1;
      assert objects[i..][1..] == objects[i + 1..];
      assert objects[..i + 1] == objects[..i] + [objects[i]];
      if !alive(r[i]) {
        r := r[..i] + r[i + 1..];
      }
    }
    assert objects[0..] == objects;
  }
}
