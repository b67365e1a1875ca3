/**
 * The depth order the enemies are drawn in: farthest from the camera first,
 * by the distance each enemy cached when it was created.
 */
module DepthOrder {
  import opened Entities

  /** The comparison the sort is given: `a` goes before `b` when it is strictly farther. */
  predicate DrawnBefore(a: Enemy, b: Enemy)
  {
    a.dist > b.dist
  }

  /** No enemy is strictly nearer than one that comes after it. */
  ghost predicate FarFirst(s: seq<Enemy>)
  {
    forall a, b :: 0 <= a < b < |s| ==> !DrawnBefore(s[b], s[a])
  }

  /**
   * Sorting the enemy pool with the comparison above.  The sort of the demo
   * is the standard library's, whose algorithm is not part of this model; it
   * promises a permutation ordered by the comparison, which is what this
   * insertion sort is proved to deliver.  Enemies at equal distances may come
   * out in any order, as with the library sort.
   */
  method SortByDistance(s: seq<Enemy>) returns (r: seq<Enemy>)
    ensures multiset(r) == multiset(s)
    ensures FarFirst(r)
  {
    r := s;
    var i := 0;
    while i < |r|
      invariant 0 <= i <= |r| == |s|
      invariant multiset(r) == multiset(s)
      invariant forall a, b :: 0 <= a < b < i ==> r[a].dist >= r[b].dist
    {
      var j := i;
      while j > 0 && DrawnBefore(r[j], r[j - 1])
        invariant 0 <= j <= i < |r| == |s|
        invariant multiset(r) == multiset(s)
        invariant forall a, b :: 0 <= a < b <= i && b != j ==> r[a].dist >= r[b].dist
      {
        r := r[j - 1 := r[j]][j := r[j - 1]];
        j := j - 1;
      }
      i := i + 1;
    }
  }
}
