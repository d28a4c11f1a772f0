/**
 * The two folds over a sequence of sets in src/SetUtils.kt: n-ary
 * intersection and n-ary union.
 */
module SetUtils {

  /** Reference definition of the union of every set in a sequence. */
  function Union<T(!new)>(sets: seq<set<T>>): (r: set<T>)
    ensures forall x :: x in r <==> exists i :: 0 <= i < |sets| && x in sets[i]
  {
    if sets == [] then {}
    else
      var rest := Union(sets[1..]);
      assert forall i :: 1 <= i < |sets| ==> sets[i] == sets[1..][i - 1];
      sets[0] + rest
  }

  /** The fold `acc ∩ sets[0] ∩ sets[1] ∩ ...`, left to right. */
  function FoldIntersect<T(!new)>(acc: set<T>, sets: seq<set<T>>): (r: set<T>)
    ensures forall x :: x in r <==> x in acc && forall i :: 0 <= i < |sets| ==> x in sets[i]
  {
    if sets == [] then acc
    else
      var r := FoldIntersect(acc * sets[0], sets[1..]);
      assert forall i :: 1 <= i < |sets| ==> sets[i] == sets[1..][i - 1];
      r
  }

  /** intersectAll: the fold starts from the first set (or from the empty
      set when there is none) and intersects every set into it. */
  function IntersectAll<T(!new)>(sets: seq<set<T>>): (r: set<T>)
    ensures sets == [] ==> r == {}
    ensures sets != [] ==> forall x :: x in r <==> forall i :: 0 <= i < |sets| ==> x in sets[i]
    ensures forall i :: 0 <= i < |sets| ==> r <= sets[i]
  {
    if sets == [] then {} else FoldIntersect(sets[0], sets)
  }

  /** mergeAll: a mutable accumulator, starting empty, into which every
      set is added in turn. */
  method MergeAll<T(!new)>(sets: seq<set<T>>) returns (r: set<T>)
    ensures r == Union(sets)
    ensures forall i :: 0 <= i < |sets| ==> sets[i] <= r
    ensures forall x :: x in r ==> exists i :: 0 <= i < |sets| && x in sets[i]
  {
    r := {};
    for i := 0 to |sets|
      invariant forall x :: x in r <==> exists j :: 0 <= j < i && x in sets[j]
    {
      r := r + sets[i];
    }
  }

  /** Reordering the input does not change the union. */
  lemma UnionReorder<T(!new)>(s1: seq<set<T>>, s2: seq<set<T>>)
    requires multiset(s1) == multiset(s2)
    ensures Union(s1) == Union(s2)
  {
    forall x | x in Union(s1) ensures x in Union(s2) {
      var i :| 0 <= i < |s1| && x in s1[i];
      assert s1[i] in multiset(s2);
      var j :| 0 <= j < |s2| && s2[j] == s1[i];
    }
    forall x | x in Union(s2) ensures x in Union(s1) {
      var i :| 0 <= i < |s2| && x in s2[i];
      assert s2[i] in multiset(s1);
      var j :| 0 <= j < |s1| && s1[j] == s2[i];
    }
  }

  /** Reordering the input does not change the intersection. */
  lemma IntersectAllReorder<T(!new)>(s1: seq<set<T>>, s2: seq<set<T>>)
    requires multiset(s1) == multiset(s2)
    ensures IntersectAll(s1) == IntersectAll(s2)
  {
    assert |s1| == |multiset(s1)| == |s2|;
    if s1 != [] {
      forall x | x in IntersectAll(s1) ensures x in IntersectAll(s2) {
        forall j | 0 <= j < |s2| ensures x in s2[j] {
          assert s2[j] in multiset(s1);
          var i :| 0 <= i < |s1| && s1[i] == s2[j];
        }
      }
      forall x | x in IntersectAll(s2) ensures x in IntersectAll(s1) {
        forall j | 0 <= j < |s1| ensures x in s1[j] {
          assert s1[j] in multiset(s2);
          var i :| 0 <= i < |s2| && s2[i] == s1[j];
        }
      }
    }
  }

  /** Intersecting two non-empty runs of sets one after the other is the
      intersection of the two results. */
  lemma IntersectAllAppend<T(!new)>(s1: seq<set<T>>, s2: seq<set<T>>)
    requires s1 != [] && s2 != []
    ensures IntersectAll(s1 + s2) == IntersectAll(s1) * IntersectAll(s2)
  {
    var s := s1 + s2;
    forall x | x in IntersectAll(s1) * IntersectAll(s2) ensures x in IntersectAll(s) {
      forall i | 0 <= i < |s| ensures x in s[i] {
        if i < |s1| { assert s[i] == s1[i]; } else { assert s[i] == s2[i - |s1|]; }
      }
    }
    forall x | x in IntersectAll(s) ensures x in IntersectAll(s1) && x in IntersectAll(s2) {
      forall i | 0 <= i < |s1| ensures x in s1[i] { assert s[i] == s1[i]; }
      forall i | 0 <= i < |s2| ensures x in s2[i] { assert s[|s1| + i] == s2[i]; }
    }
  }

  /** Growing every input set, position by position, grows the intersection. */
  lemma IntersectAllMonotone<T(!new)>(s1: seq<set<T>>, s2: seq<set<T>>)
    requires |s1| == |s2|
    requires forall i :: 0 <= i < |s1| ==> s1[i] <= s2[i]
    ensures IntersectAll(s1) <= IntersectAll(s2)
  {
    if s1 != [] {
      forall x | x in IntersectAll(s1) ensures x in IntersectAll(s2) {
        forall i | 0 <= i < |s2| ensures x in s2[i] {
          assert x in s1[i];
        }
      }
    }
  }
}
