/** Small types shared by the model. */
module Common {

  datatype Option<+T> = None | Some(value: T)

  function Max(a: int, b: int): (m: int)
    ensures m >= a && m >= b && (m == a || m == b)
  {
    if a < b then b else a
  }

  ghost predicate Distinct<T>(s: seq<T>) {
    forall i, j :: 0 <= i < j < |s| ==> s[i] != s[j]
  }

  lemma {:induction false} DistinctCount<T>(s: seq<T>, m: set<T>)
    requires Distinct(s) && forall x :: x in m <==> x in s
    ensures |m| == |s|
  {
    if s == [] {
      assert m == {};
    } else {
      var x, rest := s[|s| - 1], s[..|s| - 1];
      assert s == rest + [x];
      assert x !in rest;
      DistinctCount(rest, m - {x});
      assert |m| == |m - {x}| + 1;
    }
  }

  lemma SubsetSize<T>(x: set<T>, s: set<T>)
    requires x <= s
    ensures |x| <= |s| && (|x| == |s| ==> x == s)
  {
    assert s == x + (s - x);
    assert |s| == |x| + |s - x|;
    if |x| == |s| { assert s - x == {}; }
  }

  lemma DisjointSizes<T>(x: set<T>, y: set<T>)
    requires x !! y
    ensures |x + y| == |x| + |y|
  {
  }

  ghost function Below(n: nat): (s: set<nat>)
    ensures forall i: nat :: i in s <==> i < n
    ensures |s| == n
  {
    if n == 0 then {} else Below(n - 1) + {n - 1}
  }
}
