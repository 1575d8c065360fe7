/** DynArray, as far as the list of unlinked nodes uses it: the search for a node and SwapRemove. */
module DynArray {

  /** The first place of x, or the length. */
  function PlaceOf<T(==)>(s: seq<T>, x: T): (r: nat)
    ensures r <= |s| && (forall j :: 0 <= j < r ==> s[j] != x) && (r < |s| ==> s[r] == x)
    ensures r < |s| <==> x in s
  {
    if s == [] || s[0] == x then 0 else PlaceOf(s[1..], x) + 1
  }

  lemma PlaceIs<T>(s: seq<T>, x: T, i: nat)
    requires i <= |s| && (forall j :: 0 <= j < i ==> s[j] != x) && (i < |s| ==> s[i] == x)
    ensures PlaceOf(s, x) == i
  {
    if PlaceOf(s, x) != i {
      assert false;
    }
  }

  /** SwapRemove at the place of x: the last element takes it. */
  function SwapRemoved<T(==)>(s: seq<T>, x: T): seq<T> {
    var i := PlaceOf(s, x);
    if i == |s| then s else s[i := s[|s| - 1]][..|s| - 1]
  }

  /** One occurrence goes, all others stay. */
  lemma SwapRemovedKeeps<T>(s: seq<T>, x: T)
    requires x in s
    ensures multiset(SwapRemoved(s, x)) + multiset{x} == multiset(s)
  {
    var i, n := PlaceOf(s, x), |s| - 1;
    assert s == s[..n] + [s[n]];
    if i < n {
      assert s[i := s[n]][..n] == s[..n][i := s[n]];
    } else {
      assert s[i := s[n]][..n] == s[..n];
    }
  }

  /** What a search that stopped at i removes from a list without repetitions. */
  lemma SwapFacts<T>(s: seq<T>, x: T, i: nat)
    requires i <= |s| && (forall j :: 0 <= j < i ==> s[j] != x) && (i < |s| ==> s[i] == x)
    requires forall j, k :: 0 <= j < k < |s| ==> s[j] != s[k]
    ensures SwapRemoved(s, x) == if i == |s| then s else s[i := s[|s| - 1]][..|s| - 1]
    ensures var r := SwapRemoved(s, x);
      (forall j, k :: 0 <= j < k < |r| ==> r[j] != r[k]) && forall y :: y in r <==> y in s && y != x
  {
    PlaceIs(s, x, i);
    var r := SwapRemoved(s, x);
    forall y | y in s && y != x
      ensures y in r
    {
      var j := PlaceOf(s, y);
      assert i < |s| ==> r[if j == |s| - 1 then i else j] == y;
    }
  }

  lemma LastIsRemoved<T>(s: seq<T>, x: T)
    requires x !in s
    ensures SwapRemoved(s + [x], x) == s
  {
    PlaceIs(s + [x], x, |s|);
  }
}
