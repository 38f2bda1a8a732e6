/** An unstable sort: callers learn only that the result is an ordered permutation. */
module Sorting {

  ghost predicate TotalPreorder<T(!new)>(leq: (T, T) -> bool) {
    && (forall a, b :: leq(a, b) || leq(b, a))
    && (forall a, b, c :: leq(a, b) && leq(b, c) ==> leq(a, c))
  }

  ghost predicate SortedBy<T>(s: seq<T>, leq: (T, T) -> bool) {
    forall i, j :: 0 <= i < j < |s| ==> leq(s[i], s[j])
  }

  method SortBy<T(!new)>(input: seq<T>, leq: (T, T) -> bool) returns (s: seq<T>)
    requires TotalPreorder(leq)
    ensures SortedBy(s, leq)
    ensures multiset(s) == multiset(input)
  {
    s := [];
    for i := 0 to |input|
      invariant SortedBy(s, leq)
      invariant multiset(s) == multiset(input[..i])
    {
      assert input[..i + 1] == input[..i] + [input[i]];
      s := InsertBy(s, input[i], leq);
    }
    assert input[..|input|] == input;
  }

  method InsertBy<T(!new)>(s: seq<T>, x: T, leq: (T, T) -> bool) returns (t: seq<T>)
    requires TotalPreorder(leq) && SortedBy(s, leq)
    ensures SortedBy(t, leq)
    ensures multiset(t) == multiset(s) + multiset{x}
  {
    hide TotalPreorder, SortedBy;
    var k := 0;
    while k < |s| && leq(s[k], x)
      invariant 0 <= k <= |s|
      invariant forall i :: 0 <= i < k ==> leq(s[i], x)
    {
      k := k + 1;
    }
    Above(s, k, x, leq);
    InsertedSorted(s, k, x, leq);
    InsertedMembers(s, k, x);
    t := s[..k] + [x] + s[k..];
  }

  lemma Above<T(!new)>(s: seq<T>, k: nat, x: T, leq: (T, T) -> bool)
    requires TotalPreorder(leq) && SortedBy(s, leq) && k <= |s| && (k < |s| ==> !leq(s[k], x))
    ensures forall i :: k <= i < |s| ==> leq(x, s[i])
  {
    forall i | k <= i < |s|
      ensures leq(x, s[i])
    {
      hide SortedBy;
      assert leq(x, s[k]);
      if i > k { assert leq(s[k], s[i]) by { InOrder(s, k, i, leq); } }
    }
  }

  lemma InOrder<T>(s: seq<T>, i: nat, j: nat, leq: (T, T) -> bool)
    requires SortedBy(s, leq) && i < j < |s|
    ensures leq(s[i], s[j])
  {
  }

  lemma InsertedSorted<T>(s: seq<T>, k: nat, x: T, leq: (T, T) -> bool)
    requires SortedBy(s, leq) && k <= |s|
    requires (forall i :: 0 <= i < k ==> leq(s[i], x)) && forall i :: k <= i < |s| ==> leq(x, s[i])
    ensures SortedBy(s[..k] + [x] + s[k..], leq)
  {
    var t := s[..k] + [x] + s[k..];
    forall i, j | 0 <= i < j < |t|
      ensures leq(t[i], t[j])
    {
      var a, b := if i < k then i else i - 1, if j < k then j else j - 1;
      assert i != k ==> t[i] == s[a];
      assert j != k ==> t[j] == s[b];
    }
  }

  lemma InsertedMembers<T>(s: seq<T>, k: nat, x: T)
    requires k <= |s|
    ensures multiset(s[..k] + [x] + s[k..]) == multiset(s) + multiset{x}
  {
    assert s == s[..k] + s[k..];
  }

  lemma SameMembers<T>(a: seq<T>, b: seq<T>, x: T)
    requires multiset(a) == multiset(b)
    ensures x in a <==> x in b
  {
    assert x in multiset(a) <==> x in multiset(b);
  }
}
