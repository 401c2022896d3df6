/** `makeSliceUnique` of ca/ca.go: order-preserving removal of repeated strings. */
module Slices {

  predicate NoDuplicates(s: seq<string>) {
    forall i, j :: 0 <= i < j < |s| ==> s[i] != s[j]
  }

  /** The input with every repeat of an earlier element dropped: the first
      occurrence of each string, in input order. */
  function Unique(s: seq<string>): (u: seq<string>)
    ensures |u| <= |s|
    ensures NoDuplicates(u)
    ensures forall x :: x in u <==> x in s
  {
    if s == [] then []
    else
      var p := Unique(s[..|s| - 1]);
      var x := s[|s| - 1];
      assert s == s[..|s| - 1] + [x];
      if x in p then p else p + [x]
  }

  /** Position of the first occurrence of `x` in `s`. */
  function IndexOf(s: seq<string>, x: string): (k: nat)
    requires x in s
    ensures k < |s| && s[k] == x && x !in s[..k]
  {
    if s[0] == x then 0 else 1 + IndexOf(s[1..], x)
  }

  lemma {:induction false} IndexOfPrefix(s: seq<string>, n: nat, x: string)
    requires n <= |s| && x in s[..n]
    ensures IndexOf(s, x) == IndexOf(s[..n], x)
  {
    var k := IndexOf(s[..n], x);
    var j := IndexOf(s, x);
    assert s[..n][..k] == s[..k];
  }

  /** The kept elements appear in the order of their first occurrences. */
  lemma {:induction false} UniqueKeepsFirstOccurrenceOrder(s: seq<string>)
    ensures forall i, j :: 0 <= i < j < |Unique(s)| ==> IndexOf(s, Unique(s)[i]) < IndexOf(s, Unique(s)[j])
  {
    if s != [] {
      var n := |s| - 1;
      var init := s[..n];
      var p := Unique(init);
      var u := Unique(s);
      UniqueKeepsFirstOccurrenceOrder(init);
      assert u[..|p|] == p;
      forall i, j | 0 <= i < j < |u| ensures IndexOf(s, u[i]) < IndexOf(s, u[j]) {
        assert u[i] == p[i];
        IndexOfPrefix(s, n, p[i]);
        if j < |p| {
          assert u[j] == p[j];
          IndexOfPrefix(s, n, p[j]);
        } else {
          assert u[j] == s[n] && s[n] !in init;
        }
      }
    }
  }

  /** On a list without repeats, de-duplication changes nothing. */
  lemma {:induction false} UniqueOfNoDuplicates(s: seq<string>)
    requires NoDuplicates(s)
    ensures Unique(s) == s
  {
    if s != [] {
      var n := |s| - 1;
      UniqueOfNoDuplicates(s[..n]);
      assert s[n] !in s[..n];
      assert s == s[..n] + [s[n]];
    }
  }

  /** De-duplication is idempotent. */
  lemma UniqueIdempotent(s: seq<string>)
    ensures Unique(Unique(s)) == Unique(s)
  {
    UniqueOfNoDuplicates(Unique(s));
  }

  /** The de-duplicated prefix of a concatenation leads its de-duplication: the
      elements contributed by `a` keep their leading positions. */
  lemma {:induction false} UniqueOfAppendPrefix(a: seq<string>, b: seq<string>)
    ensures |Unique(a)| <= |Unique(a + b)|
    ensures Unique(a + b)[..|Unique(a)|] == Unique(a)
  {
    if b != [] {
      var n := |b| - 1;
      UniqueOfAppendPrefix(a, b[..n]);
      assert (a + b)[..|a + b| - 1] == a + b[..n];
    } else {
      assert a + b == a;
    }
  }

  /** `makeSliceUnique` (ca/ca.go:216-227): one pass that remembers the strings
      already seen in a map and appends each unseen one. */
  method MakeSliceUnique(slice: seq<string>) returns (unique: seq<string>)
    ensures unique == Unique(slice)
  {
    unique := [];
    var tempMap: map<string, bool> := map[];
    for i := 0 to |slice|
      invariant unique == Unique(slice[..i])
      invariant forall x :: x in tempMap <==> x in unique
    {
      var val := slice[i];
      assert slice[..i + 1][..i] == slice[..i];
      if val !in tempMap {
        tempMap := tempMap[val := true];
        unique := unique + [val];
      }
    }
    assert slice[..|slice|] == slice;
  }
}
