/** The comparison of string lists that ignores case and order. */
module FoldCompare {

  /** `strings.EqualFold` compares case-folded forms; `fold` gives the form of a string. */
  predicate EqualFold(fold: string -> string, a: string, b: string) {
    fold(a) == fold(b)
  }

  function Folded(fold: string -> string, s: seq<string>): seq<string> {
    seq(|s|, i requires 0 <= i < |s| => fold(s[i]))
  }

  method SliceContainsIgnoreCase(fold: string -> string, slice: seq<string>, v1: string) returns (found: bool)
    ensures found <==> fold(v1) in Folded(fold, slice)
  {
    found := false;
    var i := 0;
    while i < |slice|
      invariant 0 <= i <= |slice|
      invariant found <==> exists j :: 0 <= j < i && fold(slice[j]) == fold(v1)
    {
      if EqualFold(fold, v1, slice[i]) {
        found := true;
      }
      i := i + 1;
    }
    if found {
      var j :| 0 <= j < i && fold(slice[j]) == fold(v1);
      assert Folded(fold, slice)[j] == fold(v1);
    }
  }

  /** What the comparison tests: equal length, and everything on the left found on the right. */
  ghost predicate Included(fold: string -> string, left: seq<string>, right: seq<string>) {
    |left| == |right| && forall x :: x in Folded(fold, left) ==> x in Folded(fold, right)
  }

  method SliceEqualsFold(fold: string -> string, left: seq<string>, right: seq<string>) returns (equal: bool)
    ensures equal <==> Included(fold, left, right)
  {
    if |left| != |right| {
      return false;
    }
    var i := 0;
    while i < |left|
      invariant 0 <= i <= |left|
      invariant forall j :: 0 <= j < i ==> Folded(fold, left)[j] in Folded(fold, right)
    {
      var found := SliceContainsIgnoreCase(fold, right, left[i]);
      if !found {
        assert Folded(fold, left)[i] == fold(left[i]);
        return false;
      }
      i := i + 1;
    }
    equal := true;
  }

  ghost predicate Permutation(fold: string -> string, left: seq<string>, right: seq<string>) {
    multiset(Folded(fold, left)) == multiset(Folded(fold, right))
  }

  ghost predicate NoDuplicates(s: seq<string>) {
    forall i, j :: 0 <= i < j < |s| ==> s[i] != s[j]
  }

  lemma {:induction false} MultisetOfDistinct(s: seq<string>)
    requires NoDuplicates(s)
    ensures forall x :: multiset(s)[x] <= 1
  {
    if s != [] {
      MultisetOfDistinct(s[1..]);
      assert s == [s[0]] + s[1..];
      assert s[0] !in s[1..];
      assert s[0] !in multiset(s[1..]);
    }
  }

  /** Pigeonhole: distinct elements that all occur in a list of the same length are all of it. */
  lemma Pigeonhole(a: seq<string>, b: seq<string>)
    requires |a| == |b| && NoDuplicates(a) && forall x :: x in a ==> x in b
    ensures multiset(a) == multiset(b)
  {
    MultisetOfDistinct(a);
    forall x | x in multiset(a) ensures multiset(a)[x] <= multiset(b)[x] {
      assert x in a && x in b;
      assert x in multiset(b);
    }
    assert multiset(a) <= multiset(b);
    assert |multiset(b) - multiset(a)| == |b| - |a| == 0;
    assert multiset(b) == multiset(a) + (multiset(b) - multiset(a));
  }

  lemma PermutationIsIncluded(fold: string -> string, left: seq<string>, right: seq<string>)
    requires Permutation(fold, left, right)
    ensures Included(fold, left, right)
  {
    assert |multiset(Folded(fold, left))| == |left| && |multiset(Folded(fold, right))| == |right|;
    forall x | x in Folded(fold, left) ensures x in Folded(fold, right) {
      assert x in multiset(Folded(fold, left));
      assert x in multiset(Folded(fold, right));
    }
  }

  /** With two equal elements on the left, one of them can be exchanged for a stranger on the
      right without the comparison noticing. */
  lemma DuplicateHidesDifference(fold: string -> string, left: seq<string>, other: string) returns (right: seq<string>)
    requires !NoDuplicates(Folded(fold, left)) && exists s :: fold(s) != fold(other)
    ensures Included(fold, left, right) && !Permutation(fold, left, right)
  {
    var f := Folded(fold, left);
    var i, j :| 0 <= i < j < |f| && f[i] == f[j];
    var stranger: string :| fold(stranger) != f[i];
    right := left[i := stranger];
    var g := Folded(fold, right);
    assert g == f[i := fold(stranger)];
    forall x | x in f ensures x in g {
      var k :| 0 <= k < |f| && f[k] == x;
      assert if k == i then g[j] == x else g[k] == x;
    }
    assert multiset(g)[f[i]] == multiset(f)[f[i]] - 1;
  }

  /** The one-sided test means "permutations of each other up to case" for every right-hand list
      exactly when the left-hand list has no two elements equal up to case. */
  lemma MeansPermutationIff(fold: string -> string, left: seq<string>, a: string, b: string)
    requires fold(a) != fold(b)
    ensures NoDuplicates(Folded(fold, left)) <==>
            forall right :: Included(fold, left, right) <==> Permutation(fold, left, right)
  {
    if NoDuplicates(Folded(fold, left)) {
      forall right ensures Included(fold, left, right) <==> Permutation(fold, left, right) {
        if Included(fold, left, right) {
          Pigeonhole(Folded(fold, left), Folded(fold, right));
        }
        if Permutation(fold, left, right) {
          PermutationIsIncluded(fold, left, right);
        }
      }
    } else {
      var right := DuplicateHidesDifference(fold, left, a);
    }
  }

  /** For lists without duplicates on either side the comparison is symmetric. */
  lemma SymmetricWithoutDuplicates(fold: string -> string, left: seq<string>, right: seq<string>)
    requires NoDuplicates(Folded(fold, left)) && NoDuplicates(Folded(fold, right))
    ensures Included(fold, left, right) <==> Included(fold, right, left)
  {
    if Included(fold, left, right) {
      Pigeonhole(Folded(fold, left), Folded(fold, right));
      PermutationIsIncluded(fold, right, left);
    }
    if Included(fold, right, left) {
      Pigeonhole(Folded(fold, right), Folded(fold, left));
      PermutationIsIncluded(fold, left, right);
    }
  }
}
