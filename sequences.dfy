/** Counting and searching in sequences, used by every component below. */
module Sequences {

  /** How many times x occurs in s. */
  function Occurrences<T(==)>(s: seq<T>, x: T): nat
  {
    multiset(s)[x]
  }

  /** The index of the last occurrence of x in s, or -1 when x does not occur;
      this is the backwards scan `for k = size-1 .. 0` of the source. */
  function LastIndexOf<T(==)>(s: seq<T>, x: T): (r: int)
    ensures -1 <= r < |s|
    ensures r >= 0 ==> s[r] == x
    ensures forall j :: r < j < |s| ==> s[j] != x
  {
    if s == [] then -1
    else if s[|s| - 1] == x then |s| - 1
    else LastIndexOf(s[..|s| - 1], x)
  }

  lemma OccurrencesSnoc<T>(s: seq<T>, y: T, x: T)
    ensures Occurrences(s + [y], x) == Occurrences(s, x) + (if x == y then 1 else 0)
  {
    assert multiset(s + [y]) == multiset(s) + multiset{y};
  }

  lemma OccurrencesAppend<T>(s: seq<T>, u: seq<T>, x: T)
    ensures Occurrences(s + u, x) == Occurrences(s, x) + Occurrences(u, x)
  {
    assert multiset(s + u) == multiset(s) + multiset(u);
  }

  /** A value at no position does not occur. */
  lemma NoneOccur<T>(s: seq<T>, x: T)
    requires forall j :: 0 <= j < |s| ==> s[j] != x
    ensures Occurrences(s, x) == 0
  {
    assert x !in multiset(s);
  }

  /** Two distinct positions holding x make x occur at least twice. */
  lemma TwoPositions<T>(s: seq<T>, i: nat, j: nat, x: T)
    requires i < j < |s| && s[i] == x && s[j] == x
    ensures Occurrences(s, x) >= 2
  {
    assert s == s[..j] + s[j..];
    OccurrencesAppend(s[..j], s[j..], x);
    assert s[..j][i] == x;
    assert s[j..][0] == x;
  }

  lemma LastIndexOfSnoc<T>(s: seq<T>, y: T, x: T)
    ensures LastIndexOf(s + [y], x) == if x == y then |s| else LastIndexOf(s, x)
  {
    assert (s + [y])[..|s|] == s;
  }

  /** An element that occurs has a last occurrence. */
  lemma LastIndexOfFound<T>(s: seq<T>, x: T)
    requires Occurrences(s, x) > 0
    ensures 0 <= LastIndexOf(s, x)
  {
    assert x in multiset(s);
    var j :| 0 <= j < |s| && s[j] == x;
  }

  /** The last occurrence of an element that occurs once is its only one. */
  lemma LastIndexOfSingle<T>(s: seq<T>, i: nat)
    requires i < |s| && Occurrences(s, s[i]) == 1
    ensures LastIndexOf(s, s[i]) == i
  {
    var last := LastIndexOf(s, s[i]);
    if last > i {
      TwoPositions(s, i, last, s[i]);
    }
  }

  /** Writing position i extends the prefix before i by the written value. */
  lemma UpdateExtendsPrefix<T>(s: seq<T>, i: nat, x: T)
    requires i < |s|
    ensures s[i := x][..i + 1] == s[..i] + [x]
  {
  }

  /** Every element of s lies in [lo, hi). */
  ghost predicate InRange(s: seq<int>, lo: int, hi: int)
  {
    forall i :: 0 <= i < |s| ==> lo <= s[i] < hi
  }

  lemma InRangeAppend(a: seq<int>, b: seq<int>, lo: int, hi: int)
    requires InRange(a, lo, hi) && InRange(b, lo, hi)
    ensures InRange(a + b, lo, hi)
  {
  }

  /** Some element of a non-empty set. */
  lemma PickElement<T>(s: set<T>) returns (x: T)
    requires s != {}
    ensures x in s
  {
    if forall y :: y !in s {
      assert false;
    }
    x :| x in s;
  }
}
