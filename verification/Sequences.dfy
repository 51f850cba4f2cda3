/** Facts about sequences that several models use. */
module Sequences {

  ghost predicate Distinct<T>(s: seq<T>) {
    forall i, j | 0 <= i < j < |s| :: s[i] != s[j]
  }

  lemma DistinctCons<T>(x: T, s: seq<T>)
    ensures Distinct([x] + s) <==> Distinct(s) && x !in s
  {
    var a := [x] + s;
    if Distinct(a) {
      forall i, j | 0 <= i < j < |s| ensures s[i] != s[j] { assert a[i + 1] != a[j + 1]; }
      forall k | 0 <= k < |s| ensures s[k] != x { assert a[0] != a[k + 1]; }
    }
  }

  lemma DistinctConcat<T>(s: seq<T>, t: seq<T>)
    ensures Distinct(s + t) <==> Distinct(s) && Distinct(t) && !exists x :: x in s && x in t
  {
    var a := s + t;
    if Distinct(a) {
      forall i, j | 0 <= i < j < |s| ensures s[i] != s[j] { assert a[i] != a[j]; }
      forall i, j | 0 <= i < j < |t| ensures t[i] != t[j] { assert a[|s| + i] != a[|s| + j]; }
      forall i, j | 0 <= i < |s| && 0 <= j < |t| ensures s[i] != t[j] { assert a[i] != a[|s| + j]; }
    } else if Distinct(s) && Distinct(t) {
      var i, j :| 0 <= i < j < |a| && a[i] == a[j];
      assert i < |s| <= j && a[i] in s && a[j] in t;
    }
  }

  lemma Regroup<T>(a: seq<T>, b: seq<T>, c: seq<T>)
    ensures (a + b) + c == a + (b + c)
  {
  }

  lemma WithEmpty<T>(s: seq<T>)
    ensures s + [] == s && [] + s == s
  {
  }

  /** `s` results from `t` by leaving out entries. */
  ghost predicate Subsequence<T>(s: seq<T>, t: seq<T>)
    decreases |t|
  {
    s == [] || (t != [] && ((s[0] == t[0] && Subsequence(s[1..], t[1..])) || Subsequence(s, t[1..])))
  }

  lemma {:induction false} SubsequenceSelf<T>(s: seq<T>)
    ensures Subsequence(s, s)
  {
    if s != [] { SubsequenceSelf(s[1..]); }
  }

  lemma {:induction false} SubsequenceTransitive<T>(a: seq<T>, b: seq<T>, c: seq<T>)
    requires Subsequence(a, b) && Subsequence(b, c)
    ensures Subsequence(a, c)
    decreases |b| + |c|
  {
    if a != [] {
      if Subsequence(b, c[1..]) {
        SubsequenceTransitive(a, b, c[1..]);
      } else if Subsequence(a, b[1..]) {
        SubsequenceTransitive(a, b[1..], c[1..]);
      } else {
        SubsequenceTransitive(a[1..], b[1..], c[1..]);
      }
    }
  }
}
