/** Sums of a natural-valued weight over a sequence; used wherever items are counted or weighed. */
module Sums {

  function Sum<T>(f: T -> nat, s: seq<T>): nat {
    if s == [] then 0 else f(s[0]) + Sum(f, s[1..])
  }

  lemma {:induction false} SumConcat<T>(f: T -> nat, a: seq<T>, b: seq<T>)
    ensures Sum(f, a + b) == Sum(f, a) + Sum(f, b)
  {
    if a == [] {
      assert a + b == b;
    } else {
      assert (a + b)[1..] == a[1..] + b;
      SumConcat(f, a[1..], b);
    }
  }

  lemma {:induction false} SumUpdate<T>(f: T -> nat, s: seq<T>, i: nat, x: T)
    requires i < |s|
    ensures Sum(f, s[i := x]) + f(s[i]) == Sum(f, s) + f(x)
  {
    if i > 0 {
      SumUpdate(f, s[1..], i - 1, x);
      assert s[i := x][1..] == s[1..][i - 1 := x];
    } else {
      assert s[i := x][1..] == s[1..];
    }
  }

  lemma {:induction false} SumAppend<T>(f: T -> nat, s: seq<T>, x: T)
    ensures Sum(f, s + [x]) == Sum(f, s) + f(x)
  {
    SumConcat(f, s, [x]);
    assert [x][1..] == [];
  }

  /** A positive sum has a positive summand. */
  lemma {:induction false} SumWitness<T>(f: T -> nat, s: seq<T>) returns (i: nat)
    requires Sum(f, s) > 0
    ensures i < |s| && f(s[i]) > 0
  {
    if f(s[0]) > 0 {
      i := 0;
    } else {
      i := SumWitness(f, s[1..]);
      i := i + 1;
    }
  }

  lemma {:induction false} SumAtLeast<T>(f: T -> nat, s: seq<T>, i: nat)
    requires i < |s|
    ensures f(s[i]) <= Sum(f, s)
  {
    if i > 0 {
      SumAtLeast(f, s[1..], i - 1);
    }
  }

  /** Two different positions each contribute. */
  lemma {:induction false} SumTwo<T>(f: T -> nat, s: seq<T>, i: nat, j: nat)
    requires i < j < |s|
    ensures f(s[i]) + f(s[j]) <= Sum(f, s)
  {
    if i > 0 {
      SumTwo(f, s[1..], i - 1, j - 1);
    } else {
      SumAtLeast(f, s[1..], j - 1);
    }
  }

  /** If every summand is at most one, the sum is at most the length, and equals it only if all are one. */
  lemma {:induction false} SumUnitBound<T>(f: T -> nat, s: seq<T>)
    requires forall i | 0 <= i < |s| :: f(s[i]) <= 1
    ensures Sum(f, s) <= |s|
    ensures Sum(f, s) == |s| ==> forall i | 0 <= i < |s| :: f(s[i]) == 1
  {
    if s != [] {
      SumUnitBound(f, s[1..]);
      if Sum(f, s) == |s| {
        forall i | 0 <= i < |s| ensures f(s[i]) == 1 {
          if i > 0 { assert s[i] == s[1..][i - 1]; }
        }
      }
    }
  }

  // ---------- Counting ----------

  function Indicator<T>(p: T -> bool): T -> nat { (x: T) => if p(x) then 1 else 0 }

  /** How many entries satisfy `p`. */
  function Number<T>(p: T -> bool, s: seq<T>): nat { Sum(Indicator(p), s) }

  lemma NumberNext<T>(p: T -> bool, s: seq<T>, i: nat)
    requires i < |s|
    ensures Number(p, s[..i + 1]) == Number(p, s[..i]) + if p(s[i]) then 1 else 0
  {
    assert s[..i + 1] == s[..i] + [s[i]];
    SumAppend(Indicator(p), s[..i], s[i]);
  }
}
