/** Sums of a natural weight over a sequence, the counting device of the step systems. */
module Sums {

  function Sum<T>(f: T -> nat, s: seq<T>): nat {
    if s == [] then 0 else f(s[0]) + Sum(f, s[1..])
  }

  /** Replacing one element changes the sum by the difference of the two weights. */
  lemma {:induction false} SumUpdate<T>(f: T -> nat, s: seq<T>, i: nat, x: T)
    requires i < |s|
    ensures Sum(f, s[i := x]) + f(s[i]) == Sum(f, s) + f(x)
  {
    if i == 0 {
      assert s[i := x][1..] == s[1..];
    } else {
      assert s[i := x][1..] == s[1..][i - 1 := x];
      SumUpdate(f, s[1..], i - 1, x);
    }
  }

  /** The weight of one element is part of the sum. */
  lemma {:induction false} SumOne<T>(f: T -> nat, s: seq<T>, i: nat)
    requires i < |s|
    ensures f(s[i]) <= Sum(f, s)
  {
    if i == 0 {
    } else {
      SumOne(f, s[1..], i - 1);
    }
  }

  /** So are the weights of two different elements together. */
  lemma {:induction false} SumTwo<T>(f: T -> nat, s: seq<T>, i: nat, j: nat)
    requires i < |s| && j < |s| && i != j
    ensures f(s[i]) + f(s[j]) <= Sum(f, s)
  {
    var a, b := if i < j then i else j, if i < j then j else i;
    if a == 0 {
      SumOne(f, s[1..], b - 1);
    } else {
      SumTwo(f, s[1..], a - 1, b - 1);
    }
  }

  /** A positive sum has a positive summand. */
  lemma {:induction false} SumWitness<T>(f: T -> nat, s: seq<T>) returns (i: nat)
    requires Sum(f, s) > 0
    ensures i < |s| && f(s[i]) > 0
  {
    if f(s[0]) > 0 {
      i := 0;
    } else {
      var k := SumWitness(f, s[1..]);
      i := k + 1;
    }
  }

  /** A sum of zero weights is zero. */
  lemma {:induction false} SumZero<T>(f: T -> nat, s: seq<T>)
    requires forall i :: 0 <= i < |s| ==> f(s[i]) == 0
    ensures Sum(f, s) == 0
  {
    if s == [] {
    } else {
      assert f(s[0]) == 0;
      SumZero(f, s[1..]);
    }
  }

  /** Two sequences whose weights differ by at most `d` at each position. */
  lemma {:induction false} SumGrowth<T>(f: T -> nat, s: seq<T>, t: seq<T>, d: nat)
    requires |s| == |t|
    requires forall i :: 0 <= i < |s| ==> f(t[i]) <= f(s[i]) + d
    ensures Sum(f, t) <= Sum(f, s) + d * |s|
  {
    if s == [] {
    } else {
      assert f(t[0]) <= f(s[0]) + d;
      SumGrowth(f, s[1..], t[1..], d);
      assert d * |s| == d + d * |s[1..]|;
    }
  }

  /** Equal weights give equal sums. */
  lemma {:induction false} SumSame<T>(f: T -> nat, s: seq<T>, t: seq<T>)
    requires |s| == |t|
    requires forall i :: 0 <= i < |s| ==> f(t[i]) == f(s[i])
    ensures Sum(f, t) == Sum(f, s)
  {
    if s == [] {
    } else {
      assert f(t[0]) == f(s[0]);
      SumSame(f, s[1..], t[1..]);
    }
  }

  /** A sum of weights of at most `d`. */
  lemma {:induction false} SumAtMost<T>(f: T -> nat, s: seq<T>, d: nat)
    requires forall i :: 0 <= i < |s| ==> f(s[i]) <= d
    ensures Sum(f, s) <= d * |s|
  {
    if s == [] {
    } else {
      assert f(s[0]) <= d;
      SumAtMost(f, s[1..], d);
      assert d * |s| == d + d * |s[1..]|;
    }
  }
}
