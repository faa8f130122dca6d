/** Finite sums of reals and the rearrangements of them that the scoring rules
    and the weighted distributions rest on. */
module RealSums {

  function Sum(n: nat, f: int -> real): real {
    if n == 0 then 0.0 else Sum(n - 1, f) + f(n - 1)
  }

  function Abs(a: real): real { if a < 0.0 then -a else a }

  /** A sequence as a function, zero outside its indexes. */
  function At(s: seq<real>): int -> real { (i: int) => if 0 <= i < |s| then s[i] else 0.0 }

  lemma {:induction false} SumAgree(n: nat, f: int -> real, g: int -> real)
    requires forall i :: 0 <= i < n ==> f(i) == g(i)
    ensures Sum(n, f) == Sum(n, g)
  {
    if n > 0 { SumAgree(n - 1, f, g); }
  }

  /** The combination `a * f + b * g`. */
  function Affine(a: real, f: int -> real, b: real, g: int -> real): int -> real { (i: int) => a * f(i) + b * g(i) }

  /** Sums are linear. */
  lemma {:induction false} SumAffine(n: nat, a: real, f: int -> real, b: real, g: int -> real)
    ensures Sum(n, Affine(a, f, b, g)) == a * Sum(n, f) + b * Sum(n, g)
  {
    if n > 0 { SumAffine(n - 1, a, f, b, g); Distribute(a, Sum(n - 1, f), f(n - 1), b, Sum(n - 1, g), g(n - 1)); }
  }

  lemma Distribute(a: real, s: real, x: real, b: real, t: real, y: real)
    ensures (a * s + b * t) + (a * x + b * y) == a * (s + x) + b * (t + y)
  {
  }

  lemma SumLinear(n: nat, a: real, f: int -> real, b: real, g: int -> real, h: int -> real)
    requires forall i :: 0 <= i < n ==> h(i) == Affine(a, f, b, g)(i)
    ensures Sum(n, h) == a * Sum(n, f) + b * Sum(n, g)
  {
    hide Affine;
    SumAgree(n, h, Affine(a, f, b, g));
    SumAffine(n, a, f, b, g);
  }

  lemma {:induction false} SumAtMost(n: nat, f: int -> real, g: int -> real)
    requires forall i :: 0 <= i < n ==> f(i) <= g(i)
    ensures Sum(n, f) <= Sum(n, g)
  {
    if n > 0 { SumAtMost(n - 1, f, g); }
  }

  lemma {:induction false} SumZero(n: nat, f: int -> real)
    requires forall i :: 0 <= i < n ==> f(i) == 0.0
    ensures Sum(n, f) == 0.0
  {
    if n > 0 { SumZero(n - 1, f); }
  }

  /** Changing one summand changes the sum by as much. */
  lemma {:induction false} SumBump(n: nat, f: int -> real, g: int -> real, k: nat, delta: real)
    requires k < n && g(k) == f(k) + delta
    requires forall i :: 0 <= i < n && i != k ==> g(i) == f(i)
    ensures Sum(n, g) == Sum(n, f) + delta
  {
    if k == n - 1 { SumAgree(n - 1, f, g); } else { SumBump(n - 1, f, g, k, delta); }
  }

  /** A sum of positive summands is positive, and so at least each of them. */
  lemma {:induction false} SumPositive(n: nat, f: int -> real)
    requires n > 0 && forall i :: 0 <= i < n ==> f(i) > 0.0
    ensures Sum(n, f) > 0.0
  {
    if n > 1 { SumPositive(n - 1, f); }
  }
}
