/** Powers of natural numbers. */
module Powers {

  function Pow(x: nat, e: nat): (p: nat)
    ensures x > 0 ==> p > 0
  {
    if e == 0 then 1 else x * Pow(x, e - 1)
  }

  lemma {:induction false} PowAdd(x: nat, m: nat, n: nat)
    ensures Pow(x, m + n) == Pow(x, m) * Pow(x, n)
    decreases m
  {
    if m > 0 {
      PowAdd(x, m - 1, n);
      Associative(x, Pow(x, m - 1), Pow(x, n));
    }
  }

  lemma Associative(x: int, y: int, z: int)
    ensures x * (y * z) == (x * y) * z
  {
  }

  lemma {:induction false} PowMul(x: nat, m: nat, n: nat)
    ensures Pow(Pow(x, m), n) == Pow(x, m * n)
    decreases n
  {
    if n > 0 {
      PowMul(x, m, n - 1);
      PowAdd(x, m, m * (n - 1));
      assert m + m * (n - 1) == m * n;
    }
  }

  lemma MulMono(a: nat, b: nat, c: nat, d: nat)
    requires a <= c && b <= d
    ensures a * b <= c * d
    ensures a < c && b <= d && d > 0 ==> a * b < c * d
  {
    assert a * b <= a * d by { assert a * (d - b) >= 0; }
    assert a * d <= c * d by { assert (c - a) * d >= 0; }
    assert a < c && d > 0 ==> (c - a) * d > 0;
  }

  lemma {:induction false} PowMono(x: nat, y: nat, n: nat)
    requires x <= y
    ensures Pow(x, n) <= Pow(y, n)
    ensures x < y && n > 0 ==> Pow(x, n) < Pow(y, n)
    decreases n
  {
    if n > 0 {
      PowMono(x, y, n - 1);
      MulMono(x, Pow(x, n - 1), y, Pow(y, n - 1));
    }
  }

  lemma PowUp(x: nat, m: nat, n: nat)
    requires x > 0 && m <= n
    ensures Pow(x, m) <= Pow(x, n)
  {
    PowAdd(x, m, n - m);
    MulMono(Pow(x, m), 1, Pow(x, m), Pow(x, n - m));
  }

  /** The same by squaring. */
  function FastPow(x: nat, e: nat): nat
  {
    if e == 0 then 1
    else
      var h := FastPow(x, e / 2);
      if e % 2 == 0 then h * h else x * (h * h)
  }

  lemma {:induction false} FastPowIsPow(x: nat, e: nat)
    ensures FastPow(x, e) == Pow(x, e)
    decreases e
  {
    if e > 0 {
      FastPowIsPow(x, e / 2);
      PowAdd(x, e / 2, e / 2);
      assert e % 2 == 0 ==> e == e / 2 + e / 2;
      assert e % 2 == 1 ==> e - 1 == e / 2 + e / 2;
    }
  }

  lemma TwoTo485()
    ensures Pow(2, 485) < Pow(10, 146)
  {
    hide Pow;
    assert FastPow(2, 485) < FastPow(10, 146);
    FastPowIsPow(2, 485);
    FastPowIsPow(10, 146);
  }

  lemma TwoTo2136()
    ensures Pow(10, 643) < Pow(2, 2136)
  {
    hide Pow;
    assert FastPow(10, 643) < FastPow(2, 2136);
    FastPowIsPow(10, 643);
    FastPowIsPow(2, 2136);
  }

  lemma TwoTo2621()
    ensures Pow(2, 2621) < Pow(10, 789)
  {
    hide Pow;
    assert FastPow(2, 2621) < FastPow(10, 789);
    FastPowIsPow(2, 2621);
    FastPowIsPow(10, 789);
  }
}
