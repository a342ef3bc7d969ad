/**
 lib/intprops.h and lib/intprops-internal.h: tests for integer overflow that do not overflow themselves,
 and the length of printed integers.
 */
module IntProps {
  import opened Decimal
  import opened Powers

  // ---------------------------------------------------------------- C arithmetic

  /** The values of an integer type. */
  datatype Range = Range(lo: int, hi: int)

  predicate In(t: Range, x: int)
  {
    t.lo <= x <= t.hi
  }

  predicate IsSigned(t: Range)
  {
    t.hi > 0 && t.lo == -t.hi - 1
  }

  predicate IsType(t: Range)
  {
    IsSigned(t) || (t.hi > 0 && t.lo == 0)
  }

  /** The values of a two's complement or unsigned type with w bits. */
  function TypeOf(w: nat, signed: bool): (t: Range)
    requires w > 1
    ensures IsType(t)
    ensures t.hi - t.lo + 1 == Pow(2, w)
  {
    assert Pow(2, w) == 2 * Pow(2, w - 1) && Pow(2, w - 1) == 2 * Pow(2, w - 2);
    if signed then Range(0 - Pow(2, w - 1), Pow(2, w - 1) - 1) else Range(0, Pow(2, w) - 1)
  }

  /** The operators of C on a type: a signed result that does not fit is undefined. */
  function Add(t: Range, x: int, y: int): int
    requires In(t, x + y)
  {
    x + y
  }

  function Sub(t: Range, x: int, y: int): int
    requires In(t, x - y)
  {
    x - y
  }

  function Magnitude(x: int): nat
  {
    if x < 0 then -x else x
  }

  function Whole(x: int, y: int): int
    requires y != 0
  {
    Magnitude(x) / Magnitude(y)
  }

  /** The quotient without its fraction. */
  function Quotient(x: int, y: int): int
    requires y != 0
  {
    var q := Whole(x, y);
    if (x < 0) == (y < 0) then q else -q
  }

  function Div(t: Range, x: int, y: int): int
    requires y != 0 && In(t, Quotient(x, y))
  {
    Quotient(x, y)
  }

  lemma QuotientInRange(t: Range, x: int, y: int)
    requires IsType(t) && In(t, x) && In(t, y) && y != 0 && !(y == -1 && x == t.lo)
    ensures In(t, Quotient(x, y))
  {
    hide Whole;
    WholeSmall(x, y);
  }

  lemma WholeSmall(x: int, y: int)
    requires y != 0
    ensures 0 <= Whole(x, y) <= Magnitude(x) && (Magnitude(y) > 1 && x != 0 ==> Whole(x, y) < Magnitude(x))
  {
    var m, n := Magnitude(x), Magnitude(y);
    assert m == n * (m / n) + m % n;
    if n > 1 && m > 0 && m / n >= m {
      MulMono(2, m, n, m / n);
    }
  }

  /** A quotient is below z exactly when the product is larger. */
  lemma WholeLess(x: int, y: int, z: int)
    requires y != 0
    ensures Whole(x, y) < z <==> Magnitude(x) < z * Magnitude(y)
  {
    QuotientLess(Magnitude(x), Magnitude(y), z);
  }

  lemma QuotientLess(m: nat, n: nat, x: int)
    requires n > 0
    ensures m / n < x <==> m < x * n
  {
    var q := m / n;
    assert m == n * q + m % n;
    if q < x {
      MulMono(q + 1, n, x, n);
    } else if x >= 0 {
      MulMono(x, n, q, n);
    } else {
      assert x * n < 0;
    }
  }

  // ---------------------------------------------------------------- INT_<op>_RANGE_OVERFLOW

  predicate IntAddRangeOverflow(t: Range, a: int, b: int)
    requires IsType(t) && In(t, a) && In(t, b)
  {
    if b < 0 then a < Sub(t, t.lo, b) else Sub(t, t.hi, b) < a
  }

  predicate IntSubtractRangeOverflow(t: Range, a: int, b: int)
    requires IsType(t) && In(t, a) && In(t, b)
  {
    if b < 0 then Add(t, t.hi, b) < a else a < Add(t, t.lo, b)
  }

  predicate IntNegateRangeOverflow(t: Range, a: int)
    requires IsType(t) && In(t, a)
  {
    if t.lo < 0 then a < Sub(t, 0, t.hi) else 0 < a
  }

  predicate IntMultiplyRangeOverflow(t: Range, a: int, b: int)
    requires IsType(t) && In(t, a) && In(t, b)
  {
    if b < 0 then
      if a < 0 then
        QuotientInRange(t, t.hi, b);
        a < Div(t, t.hi, b)
      else if b == -1 then false
      else
        QuotientInRange(t, t.lo, b);
        Div(t, t.lo, b) < a
    else if b == 0 then false
    else if a < 0 then
      QuotientInRange(t, t.lo, b);
      a < Div(t, t.lo, b)
    else
      QuotientInRange(t, t.hi, b);
      Div(t, t.hi, b) < a
  }

  /** Each test is true exactly when the exact result does not fit. */
  lemma RangeOverflowExact(t: Range, a: int, b: int)
    requires IsType(t) && In(t, a) && In(t, b)
    ensures IntAddRangeOverflow(t, a, b) <==> !In(t, a + b)
    ensures IntSubtractRangeOverflow(t, a, b) <==> !In(t, a - b)
    ensures IntNegateRangeOverflow(t, a) <==> !In(t, -a)
    ensures IntMultiplyRangeOverflow(t, a, b) <==> !In(t, a * b)
  {
    MultiplyExact(t, a, b);
  }

  lemma ProductSigns(a: int, b: int)
    ensures a < 0 && b < 0 ==> a * b > 0 && (-a) * (-b) == a * b
    ensures a < 0 && b > 0 ==> a * b < 0 && (-a) * b == -(a * b)
    ensures a >= 0 && b < 0 ==> a * b <= 0 && a * (-b) == -(a * b)
    ensures a >= 0 && b >= 0 ==> a * b >= 0
  {
  }

  lemma MultiplyExact(t: Range, a: int, b: int)
    requires IsType(t) && In(t, a) && In(t, b)
    ensures IntMultiplyRangeOverflow(t, a, b) <==> !In(t, a * b)
  {
    hide Whole;
    ProductSigns(a, b);
    if b < 0 {
      if a < 0 {
        WholeLess(t.hi, b, -a);
      } else {
        WholeLess(t.lo, b, a);
        assert b == -1 ==> a * b == -a;
      }
    } else if b > 0 {
      if a < 0 {
        WholeLess(t.lo, b, -a);
      } else {
        WholeLess(t.hi, b, a);
      }
    }
  }

  // ---------------------------------------------------------------- _GL_INT_<op>_RANGE_OVERFLOW

  /** An integer expression after promotion: its type, at least as wide as int, and its value. */
  datatype Num = Num(t: Range, x: int)

  predicate IsNum(a: Num)
  {
    IsType(a.t) && In(a.t, a.x)
  }

  function Size(t: Range): (n: int)
    requires IsType(t)
    ensures n > 1
  {
    t.hi - t.lo + 1
  }

  /** Two types are equally wide, or one has at least one bit more. */
  predicate Comparable(t: Range, u: Range)
  {
    IsType(t) && IsType(u) && (Size(t) == Size(u) || 2 * Size(t) <= Size(u) || 2 * Size(u) <= Size(t))
  }

  /** The usual arithmetic conversions. */
  function Common(t: Range, u: Range): (r: Range)
    requires Comparable(t, u)
    ensures r == t || r == u
  {
    if Size(t) < Size(u) || (Size(t) == Size(u) && u.lo == 0) then u else t
  }

  /** A value in a type: unsigned types wrap around, in signed ones it has to fit. */
  function Reduce(t: Range, x: int): (r: int)
    requires IsType(t) && (IsSigned(t) ==> In(t, x))
    ensures In(t, r) && (In(t, x) ==> r == x)
    ensures -Size(t) <= x < 0 && !IsSigned(t) ==> r == x + Size(t)
    ensures t.hi < x < 2 * Size(t) ==> r == x - Size(t)
  {
    if IsSigned(t) then x
    else
      ModNear(x, Size(t));
      x % Size(t)
  }

  lemma ModNear(x: int, n: int)
    requires n > 0
    ensures 0 <= x % n < n
    ensures 0 <= x < n ==> x % n == x
    ensures -n <= x < 0 ==> x % n == x + n
    ensures n <= x < 2 * n ==> x % n == x - n
  {
    if -n <= x < 0 {
      ModIs(x, n, -1, x + n);
    } else if n <= x < 2 * n {
      ModIs(x, n, 1, x - n);
    }
  }

  lemma ModIs(x: int, n: int, q: int, r: int)
    requires 0 <= r < n && x == n * q + r
    ensures x % n == r
  {
    var p := x / n;
    assert x == n * p + x % n;
    assert n * (p - q) == r - x % n && n * (q - p) == x % n - r;
    if p > q {
      MulMono(n, 1, n, p - q);
    } else if p < q {
      MulMono(n, 1, n, q - p);
    }
  }

  /** Both operands in their common type. */
  function Left(a: Num, b: Num): (x: int)
    requires IsNum(a) && IsNum(b) && Comparable(a.t, b.t)
    ensures In(Common(a.t, b.t), x)
    ensures x == if a.x < 0 && !IsSigned(Common(a.t, b.t)) then a.x + Size(Common(a.t, b.t)) else a.x
  {
    Reduce(Common(a.t, b.t), a.x)
  }

  function Right(a: Num, b: Num): (y: int)
    requires IsNum(a) && IsNum(b) && Comparable(a.t, b.t)
    ensures In(Common(a.t, b.t), y)
    ensures y == if b.x < 0 && !IsSigned(Common(a.t, b.t)) then b.x + Size(Common(a.t, b.t)) else b.x
  {
    Reduce(Common(a.t, b.t), b.x)
  }

  /** The operators of C: a signed result that does not fit is undefined. */
  function Sum(a: Num, b: Num): (r: Num)
    requires IsNum(a) && IsNum(b) && Comparable(a.t, b.t)
    requires IsSigned(Common(a.t, b.t)) ==> In(Common(a.t, b.t), a.x + b.x)
    ensures IsNum(r)
  {
    var t := Common(a.t, b.t);
    Num(t, Reduce(t, Left(a, b) + Right(a, b)))
  }

  function Difference(a: Num, b: Num): (r: Num)
    requires IsNum(a) && IsNum(b) && Comparable(a.t, b.t)
    requires IsSigned(Common(a.t, b.t)) ==> In(Common(a.t, b.t), a.x - b.x)
    ensures IsNum(r)
  {
    var t := Common(a.t, b.t);
    Num(t, Reduce(t, Left(a, b) - Right(a, b)))
  }

  predicate Less(a: Num, b: Num)
    requires IsNum(a) && IsNum(b) && Comparable(a.t, b.t)
  {
    Left(a, b) < Right(a, b)
  }

  /** The int constant k next to an operand of type t, which is at least as wide. */
  function Const(t: Range, k: int): (r: Num)
    requires IsType(t) && -1 <= k <= 1
    ensures IsNum(r) && r.t == t
  {
    Num(t, Reduce(t, k))
  }

  predicate Operands(a: Num, b: Num, m: Num)
  {
    && IsNum(a) && IsNum(b) && IsNum(m)
    && Comparable(a.t, b.t) && Comparable(a.t, m.t) && Comparable(b.t, m.t)
  }

  /** The operands and the bounds of the result may have any integer types; the lower bound is signed, and
      the upper one is unsigned only if the lower one is zero. */
  predicate Arguments(a: Num, b: Num, tmin: Num, tmax: Num)
  {
    && Operands(a, b, tmin) && Operands(a, b, tmax) && Comparable(tmin.t, tmax.t)
    && IsSigned(tmin.t) && tmin.x <= 0 < tmax.x && (IsSigned(tmax.t) || tmin.x == 0)
  }

  /** The part of the test for sums that looks at the lower bound, with a negative operand n. */
  predicate SumBelow(a: Num, n: Num, tmin: Num)
    requires Operands(a, n, tmin) && n.x < 0 && IsSigned(tmin.t) && tmin.x <= 0
  {
    if tmin.x != 0 then
      (IsSigned(Common(a.t, Common(tmin.t, n.t))) || Less(n, tmin)) && Less(a, Difference(tmin, n))
    else
      !Less(Difference(Const(n.t, -1), n), a)
  }

  /** The sum of two operands, computed in their type, is above the upper bound. */
  predicate SumAbove(a: Num, b: Num, tmax: Num)
    requires Operands(a, b, tmax) && (a.x < 0 || b.x < 0) && (IsSigned(Common(a.t, b.t)) ==> 0 <= a.x || 0 <= b.x)
  {
    Less(tmax, Sum(a, b))
  }

  predicate GlAddRangeOverflow(a: Num, b: Num, tmin: Num, tmax: Num)
    requires Arguments(a, b, tmin, tmax)
  {
    if b.x < 0 then
      SumBelow(a, b, tmin) || ((if IsSigned(a.t) then 0 <= a.x else Less(tmax, a)) && SumAbove(a, b, tmax))
    else if a.x < 0 then
      SumBelow(b, a, tmin) || ((IsSigned(Common(a.t, b.t)) || Less(tmax, b)) && SumAbove(a, b, tmax))
    else
      Less(tmax, b) || Less(Difference(tmax, b), a)
  }

  /** The difference of two operands of the same sign. */
  predicate DifferenceBelow(a: Num, b: Num, tmin: Num)
    requires Operands(a, b, tmin) && (a.x < 0 <==> b.x < 0) && IsSigned(tmin.t) && tmin.x <= 0 && a.x < b.x
  {
    SameSign(a, b);
    OneLess(Difference(b, a));
    MinusOneLess(tmin);
    tmin.x == 0
    || Less(Difference(Const(tmin.t, -1), tmin), Difference(Difference(b, a), Const(Common(b.t, a.t), 1)))
  }

  lemma OneLess(d: Num)
    requires IsNum(d) && d.x > 0
    ensures Difference(d, Const(d.t, 1)) == Num(d.t, d.x - 1)
  {
    hide Reduce, Left, Right;
  }

  lemma MinusOneLess(m: Num)
    requires IsNum(m) && IsSigned(m.t) && m.x <= 0
    ensures Difference(Const(m.t, -1), m) == Num(m.t, -1 - m.x)
  {
    hide Reduce, Left, Right;
  }

  /** The difference of a negative operand and another is below the lower bound. */
  predicate LowerDifference(a: Num, b: Num, tmin: Num)
    requires Operands(a, b, tmin) && a.x < 0 <= b.x && IsSigned(tmin.t) && tmin.x <= 0
  {
    (!IsSigned(Common(Common(a.t, tmin.t), b.t)) && Difference(a, tmin).x < 0) || Less(Difference(a, tmin), b)
  }

  /** The difference of an operand and a negative one is above the upper bound. */
  predicate UpperDifference(a: Num, b: Num, tmax: Num)
    requires Operands(a, b, tmax) && b.x < 0 <= a.x && 0 < tmax.x
  {
    (!(IsSigned(Common(tmax.t, b.t)) && IsSigned(Common(Common(tmax.t, b.t), a.t)))
     && !Less(Difference(Const(b.t, -1), b), tmax))
    || Less(Sum(tmax, b), a)
  }

  predicate GlSubtractRangeOverflow(a: Num, b: Num, tmin: Num, tmax: Num)
    requires Arguments(a, b, tmin, tmax)
  {
    if (a.x < 0) == (b.x < 0) then
      SameSign(a, b);
      if Less(a, b) then DifferenceBelow(a, b, tmin) else Less(tmax, Difference(a, b))
    else if a.x < 0 then LowerDifference(a, b, tmin)
    else UpperDifference(a, b, tmax)
  }

  lemma SameSign(a: Num, b: Num)
    requires IsNum(a) && IsNum(b) && Comparable(a.t, b.t) && (a.x < 0 <==> b.x < 0)
    ensures Less(a, b) <==> a.x < b.x
    ensures In(Common(a.t, b.t), a.x) && In(Common(a.t, b.t), b.x)
    ensures a.x < b.x ==> Difference(b, a) == Num(Common(b.t, a.t), b.x - a.x)
  {
    hide Reduce, Left, Right;
  }

  /** The sums that are taken for an overflow although they are in range: an unsigned operand beyond the
      upper bound and a negative one whose sum is negative. */
  predicate Misjudged(a: Num, b: Num, tmin: Num, tmax: Num)
    requires Arguments(a, b, tmin, tmax)
  {
    && !IsSigned(Common(a.t, b.t))
    && ((b.x < 0 && tmax.x < a.x) || (a.x < 0 && tmax.x < b.x))
    && tmin.x <= a.x + b.x < 0
  }

  lemma SumBelowExact(a: Num, n: Num, tmin: Num)
    requires Operands(a, n, tmin) && n.x < 0 && IsSigned(tmin.t) && tmin.x <= 0
    ensures SumBelow(a, n, tmin) <==> a.x + n.x < tmin.x
  {
    hide Reduce, Left, Right;
  }

  lemma DifferenceBelowExact(a: Num, b: Num, tmin: Num)
    requires Operands(a, b, tmin) && (a.x < 0 <==> b.x < 0) && IsSigned(tmin.t) && tmin.x <= 0 && a.x < b.x
    ensures DifferenceBelow(a, b, tmin) <==> a.x - b.x < tmin.x
  {
    hide Reduce, Left, Right, Difference, Const;
    SameSign(a, b);
    OneLess(Difference(b, a));
    MinusOneLess(tmin);
  }

  lemma AddFirst(a: Num, b: Num, tmin: Num, tmax: Num)
    requires Arguments(a, b, tmin, tmax) && b.x < 0
    ensures GlAddRangeOverflow(a, b, tmin, tmax) <==>
            !(tmin.x <= a.x + b.x <= tmax.x) || Misjudged(a, b, tmin, tmax)
  {
    hide Reduce, Left, Right, SumBelow;
    SumBelowExact(a, b, tmin);
  }

  lemma AddSecond(a: Num, b: Num, tmin: Num, tmax: Num)
    requires Arguments(a, b, tmin, tmax) && a.x < 0 <= b.x
    ensures GlAddRangeOverflow(a, b, tmin, tmax) <==>
            !(tmin.x <= a.x + b.x <= tmax.x) || Misjudged(a, b, tmin, tmax)
  {
    hide Reduce, Left, Right, SumBelow;
    SumBelowExact(b, a, tmin);
  }

  lemma AddThird(a: Num, b: Num, tmin: Num, tmax: Num)
    requires Arguments(a, b, tmin, tmax) && 0 <= a.x && 0 <= b.x
    ensures GlAddRangeOverflow(a, b, tmin, tmax) <==> !(tmin.x <= a.x + b.x <= tmax.x)
  {
    hide Reduce, Left, Right;
  }

  lemma SubSame(a: Num, b: Num, tmin: Num, tmax: Num)
    requires Arguments(a, b, tmin, tmax) && (a.x < 0 <==> b.x < 0)
    ensures GlSubtractRangeOverflow(a, b, tmin, tmax) <==> !(tmin.x <= a.x - b.x <= tmax.x)
  {
    hide Reduce, Left, Right, DifferenceBelow, Less;
    SameSign(a, b);
    if a.x < b.x {
      DifferenceBelowExact(a, b, tmin);
    } else {
      SameLeft(a, b, tmax);
    }
  }

  lemma SameLeft(a: Num, b: Num, tmax: Num)
    requires Operands(a, b, tmax) && (a.x < 0 <==> b.x < 0) && tmax.x > 0 && b.x <= a.x
    ensures Less(tmax, Difference(a, b)) <==> tmax.x < a.x - b.x
  {
    hide Reduce, Left, Right;
  }

  lemma SubFirst(a: Num, b: Num, tmin: Num, tmax: Num)
    requires Arguments(a, b, tmin, tmax) && a.x < 0 <= b.x
    ensures GlSubtractRangeOverflow(a, b, tmin, tmax) <==> !(tmin.x <= a.x - b.x <= tmax.x)
  {
    hide Reduce, Left, Right;
  }

  lemma SubSecond(a: Num, b: Num, tmin: Num, tmax: Num)
    requires Arguments(a, b, tmin, tmax) && b.x < 0 <= a.x
    ensures GlSubtractRangeOverflow(a, b, tmin, tmax) <==> !(tmin.x <= a.x - b.x <= tmax.x)
  {
    hide Reduce, Left, Right;
  }

  /** _GL_INT_CONVERT: a value in the common type with another expression. */
  function Converted(t: Range, v: Num): (r: Num)
    requires IsNum(v) && Comparable(t, v.t) && ((IsSigned(t) && IsSigned(v.t)) || v.x >= 0)
    ensures IsNum(r) && r == Num(Common(t, v.t), v.x)
  {
    Num(Common(t, v.t), Reduce(Common(t, v.t), v.x))
  }

  /** _GL_INT_NEGATE_OVERFLOW. */
  predicate NegateOverflow(e: Num)
    requires IsNum(e)
  {
    if IsSigned(e.t) then e.x < -e.t.hi else 0 < e.x
  }

  function Negated(a: Num): (r: Num)
    requires IsNum(a) && IsSigned(a.t) && !NegateOverflow(a)
    ensures IsNum(r)
  {
    Num(a.t, -a.x)
  }

  function Ratio(a: Num, b: Num): (r: Num)
    requires IsNum(a) && IsNum(b) && Comparable(a.t, b.t) && Right(a, b) != 0
    requires !(IsSigned(Common(a.t, b.t)) && Left(a, b) == Common(a.t, b.t).lo && Right(a, b) == -1)
    ensures IsNum(r)
  {
    var t := Common(a.t, b.t);
    QuotientInRange(t, Left(a, b), Right(a, b));
    Num(t, Quotient(Left(a, b), Right(a, b)))
  }

  /** The upper bound, which is unsigned and as wide as b, divided by the number opposite to b; the least
      number of the type of b has no opposite, and the bound is shifted by the width of b less one. */
  function UpperRatio(tmax: Num, b: Num): (r: Num)
    requires IsNum(tmax) && IsNum(b) && Comparable(tmax.t, b.t) && !IsSigned(Common(tmax.t, b.t))
    requires b.x < 0 < tmax.x
    ensures IsNum(r)
  {
    if NegateOverflow(b) then
      var c := Converted(b.t, tmax);
      WholeSmall(c.x, Size(b.t) / 2);
      Num(c.t, Quotient(c.x, Size(b.t) / 2))
    else Ratio(tmax, Negated(b))
  }

  /** The product of two negative operands is above the upper bound. */
  predicate NegativesAbove(a: Num, b: Num, tmax: Num)
    requires Operands(a, b, tmax) && a.x < 0 && b.x < 0 < tmax.x
  {
    if IsSigned(Common(tmax.t, b.t)) then Less(a, Ratio(tmax, b))
    else !Less(Difference(Const(a.t, -1), a), UpperRatio(tmax, b))
  }

  /** The product of -1 and p is below the lower bound. */
  predicate OppositeBelow(p: Num, tmin: Num)
    requires IsNum(p) && IsNum(tmin) && Comparable(p.t, tmin.t) && IsSigned(tmin.t) && tmin.x < 0 <= p.x
    requires IsSigned(p.t) || 0 < p.x
  {
    if IsSigned(p.t) then 0 < Sum(p, tmin).x
    else Less(Difference(Const(tmin.t, -1), tmin), Difference(p, Const(p.t, 1)))
  }

  /** The lower bound, divided by n, has no opposite in the common type. */
  predicate NoOpposite(n: Num, tmin: Num)
    requires IsNum(n) && IsNum(tmin) && Comparable(n.t, tmin.t) && IsSigned(n.t) && IsSigned(tmin.t)
  {
    NegateOverflow(Converted(n.t, tmin)) && n.x == -1
  }

  /** The product of a negative n and p is below the lower bound. */
  predicate RatioBelow(n: Num, p: Num, tmin: Num)
    requires Operands(n, p, tmin) && n.x < 0 <= p.x && IsSigned(tmin.t) && tmin.x <= 0 && !NoOpposite(n, tmin)
  {
    Less(Ratio(tmin, n), p)
  }

  predicate GlMultiplyRangeOverflow(a: Num, b: Num, tmin: Num, tmax: Num)
    requires Arguments(a, b, tmin, tmax)
  {
    if b.x < 0 then
      if a.x < 0 then NegativesAbove(a, b, tmax)
      else if NoOpposite(b, tmin) then (IsSigned(a.t) || 0 < a.x) && OppositeBelow(a, tmin)
      else RatioBelow(b, a, tmin)
    else if b.x == 0 then false
    else if a.x < 0 then
      if NoOpposite(a, tmin) then OppositeBelow(b, tmin)
      else RatioBelow(a, b, tmin)
    else Less(Ratio(tmax, b), a)
  }

  lemma WholeOpposite(x: int, y: int)
    requires y < 0
    ensures Whole(x, y) == Whole(x, -y)
  {
  }

  lemma UpperRatioIs(tmax: Num, b: Num)
    requires IsNum(tmax) && IsNum(b) && Comparable(tmax.t, b.t) && !IsSigned(Common(tmax.t, b.t))
    requires b.x < 0 < tmax.x
    ensures UpperRatio(tmax, b) == Num(Common(tmax.t, b.t), Whole(tmax.x, b.x))
  {
    hide Reduce, Left, Right, Whole;
    WholeOpposite(tmax.x, b.x);
    WholeSmall(tmax.x, b.x);
  }

  lemma NegativesAboveExact(a: Num, b: Num, tmax: Num)
    requires Operands(a, b, tmax) && a.x < 0 && b.x < 0 < tmax.x
    ensures NegativesAbove(a, b, tmax) <==> tmax.x < a.x * b.x
  {
    hide Reduce, Left, Right, Whole, UpperRatio;
    ProductSigns(a.x, b.x);
    WholeLess(tmax.x, b.x, -a.x);
    WholeSmall(tmax.x, b.x);
    if !IsSigned(Common(tmax.t, b.t)) {
      UpperRatioIs(tmax, b);
    }
  }

  lemma OppositeBelowExact(p: Num, tmin: Num)
    requires IsNum(p) && IsNum(tmin) && Comparable(p.t, tmin.t) && IsSigned(tmin.t) && tmin.x < 0 <= p.x
    requires IsSigned(p.t) || 0 < p.x
    ensures OppositeBelow(p, tmin) <==> -p.x < tmin.x
  {
    hide Reduce, Left, Right;
  }

  lemma RatioBelowExact(n: Num, p: Num, tmin: Num)
    requires Operands(n, p, tmin) && n.x < 0 <= p.x && IsSigned(tmin.t) && tmin.x <= 0 && !NoOpposite(n, tmin)
    ensures RatioBelow(n, p, tmin) <==> p.x * n.x < tmin.x
  {
    hide Reduce, Left, Right, Whole, NoOpposite;
    RatioOfBound(n, tmin);
    ProductSigns(p.x, n.x);
    WholeLess(tmin.x, n.x, p.x);
    WholeSmall(tmin.x, n.x);
  }

  lemma RatioOfBound(n: Num, tmin: Num)
    requires IsNum(n) && IsNum(tmin) && Comparable(n.t, tmin.t) && IsSigned(tmin.t) && n.x < 0 && tmin.x <= 0
    requires !NoOpposite(n, tmin)
    ensures IsSigned(Common(tmin.t, n.t)) && !(tmin.x == Common(tmin.t, n.t).lo && n.x == -1)
    ensures Ratio(tmin, n) == Num(Common(tmin.t, n.t), Whole(tmin.x, n.x))
  {
    hide Reduce, Left, Right, Whole;
    WholeNothing(n.x);
  }

  lemma WholeNothing(y: int)
    requires y != 0
    ensures Whole(0, y) == 0
  {
  }

  lemma RatioAboveExact(a: Num, b: Num, tmax: Num)
    requires Operands(a, b, tmax) && 0 <= a.x && 0 < b.x && 0 < tmax.x
    ensures Less(Ratio(tmax, b), a) <==> tmax.x < a.x * b.x
  {
    hide Reduce, Left, Right, Whole;
    ProductSigns(a.x, b.x);
    WholeLess(tmax.x, b.x, a.x);
    WholeSmall(tmax.x, b.x);
  }

  lemma GlMultiplyExact(a: Num, b: Num, tmin: Num, tmax: Num)
    requires Arguments(a, b, tmin, tmax)
    ensures GlMultiplyRangeOverflow(a, b, tmin, tmax) <==> !(tmin.x <= a.x * b.x <= tmax.x)
  {
    hide Left, Right, Reduce, Less, Ratio, Whole, NegativesAbove, OppositeBelow, RatioBelow, NoOpposite;
    ProductSigns(a.x, b.x);
    if b.x < 0 {
      if a.x < 0 {
        NegativesAboveExact(a, b, tmax);
      } else {
        NegativeFactor(b, a, tmin);
      }
    } else if b.x > 0 {
      if a.x < 0 {
        ProductSigns(b.x, a.x);
        assert a.x * b.x == b.x * a.x;
        NegativeFactor(a, b, tmin);
      } else {
        RatioAboveExact(a, b, tmax);
      }
    }
  }

  lemma NegativeFactor(n: Num, p: Num, tmin: Num)
    requires Operands(n, p, tmin) && n.x < 0 <= p.x && IsSigned(tmin.t) && tmin.x <= 0
    ensures !NoOpposite(n, tmin) ==> (RatioBelow(n, p, tmin) <==> p.x * n.x < tmin.x)
    ensures NoOpposite(n, tmin) ==> tmin.x < 0
    ensures NoOpposite(n, tmin) && (IsSigned(p.t) || 0 < p.x) ==> (OppositeBelow(p, tmin) <==> p.x * n.x < tmin.x)
    ensures p.x == 0 ==> p.x * n.x == 0
  {
    hide OppositeBelow, RatioBelow;
    if !NoOpposite(n, tmin) {
      RatioBelowExact(n, p, tmin);
    } else if IsSigned(p.t) || 0 < p.x {
      assert p.x * n.x == -p.x;
      OppositeBelowExact(p, tmin);
    }
  }

  lemma GlAddExact(a: Num, b: Num, tmin: Num, tmax: Num)
    requires Arguments(a, b, tmin, tmax)
    ensures GlAddRangeOverflow(a, b, tmin, tmax) <==>
            !(tmin.x <= a.x + b.x <= tmax.x) || Misjudged(a, b, tmin, tmax)
    ensures Misjudged(a, b, tmin, tmax) ==> tmin.x <= a.x + b.x <= tmax.x
  {
    hide GlAddRangeOverflow;
    if b.x < 0 {
      AddFirst(a, b, tmin, tmax);
    } else if a.x < 0 {
      AddSecond(a, b, tmin, tmax);
    } else {
      AddThird(a, b, tmin, tmax);
    }
  }

  lemma GlSubtractExact(a: Num, b: Num, tmin: Num, tmax: Num)
    requires Arguments(a, b, tmin, tmax)
    ensures GlSubtractRangeOverflow(a, b, tmin, tmax) <==> !(tmin.x <= a.x - b.x <= tmax.x)
  {
    hide GlSubtractRangeOverflow;
    if a.x < 0 <==> b.x < 0 {
      SubSame(a, b, tmin, tmax);
    } else if a.x < 0 {
      SubFirst(a, b, tmin, tmax);
    } else {
      SubSecond(a, b, tmin, tmax);
    }
  }

  /** With operands and bounds of any integer types the tests for differences and products are true exactly
      when the exact result is outside the bounds. The test for sums is so except for the misjudged ones. */
  lemma GlRangeOverflowExact(a: Num, b: Num, tmin: Num, tmax: Num)
    requires Arguments(a, b, tmin, tmax)
    ensures (GlAddRangeOverflow(a, b, tmin, tmax) <==> !(tmin.x <= a.x + b.x <= tmax.x))
            <==> !Misjudged(a, b, tmin, tmax)
    ensures GlSubtractRangeOverflow(a, b, tmin, tmax) <==> !(tmin.x <= a.x - b.x <= tmax.x)
    ensures GlMultiplyRangeOverflow(a, b, tmin, tmax) <==> !(tmin.x <= a.x * b.x <= tmax.x)
  {
    hide GlAddRangeOverflow, GlSubtractRangeOverflow, GlMultiplyRangeOverflow, Misjudged, Arguments;
    GlAddExact(a, b, tmin, tmax);
    GlSubtractExact(a, b, tmin, tmax);
    GlMultiplyExact(a, b, tmin, tmax);
  }

  /** No sum is misjudged when the upper bound is not below the greatest value of a signed operand. */
  lemma WideNotMisjudged(a: Num, b: Num, tmin: Num, tmax: Num)
    requires Arguments(a, b, tmin, tmax)
    requires (IsSigned(a.t) ==> a.t.hi <= tmax.x) && (IsSigned(b.t) ==> b.t.hi <= tmax.x)
    ensures !Misjudged(a, b, tmin, tmax)
  {
  }

  /** 2^31 of type unsigned long and -2^31 - 5 of type long, added for an int: -5 is taken for an overflow. */
  lemma SumMisjudged()
    ensures var int_, long, ulong := TypeOf(32, true), TypeOf(64, true), TypeOf(64, false);
            var a, b := Num(ulong, 0x8000_0000), Num(long, -0x8000_0005);
            var tmin, tmax := Num(int_, int_.lo), Num(int_, int_.hi);
            && Arguments(a, b, tmin, tmax) && a.x + b.x == -5
            && GlAddRangeOverflow(a, b, tmin, tmax)
  {
    TwoTo32And64();
    var int_, long, ulong := TypeOf(32, true), TypeOf(64, true), TypeOf(64, false);
    hide GlAddRangeOverflow;
    GlAddExact(Num(ulong, 0x8000_0000), Num(long, -0x8000_0005), Num(int_, int_.lo), Num(int_, int_.hi));
  }

  lemma TwoTo32And64()
    ensures Pow(2, 32) == 0x1_0000_0000 && Pow(2, 31) == 0x8000_0000
    ensures Pow(2, 64) == 0x1_0000_0000_0000_0000 && Pow(2, 63) == 0x8000_0000_0000_0000
  {
    TwoTo8();
    assert Pow(2, 32) == 2 * Pow(2, 31) && Pow(2, 64) == 2 * Pow(2, 63);
    hide Pow;
    PowAdd(2, 8, 8);
    PowAdd(2, 16, 16);
    PowAdd(2, 32, 32);
  }

  lemma TwoTo8()
    ensures Pow(2, 8) == 256
  {
    assert Pow(2, 2) == 4;
    assert Pow(2, 4) == 4 * Pow(2, 2);
    assert Pow(2, 6) == 4 * Pow(2, 4);
    assert Pow(2, 8) == 4 * Pow(2, 6);
  }

  /** The types that C has are comparable. */
  lemma TypesCompare(w: nat, signed: bool, w': nat, signed': bool)
    requires w > 1 && w' > 1
    ensures Comparable(TypeOf(w, signed), TypeOf(w', signed'))
  {
    PowGrows(w, w');
  }

  lemma PowGrows(w: nat, w': nat)
    ensures w < w' ==> 2 * Pow(2, w) <= Pow(2, w')
    ensures w' < w ==> 2 * Pow(2, w') <= Pow(2, w)
  {
    if w < w' {
      PowAdd(2, w, w' - w);
      MulMono(2, Pow(2, w), Pow(2, w' - w), Pow(2, w));
    } else if w' < w {
      PowAdd(2, w', w - w');
      MulMono(2, Pow(2, w'), Pow(2, w - w'), Pow(2, w'));
    }
  }

  // ---------------------------------------------------------------- wrapped results

  datatype Op = Plus | Minus | Times

  function Exact(op: Op, a: int, b: int): int
  {
    match op
    case Plus => a + b
    case Minus => a - b
    case Times => a * b
  }

  /** A cast to an unsigned type. */
  function ToUnsigned(x: int, w: nat): (u: nat)
    ensures u < Pow(2, w)
  {
    x % Pow(2, w)
  }

  /** A cast that keeps the low-order bits. */
  function Cast(u: int, w: nat, signed: bool): (r: int)
    requires w > 1
    ensures In(TypeOf(w, signed), r)
  {
    var v := u % Pow(2, w);
    if v > TypeOf(w, signed).hi then v - Pow(2, w) else v
  }

  /** _GL_INT_OP_WRAPV_VIA_UNSIGNED: the calculation is made in an unsigned type with uw bits. */
  function WrapvViaUnsigned(op: Op, a: int, b: int, uw: nat, w: nat, signed: bool): (r: int)
    requires 1 < w <= uw
    ensures In(TypeOf(w, signed), r)
  {
    Cast(ToUnsigned(Exact(op, ToUnsigned(a, uw), ToUnsigned(b, uw)), uw), w, signed)
  }

  predicate Overflow(op: Op, a: Num, b: Num, tmin: Num, tmax: Num)
    requires Arguments(a, b, tmin, tmax)
  {
    match op
    case Plus => GlAddRangeOverflow(a, b, tmin, tmax)
    case Minus => GlSubtractRangeOverflow(a, b, tmin, tmax)
    case Times => GlMultiplyRangeOverflow(a, b, tmin, tmax)
  }

  ghost predicate Congruent(x: int, y: int, m: nat)
    requires m > 0
  {
    exists k: int :: x == y + m * k
  }

  lemma ModCongruent(x: int, m: nat)
    requires m > 0
    ensures Congruent(x % m, x, m)
  {
    assert x % m == x + m * (-(x / m));
  }

  lemma CongruentTrans(x: int, y: int, z: int, m: nat)
    requires m > 0 && Congruent(x, y, m) && Congruent(y, z, m)
    ensures Congruent(x, z, m)
  {
    var i: int :| x == y + m * i;
    var j: int :| y == z + m * j;
    assert m * i + m * j == m * (i + j);
    assert x == z + m * (i + j);
  }

  lemma CongruentExact(op: Op, a: int, a': int, b: int, b': int, m: nat)
    requires m > 0 && Congruent(a, a', m) && Congruent(b, b', m)
    ensures Congruent(Exact(op, a, b), Exact(op, a', b'), m)
  {
    var i: int :| a == a' + m * i;
    var j: int :| b == b' + m * j;
    match op {
      case Plus =>
        assert m * i + m * j == m * (i + j);
        assert a + b == (a' + b') + m * (i + j);
      case Minus =>
        assert m * i - m * j == m * (i - j);
        assert a - b == (a' - b') + m * (i - j);
      case Times =>
        ProductExpand(a', b', i, j, m);
        assert a * b == a' * b' + m * (a' * j + b' * i + m * (i * j));
    }
  }

  lemma ProductExpand(a: int, b: int, i: int, j: int, m: int)
    ensures (a + m * i) * (b + m * j) == a * b + m * (a * j + b * i + m * (i * j))
  {
    assert (a + m * i) * (b + m * j) == a * b + a * (m * j) + (m * i) * b + (m * i) * (m * j);
    assert a * (m * j) == m * (a * j);
    assert (m * i) * b == m * (b * i);
    assert (m * i) * (m * j) == m * (m * (i * j));
    assert m * (a * j + b * i + m * (i * j)) == m * (a * j) + m * (b * i) + m * (m * (i * j));
  }

  lemma CongruentNarrow(x: int, y: int, uw: nat, w: nat)
    requires w <= uw && Congruent(x, y, Pow(2, uw))
    ensures Congruent(x, y, Pow(2, w))
  {
    var k: int :| x == y + Pow(2, uw) * k;
    PowAdd(2, w, uw - w);
    Associative(Pow(2, w), Pow(2, uw - w), k);
    assert x == y + Pow(2, w) * (Pow(2, uw - w) * k);
  }

  /** What is stored has the low-order bits of the exact result. */
  lemma WrapvCongruent(op: Op, a: int, b: int, uw: nat, w: nat, signed: bool)
    requires 1 < w <= uw
    ensures Congruent(WrapvViaUnsigned(op, a, b, uw, w, signed), Exact(op, a, b), Pow(2, w))
  {
    hide Congruent, Exact, Pow;
    var m, n := Pow(2, uw), Pow(2, w);
    var ua, ub := ToUnsigned(a, uw), ToUnsigned(b, uw);
    ModCongruent(a, m);
    ModCongruent(b, m);
    CongruentExact(op, ua, a, ub, b, m);
    var e := Exact(op, ua, ub);
    var u := ToUnsigned(e, uw);
    ModCongruent(e, m);
    CongruentTrans(u, e, Exact(op, a, b), m);
    CongruentNarrow(u, Exact(op, a, b), uw, w);
    ModCongruent(u, n);
    MinusOne(u % n, n);
    var r := Cast(u, w, signed);
    if r != u % n {
      CongruentTrans(r, u % n, u, n);
    }
    CongruentTrans(r, u, Exact(op, a, b), n);
  }

  lemma MinusOne(v: int, m: nat)
    requires m > 0
    ensures Congruent(v - m, v, m)
  {
    assert v - m == v + m * (-1);
  }

  /** Two values of a type with the same low-order bits are the same. */
  lemma CongruentSame(t: Range, x: int, y: int, m: nat)
    requires m > 0 && t.hi - t.lo < m && In(t, x) && In(t, y) && Congruent(x, y, m)
    ensures x == y
  {
    var k: int :| x == y + m * k;
    assert m * k == -(m * (-k));
    if k > 0 {
      MulMono(m, 1, m, k);
    } else if k < 0 {
      MulMono(m, 1, m, -k);
    }
  }

  /** _GL_INT_OP_CALC: the result gets the low-order bits, and the flag says whether they are wrong or the
      sum is misjudged. */
  method OpCalc(op: Op, a: Num, b: Num, tmin: Num, tmax: Num, uw: nat, w: nat, signed: bool)
    returns (overflow: bool, r: int)
    requires 1 < w <= uw && Arguments(a, b, tmin, tmax)
    requires tmin.x == TypeOf(w, signed).lo && tmax.x == TypeOf(w, signed).hi
    ensures In(TypeOf(w, signed), r) && Congruent(r, Exact(op, a.x, b.x), Pow(2, w))
    ensures r == Exact(op, a.x, b.x) <==> In(TypeOf(w, signed), Exact(op, a.x, b.x))
    ensures overflow <==> r != Exact(op, a.x, b.x) || (op.Plus? && Misjudged(a, b, tmin, tmax))
    ensures (op.Plus? ==> Congruent(r, a.x + b.x, Pow(2, w))) && (op.Minus? ==> Congruent(r, a.x - b.x, Pow(2, w)))
    ensures op.Times? ==> Congruent(r, a.x * b.x, Pow(2, w))
  {
    hide GlAddRangeOverflow, GlSubtractRangeOverflow, GlMultiplyRangeOverflow, Misjudged, Congruent;
    var t := TypeOf(w, signed);
    GlRangeOverflowExact(a, b, tmin, tmax);
    GlAddExact(a, b, tmin, tmax);
    WrapvCongruent(op, a.x, b.x, uw, w, signed);
    if Overflow(op, a, b, tmin, tmax) {
      r, overflow := WrapvViaUnsigned(op, a.x, b.x, uw, w, signed), true;
    } else {
      r, overflow := WrapvViaUnsigned(op, a.x, b.x, uw, w, signed), false;
    }
    if In(t, Exact(op, a.x, b.x)) {
      CongruentSame(t, r, Exact(op, a.x, b.x), Pow(2, w));
    }
  }

  // ---------------------------------------------------------------- the length of printed integers

  /** INT_BITS_STRLEN_BOUND */
  function BitsStrlenBound(b: nat): nat
  {
    (b * 146 + 484) / 485
  }

  /** A power of two is below the power of ten of the bound. */
  lemma PowerBelow(b: nat)
    requires b > 0
    ensures Pow(2, b) < Pow(10, BitsStrlenBound(b))
  {
    hide Pow;
    var k := BitsStrlenBound(b);
    if Pow(10, k) <= Pow(2, b) {
      PowMono(Pow(10, k), Pow(2, b), 485);
      PowMul(10, k, 485);
      PowMul(2, b, 485);
      PowMul(2, 485, b);
      PowMul(10, 146, b);
      TwoTo485();
      PowMono(Pow(2, 485), Pow(10, 146), b);
      PowUp(10, 146 * b, k * 485);
      assert false;
    }
  }

  /** Every number of b bits has at most as many digits as the bound says, and so has the first one
      that needs a bit more. */
  lemma DigitsWithinBound(b: nat, n: nat)
    requires b > 0 && n <= Pow(2, b)
    ensures |Digits(n)| <= BitsStrlenBound(b)
  {
    hide Pow, Digits;
    PowerBelow(b);
    var k := BitsStrlenBound(b);
    DigitsLength(n, k);
  }

  /** INT_STRLEN_BOUND: a number of a type with w bits, with its sign. */
  lemma PrintedWithinBound(w: nat, signed: bool, n: int)
    requires w > 1 && In(TypeOf(w, signed), n)
    ensures |Signed(n)| <= BitsStrlenBound(w - if signed then 1 else 0) + if signed then 1 else 0
  {
    hide Digits;
    DigitsWithinBound(w - if signed then 1 else 0, if n < 0 then -n else n);
  }

  /** Up to 2620 bits the bound is reached; at 2621 it is not. */
  lemma BoundReached(b: nat)
    requires 0 < b < 2621
    ensures exists n: nat :: n < Pow(2, b) && |Digits(n)| == BitsStrlenBound(b)
  {
    hide Pow, Digits;
    var q: nat := BitsStrlenBound(b) - 1;
    var n := Pow(10, q);
    if Pow(2, b) <= n {
      PowMono(Pow(2, b), n, 2136);
      PowMul(2, b, 2136);
      PowMul(10, q, 2136);
      PowMul(2, 2136, b);
      PowMul(10, 643, b);
      TwoTo2136();
      PowMono(Pow(10, 643), Pow(2, 2136), b);
      PowUp(10, q * 2136, 643 * b);
      assert false;
    }
    DigitsWithinBound(b, n);
    if q == 0 {
      OneDigit(n);
    } else {
      DigitsLength(n, q);
    }
  }

  lemma OneDigit(n: nat)
    ensures |Digits(n)| > 0
  {
  }

  lemma BoundMissed(n: nat)
    requires n < Pow(2, 2621)
    ensures |Digits(n)| < BitsStrlenBound(2621)
  {
    hide Pow, Digits;
    TwoTo2621();
    DigitsLength(n, 789);
  }
}
