/**
 * The elliptic-curve arithmetic of the wallet generator: extended-Euclid inverse, chord-and-tangent
 * addition and double-and-add, over y^2 = x^3 + 7 modulo a prime `p`.
 * SEC 2, section 2.4.1 fixes p; SEC 1, section 2.2.1 says what addition means.
 */
module Curve {
  import opened Congruence

  /** The field modulus of secp256k1, and the coordinates of its base point. */
  const P := 0xfffffffffffffffffffffffffffffffffffffffffffffffffffffffefffffc2f
  const GX := 0x79be667ef9dcbbac55a06295ce870b07029bfcdb2dce28d959f2815b16f81798
  const GY := 0x483ada7726a3c4655da4fbfc0e1108a8fd17b448a68554199c47d08ffb10d4b8

  /** The source's `Point | null`: `null` is the point at infinity. */
  datatype Point = Infinity | Affine(x: int, y: int)

  datatype Result<+T> = Ok(value: T) | Err(message: string)

  // ----- Modular inverse -----

  /** The BigInt `%` operator, whose remainder takes the sign of the dividend. */
  function TruncatedRemainder(a: int, m: int): int
    requires m > 0
  {
    if a >= 0 then a % m else -((-a) % m)
  }

  function Mod(a: int, m: int): (r: int)
    requires m > 0
    ensures 0 <= r < m && Divides(m, r - a)
  {
    var r := TruncatedRemainder(a, m);
    RemainderIsCongruent(m, a);
    RemainderIsCongruent(m, -a);
    MultipleIsDivisible(m, 1);
    if r >= 0 then
      (if a < 0 then assert r - a == -(((-a) % m) - (-a)); DividesProduct(m, (-a) % m - (-a), -1); r else r)
    else
      DividesSum(m, -a - (-a) % m, m);
      r + m
  }

  /** Greatest common divisor, by Euclid's recursion. `GcdIsGreatest` says what it means. */
  function Gcd(a: nat, b: nat): nat
    decreases b
  {
    if b == 0 then a else Gcd(b, a % b)
  }

  lemma {:induction false} GcdIsGreatest(a: nat, b: nat)
    requires a > 0 || b > 0
    ensures Gcd(a, b) > 0 && Divides(Gcd(a, b), a) && Divides(Gcd(a, b), b)
    ensures forall d: nat | d > 0 && Divides(d, a) && Divides(d, b) :: Divides(d, Gcd(a, b))
    decreases b
  {
    if b == 0 {
      MultipleIsDivisible(a, 1);
      MultipleIsDivisible(a, 0);
    } else {
      GcdIsGreatest(b, a % b);
      var g, q := Gcd(b, a % b), a / b;
      assert a == q * b + a % b;
      DividesProduct(g, b, q);
      DividesSum(g, q * b, a % b);
      forall d: nat | d > 0 && Divides(d, a) && Divides(d, b)
        ensures Divides(d, g)
      {
        DividesProduct(d, b, q);
        DividesSum(d, a, q * b);
        assert a - q * b == a % b;
      }
    }
  }

  /** The value the inverse loop ends with when entered with these four variables. */
  function InverseLoop(oldR: nat, r: nat, oldS: int, s: int): int
    decreases r
  {
    if r == 0 then oldS
    else
      var q := oldR / r;
      assert oldR - q * r == oldR % r;
      InverseLoop(r, oldR - q * r, s, oldS - q * s)
  }

  function Inverse(a: int, m: int): int
    requires m > 0
  {
    Mod(InverseLoop(Mod(a, m), m, 1, 0), m)
  }

  /** The Bezout invariant: each coefficient times `a` stays congruent to its remainder. */
  lemma {:induction false} InverseLoopIsBezout(a: int, m: int, oldR: nat, r: nat, oldS: int, s: int)
    requires m > 0 && Divides(m, oldS * a - oldR) && Divides(m, s * a - r)
    ensures Divides(m, InverseLoop(oldR, r, oldS, s) * a - Gcd(oldR, r))
    decreases r
  {
    if r != 0 {
      var q := oldR / r;
      assert oldR - q * r == oldR % r;
      DividesProduct(m, s * a - r, q);
      DividesSum(m, oldS * a - oldR, q * (s * a - r));
      assert oldS * a - oldR - q * (s * a - r) == (oldS - q * s) * a - (oldR - q * r) by {
        assert q * (s * a - r) == q * s * a - q * r;
        assert (oldS - q * s) * a == oldS * a - q * s * a;
      }
      InverseLoopIsBezout(a, m, r, oldR - q * r, s, oldS - q * s);
    }
  }

  /** The inverse is canonical, and times `a` it is congruent to the greatest common divisor. */
  lemma InverseIsBezout(a: int, m: int)
    requires m > 0
    ensures 0 <= Inverse(a, m) < m
    ensures Divides(m, Inverse(a, m) * a - Gcd(Mod(a, m), m))
  {
    var c := Mod(a, m);
    DividesProduct(m, c - a, -1);
    assert 1 * a - c == (c - a) * -1;
    MultipleIsDivisible(m, -1);
    assert 0 * a - m == m * -1;
    InverseLoopIsBezout(a, m, c, m, 1, 0);
    var s := InverseLoop(c, m, 1, 0);
    DividesProduct(m, Mod(s, m) - s, a);
    assert (Mod(s, m) - s) * a == Mod(s, m) * a - s * a;
    DividesSum(m, Mod(s, m) * a - s * a, s * a - Gcd(c, m));
  }

  /** Modulo a prime, everything but zero has a true inverse. */
  lemma InverseIsInverse(a: int, p: int)
    requires IsPrime(p) && !Divides(p, a)
    ensures 0 <= Inverse(a, p) < p && Divides(p, Inverse(a, p) * a - 1)
  {
    InverseIsBezout(a, p);
    var c := Mod(a, p);
    var g := Gcd(c, p);
    GcdIsGreatest(c, p);
    DividesProduct(p, c - a, -1);
    assert (c - a) * -1 == a - c;
    assert c > 0;
    DivisorIsSmall(g, c);
    assert g == 1;
  }

  /** One division of the loop: the remainder gets smaller and the loop goes on as before. */
  lemma InverseLoopStep(oldR: nat, r: nat, oldS: int, s: int)
    requires r > 0
    ensures var q := oldR / r;
      0 <= oldR - q * r < r && InverseLoop(oldR, r, oldS, s) == InverseLoop(r, oldR - q * r, s, oldS - q * s)
  {
  }

  method ModInverse(a: int, m: int) returns (inverse: int)
    requires m > 0
    ensures inverse == Inverse(a, m)
    ensures 0 <= inverse < m && Divides(m, inverse * a - Gcd(Mod(a, m), m))
  {
    var oldR, r := Mod(a, m), m;
    var oldS, s := 1, 0;
    while r != 0
      invariant 0 <= oldR && 0 <= r
      invariant InverseLoop(oldR, r, oldS, s) == InverseLoop(Mod(a, m), m, 1, 0)
      decreases r
    {
      var q := oldR / r;
      InverseLoopStep(oldR, r, oldS, s);
      oldR, r := r, oldR - q * r;
      oldS, s := s, oldS - q * s;
    }
    inverse := Mod(oldS, m);
    InverseIsBezout(a, m);
  }

  // ----- Points -----

  ghost predicate OnCurve(p: int, pt: Point)
    requires p > 0
  {
    pt.Affine? ==>
      && 0 <= pt.x < p
      && 0 <= pt.y < p
      && Divides(p, pt.y * pt.y - pt.x * pt.x * pt.x - 7)
  }

  function PointAdd(p: int, p1: Point, p2: Point): Point
    requires p > 0
  {
    if p1.Infinity? then p2
    else if p2.Infinity? then p1
    else if p1.x == p2.x then
      if p1.y == p2.y then PointDouble(p, p1) else Infinity
    else
      var slope := Mod((p2.y - p1.y) * Inverse(p2.x - p1.x, p), p);
      var x3 := Mod(slope * slope - p1.x - p2.x, p);
      var y3 := Mod(slope * (p1.x - x3) - p1.y, p);
      Affine(x3, y3)
  }

  function PointDouble(p: int, pt: Point): Point
    requires p > 0
  {
    if pt.Infinity? || pt.y == 0 then Infinity
    else
      var slope := Mod(3 * pt.x * pt.x * Inverse(2 * pt.y, p), p);
      var x3 := Mod(slope * slope - 2 * pt.x, p);
      var y3 := Mod(slope * (pt.x - x3) - pt.y, p);
      Affine(x3, y3)
  }

  /** Two distinct canonical numbers differ by something a prime does not divide. */
  lemma DistinctCanonical(p: int, a: int, b: int)
    requires p > 0 && 0 <= a < p && 0 <= b < p && a != b
    ensures !Divides(p, a - b)
  {
  }

  /**
   * The line y = s * x + t meets the cubic y^2 = x^3 + 7 where this polynomial vanishes.
   */
  ghost function LineCubic(s: int, t: int, x: int): int {
    x * x * x + 7 - (s * x + t) * (s * x + t)
  }

  /**
   * Vieta: LineCubic(s, t, x) is (x - x1)(x - x2)(x - x3) + Slope3 * x + Const3 whenever x1 + x2 + x3 == s * s,
   * so at each of the three abscissas only the linear remainder is left.
   */
  ghost function LinearPart(s: int, t: int, x1: int, x2: int, x3: int): int {
    -2 * s * t - (x1 * x2 + x1 * x3 + x2 * x3)
  }

  ghost function ConstantPart(s: int, t: int, x1: int, x2: int, x3: int): int {
    7 - t * t + x1 * x2 * x3
  }

  lemma VietaAtRoot(s: int, t: int, x1: int, x2: int, x3: int)
    requires x1 + x2 + x3 == s * s
    ensures LineCubic(s, t, x1) == LinearPart(s, t, x1, x2, x3) * x1 + ConstantPart(s, t, x1, x2, x3)
  {
    assert (s * x1 + t) * (s * x1 + t) == (s * s) * x1 * x1 + 2 * s * t * x1 + t * t;
    assert (s * s) * x1 * x1 == x1 * x1 * x1 + x2 * x1 * x1 + x3 * x1 * x1;
    assert (x1 * x2 + x1 * x3 + x2 * x3) * x1 == x2 * x1 * x1 + x3 * x1 * x1 + x1 * x2 * x3;
    assert (-2 * s * t - (x1 * x2 + x1 * x3 + x2 * x3)) * x1 == -2 * s * t * x1 - (x1 * x2 + x1 * x3 + x2 * x3) * x1;
  }

  lemma LinearPartIsSymmetric(s: int, t: int, x1: int, x2: int, x3: int)
    ensures LinearPart(s, t, x1, x2, x3) == LinearPart(s, t, x2, x1, x3) == LinearPart(s, t, x3, x1, x2)
    ensures ConstantPart(s, t, x1, x2, x3) == ConstantPart(s, t, x2, x1, x3) == ConstantPart(s, t, x3, x1, x2)
  {
  }

  /** If the linear remainder vanishes modulo p at x1, and its slope does, it vanishes at x3 too. */
  lemma ThirdIntersection(p: int, s: int, t: int, x1: int, x2: int, x3: int)
    requires p > 0 && x1 + x2 + x3 == s * s
    requires Divides(p, LineCubic(s, t, x1))
    requires Divides(p, LinearPart(s, t, x1, x2, x3))
    ensures Divides(p, LineCubic(s, t, x3))
  {
    var a := LinearPart(s, t, x1, x2, x3);
    LinearPartIsSymmetric(s, t, x1, x2, x3);
    VietaAtRoot(s, t, x1, x2, x3);
    VietaAtRoot(s, t, x3, x1, x2);
    DividesProduct(p, a, x3 - x1);
    DividesSum(p, LineCubic(s, t, x1), a * (x3 - x1));
    assert a * (x3 - x1) == a * x3 - a * x1;
  }

  /** Two distinct abscissas on the line and the cubic force the slope of the remainder to vanish. */
  lemma ChordRemainderVanishes(p: int, s: int, t: int, x1: int, x2: int, x3: int, inverse: int)
    requires p > 0 && x1 + x2 + x3 == s * s
    requires Divides(p, LineCubic(s, t, x1)) && Divides(p, LineCubic(s, t, x2))
    requires Divides(p, inverse * (x2 - x1) - 1)
    ensures Divides(p, LinearPart(s, t, x1, x2, x3))
  {
    var a := LinearPart(s, t, x1, x2, x3);
    LinearPartIsSymmetric(s, t, x1, x2, x3);
    VietaAtRoot(s, t, x1, x2, x3);
    VietaAtRoot(s, t, x2, x1, x3);
    DividesSum(p, LineCubic(s, t, x2), LineCubic(s, t, x1));
    assert (x2 - x1) * a == a * x2 - a * x1;
    CancelInvertible(p, x2 - x1, inverse, a);
  }

  /** A point whose coordinates are congruent to an exact solution is a canonical point of the curve. */
  lemma CanonicalPoint(p: int, s: int, t: int, x: int, y: int, x3: int)
    requires p > 0 && 0 <= x < p && 0 <= y < p
    requires Divides(p, x - x3) && Divides(p, y + (s * x + t)) && Divides(p, LineCubic(s, t, x3))
    ensures OnCurve(p, Affine(x, y))
  {
    // x^3 + 7 - (s x + t)^2 is congruent to its value at x3
    var d := x - x3;
    var k := x * x + x * x3 + x3 * x3 - s * (s * (x + x3) + 2 * t);
    assert LineCubic(s, t, x) - LineCubic(s, t, x3) == d * k by { CubicDifference(s, t, x, x3); }
    DividesProduct(p, d, k);
    DividesSum(p, d * k, LineCubic(s, t, x3));
    assert Divides(p, LineCubic(s, t, x));
    var line := s * x + t;
    DividesProduct(p, y + line, y - line);
    assert (y + line) * (y - line) == y * y - line * line;
    DividesSum(p, (y + line) * (y - line), LineCubic(s, t, x));
    assert y * y - line * line - LineCubic(s, t, x) == y * y - x * x * x - 7;
  }

  lemma CubicDifference(s: int, t: int, x: int, z: int)
    ensures LineCubic(s, t, x) - LineCubic(s, t, z)
         == (x - z) * (x * x + x * z + z * z - s * (s * (x + z) + 2 * t))
  {
    assert (x - z) * (x * x + x * z + z * z) == x * x * x - z * z * z;
    assert (s * x + t) * (s * x + t) - (s * z + t) * (s * z + t) == (x - z) * (s * (s * (x + z) + 2 * t));
    assert (x - z) * (x * x + x * z + z * z - s * (s * (x + z) + 2 * t))
        == (x - z) * (x * x + x * z + z * z) - (x - z) * (s * (s * (x + z) + 2 * t));
  }

  /** The chord or tangent slope times the denominator is congruent to the numerator. */
  lemma SlopeTimesDenominator(p: int, numerator: int, denominator: int, slope: int)
    requires IsPrime(p) && !Divides(p, denominator)
    requires slope == Mod(numerator * Inverse(denominator, p), p)
    ensures Divides(p, slope * denominator - numerator)
  {
    var inverse := Inverse(denominator, p);
    InverseIsInverse(denominator, p);
    DividesProduct(p, slope - numerator * inverse, denominator);
    DividesProduct(p, inverse * denominator - 1, numerator);
    DividesSum(p, (slope - numerator * inverse) * denominator, numerator * (inverse * denominator - 1));
    SlopeIdentity(slope, numerator, inverse, denominator);
  }

  lemma SlopeIdentity(slope: int, n: int, inverse: int, d: int)
    ensures (slope - n * inverse) * d + n * (inverse * d - 1) == slope * d - n
  {
  }

  /** The line through a curve point with slope s meets the cubic there. */
  lemma LineThroughPoint(p: int, s: int, x: int, y: int, t: int)
    requires p > 0 && Divides(p, y * y - x * x * x - 7) && Divides(p, s * x + t - y)
    ensures Divides(p, LineCubic(s, t, x))
  {
    var line := s * x + t;
    DividesProduct(p, line - y, line + y);
    assert (line - y) * (line + y) == line * line - y * y;
    DividesSum(p, (line - y) * (line + y), y * y - x * x * x - 7);
    DividesProduct(p, line * line - x * x * x - 7, -1);
    assert (line * line - x * x * x - 7) * -1 == LineCubic(s, t, x);
  }

  lemma ReflectionIdentity(s: int, x1: int, y1: int, x3: int)
    ensures s * (x1 - x3) - y1 == -(s * x3 + (y1 - s * x1))
  {
  }

  /** The last step shared by chord and tangent: reduce the exact third intersection and reflect it. */
  lemma ReflectedIntersectionOnCurve(p: int, s: int, x1: int, y1: int, exact: int)
    requires p > 0 && Divides(p, LineCubic(s, y1 - s * x1, exact))
    ensures OnCurve(p, Affine(Mod(exact, p), Mod(s * (x1 - Mod(exact, p)) - y1, p)))
  {
    var x3 := Mod(exact, p);
    var y3 := Mod(s * (x1 - x3) - y1, p);
    ReflectionIdentity(s, x1, y1, x3);
    CanonicalPoint(p, s, y1 - s * x1, x3, y3, exact);
  }

  /** Closure of addition on distinct abscissas. */
  lemma ChordOnCurve(p: int, p1: Point, p2: Point)
    requires IsPrime(p) && p1.Affine? && p2.Affine? && OnCurve(p, p1) && OnCurve(p, p2) && p1.x != p2.x
    ensures OnCurve(p, PointAdd(p, p1, p2)) && PointAdd(p, p1, p2).Affine?
  {
    var d, e := p2.x - p1.x, p2.y - p1.y;
    DistinctCanonical(p, p2.x, p1.x);
    var s := Mod(e * Inverse(d, p), p);
    SlopeTimesDenominator(p, e, d, s);
    InverseIsInverse(d, p);
    ChordThroughTwoPoints(p, p1.x, p1.y, p2.x, p2.y, s, Inverse(d, p));
    ReflectedIntersectionOnCurve(p, s, p1.x, p1.y, s * s - p1.x - p2.x);
  }

  lemma ChordThroughTwoPoints(p: int, x1: int, y1: int, x2: int, y2: int, s: int, inverse: int)
    requires p > 0
    requires Divides(p, y1 * y1 - x1 * x1 * x1 - 7) && Divides(p, y2 * y2 - x2 * x2 * x2 - 7)
    requires Divides(p, s * (x2 - x1) - (y2 - y1)) && Divides(p, inverse * (x2 - x1) - 1)
    ensures Divides(p, LineCubic(s, y1 - s * x1, s * s - x1 - x2))
  {
    var t := y1 - s * x1;
    var exact := s * s - x1 - x2;
    assert s * x1 + t - y1 == 0;
    LineThroughPoint(p, s, x1, y1, t);
    assert s * x2 + t - y2 == s * (x2 - x1) - (y2 - y1);
    LineThroughPoint(p, s, x2, y2, t);
    ChordRemainderVanishes(p, s, t, x1, x2, exact, inverse);
    ThirdIntersection(p, s, t, x1, x2, exact);
  }

  lemma DoubleIsNotDivisible(p: int, y: int)
    requires IsPrime(p) && p > 2 && 0 < y < p
    ensures !Divides(p, 2 * y)
  {
    assert p % 2 != 0;
    if Divides(p, 2 * y) {
      if 2 * y < p {
        DistinctCanonical(p, 2 * y, 0);
      } else if 2 * y > p {
        MultipleIsDivisible(p, 1);
        DividesSum(p, 2 * y, p);
        DistinctCanonical(p, 2 * y - p, 0);
      }
    }
  }

  lemma TangentRemainder(s: int, x: int, y: int)
    ensures LinearPart(s, y - s * x, x, x, s * s - 2 * x) == 3 * x * x - s * (2 * y)
  {
  }

  /** Closure of doubling. */
  lemma DoubleOnCurve(p: int, pt: Point)
    requires IsPrime(p) && p > 2 && OnCurve(p, pt)
    ensures OnCurve(p, PointDouble(p, pt))
  {
    if pt.Affine? && pt.y != 0 {
      DoubleIsNotDivisible(p, pt.y);
      var numerator := 3 * pt.x * pt.x;
      var s := Mod(numerator * Inverse(2 * pt.y, p), p);
      SlopeTimesDenominator(p, numerator, 2 * pt.y, s);
      var t := pt.y - s * pt.x;
      var exact := s * s - 2 * pt.x;
      assert s * pt.x + t - pt.y == 0;
      LineThroughPoint(p, s, pt.x, pt.y, t);
      TangentRemainder(s, pt.x, pt.y);
      DividesProduct(p, s * (2 * pt.y) - numerator, -1);
      assert (s * (2 * pt.y) - numerator) * -1 == LinearPart(s, t, pt.x, pt.x, exact);
      ThirdIntersection(p, s, t, pt.x, pt.x, exact);
      ReflectedIntersectionOnCurve(p, s, pt.x, pt.y, exact);
    }
  }

  /** Closure of addition, over every pair of canonical points: the sum never leaves the curve. */
  lemma AddOnCurve(p: int, p1: Point, p2: Point)
    requires IsPrime(p) && p > 2 && OnCurve(p, p1) && OnCurve(p, p2)
    ensures OnCurve(p, PointAdd(p, p1, p2))
  {
    if p1.Affine? && p2.Affine? {
      if p1.x != p2.x {
        ChordOnCurve(p, p1, p2);
      } else {
        DoubleOnCurve(p, p1);
      }
    }
  }

  /**
   * When the abscissas agree, canonical points of the curve are equal or mirror images, so the `null`
   * branch of addition is taken exactly for a point and its negative.
   */
  lemma SameAbscissa(p: int, p1: Point, p2: Point)
    requires IsPrime(p) && p > 2
    requires p1.Affine? && p2.Affine? && OnCurve(p, p1) && OnCurve(p, p2) && p1.x == p2.x
    ensures p1.y == p2.y || p1.y + p2.y == p
    ensures PointAdd(p, p1, p2).Infinity? <==> p2.y == (if p1.y == 0 then 0 else p - p1.y)
  {
    if p1.y != p2.y {
      DistinctCanonical(p, p1.y, p2.y);
      InverseIsInverse(p1.y - p2.y, p);
      DividesSum(p, p1.y * p1.y - p1.x * p1.x * p1.x - 7, p2.y * p2.y - p2.x * p2.x * p2.x - 7);
      MirrorOrdinates(p, p1.y, p2.y, Inverse(p1.y - p2.y, p));
    } else if p1.y != 0 {
      DoubleIsNotDivisible(p, p1.y);
      MultipleIsDivisible(p, 1);
    }
  }

  lemma MirrorOrdinates(p: int, y1: int, y2: int, inverse: int)
    requires p > 0 && 0 <= y1 < p && 0 <= y2 < p && y1 != y2
    requires Divides(p, y1 * y1 - y2 * y2) && Divides(p, inverse * (y1 - y2) - 1)
    ensures y1 + y2 == p
  {
    assert (y1 - y2) * (y1 + y2) == y1 * y1 - y2 * y2;
    CancelInvertible(p, y1 - y2, inverse, y1 + y2);
    MultipleIsDivisible(p, 1);
    DividesSum(p, y1 + y2, p);
    if y1 + y2 < p {
      CanonicalIsUnique(p, y1 + y2, 0);
    } else {
      CanonicalIsUnique(p, y1 + y2 - p, 0);
    }
  }

  /**
   * SEC 1, section 2.2.1 without division: `sum` is the mirror image of the third point on the line with
   * slope `numerator / denominator` through (x1, y1), which meets the curve at x1, x2 and sum.x.
   */
  ghost predicate IsReflectedThirdPoint(p: int, numerator: int, denominator: int, x1: int, y1: int, x2: int, sum: Point)
    requires p > 0
  {
    && sum.Affine? && 0 <= sum.x < p && 0 <= sum.y < p
    && Divides(p, (x1 + x2 + sum.x) * (denominator * denominator) - numerator * numerator)
    && Divides(p, numerator * (sum.x - x1) + (sum.y + y1) * denominator)
  }

  lemma AddIsReflectedThirdPoint(p: int, p1: Point, p2: Point)
    requires IsPrime(p) && p1.Affine? && p2.Affine? && OnCurve(p, p1) && OnCurve(p, p2) && p1.x != p2.x
    ensures IsReflectedThirdPoint(p, p2.y - p1.y, p2.x - p1.x, p1.x, p1.y, p2.x, PointAdd(p, p1, p2))
  {
    DistinctCanonical(p, p2.x, p1.x);
    var s := Mod((p2.y - p1.y) * Inverse(p2.x - p1.x, p), p);
    SlopeTimesDenominator(p, p2.y - p1.y, p2.x - p1.x, s);
    var x3 := Mod(s * s - p1.x - p2.x, p);
    SlopeFormIsReflectedThirdPoint(p, s, p2.y - p1.y, p2.x - p1.x, p1.x, p1.y, p2.x, x3, PointAdd(p, p1, p2).y);
  }

  lemma DoubleIsReflectedThirdPoint(p: int, pt: Point)
    requires IsPrime(p) && p > 2 && pt.Affine? && OnCurve(p, pt) && pt.y != 0
    ensures IsReflectedThirdPoint(p, 3 * pt.x * pt.x, 2 * pt.y, pt.x, pt.y, pt.x, PointDouble(p, pt))
  {
    DoubleIsNotDivisible(p, pt.y);
    var s := Mod(3 * pt.x * pt.x * Inverse(2 * pt.y, p), p);
    SlopeTimesDenominator(p, 3 * pt.x * pt.x, 2 * pt.y, s);
    var x3 := Mod(s * s - 2 * pt.x, p);
    SlopeFormIsReflectedThirdPoint(p, s, 3 * pt.x * pt.x, 2 * pt.y, pt.x, pt.y, pt.x, x3, PointDouble(p, pt).y);
  }

  lemma SlopeFormIsReflectedThirdPoint(p: int, s: int, n: int, d: int, x1: int, y1: int, x2: int, x3: int, y3: int)
    requires p > 0 && 0 <= x3 < p && 0 <= y3 < p
    requires Divides(p, s * d - n)
    requires Divides(p, x3 - (s * s - x1 - x2)) && Divides(p, y3 - (s * (x1 - x3) - y1))
    ensures IsReflectedThirdPoint(p, n, d, x1, y1, x2, Affine(x3, y3))
  {
    SlopeSquared(p, s * d, n, s, d, x1 + x2, x3);
    DividesProduct(p, y3 - (s * (x1 - x3) - y1), d);
    DividesProduct(p, s * d - n, x3 - x1);
    DividesSum(p, (y3 - (s * (x1 - x3) - y1)) * d, (s * d - n) * (x3 - x1));
    LineIdentity(s, n, d, x1, y1, x3, y3);
  }

  lemma SquareIdentity(sd: int, n: int, s: int, d: int, c: int, x3: int)
    requires sd == s * d
    ensures (x3 - (s * s - c)) * (d * d) + (sd - n) * (sd + n) == (c + x3) * (d * d) - n * n
  {
  }

  lemma SlopeSquared(p: int, sd: int, n: int, s: int, d: int, c: int, x3: int)
    requires p > 0 && sd == s * d && Divides(p, sd - n) && Divides(p, x3 - (s * s - c))
    ensures Divides(p, (c + x3) * (d * d) - n * n)
  {
    DividesProduct(p, sd - n, sd + n);
    DividesProduct(p, x3 - (s * s - c), d * d);
    DividesSum(p, (x3 - (s * s - c)) * (d * d), (sd - n) * (sd + n));
    SquareIdentity(sd, n, s, d, c, x3);
  }

  lemma LineIdentity(s: int, n: int, d: int, x1: int, y1: int, x3: int, y3: int)
    ensures (y3 - (s * (x1 - x3) - y1)) * d - (s * d - n) * (x3 - x1) == n * (x3 - x1) + (y3 + y1) * d
  {
  }

  lemma AbscissaDifference(c: int, dd: int, nn: int, a: int, b: int)
    ensures (c + a) * dd - nn - ((c + b) * dd - nn) == dd * (a - b)
  {
  }

  lemma AbscissaIsUnique(p: int, d: int, i: int, c: int, nn: int, a: int, b: int)
    requires p > 0 && Divides(p, i * d - 1) && 0 <= a < p && 0 <= b < p
    requires Divides(p, (c + a) * (d * d) - nn) && Divides(p, (c + b) * (d * d) - nn)
    ensures a == b
  {
    DividesSum(p, (c + a) * (d * d) - nn, (c + b) * (d * d) - nn);
    AbscissaDifference(c, d * d, nn, a, b);
    assert (d * d) * (a - b) == d * (d * (a - b));
    CancelInvertible(p, d, i, d * (a - b));
    CancelInvertible(p, d, i, a - b);
    CanonicalIsUnique(p, a, b);
  }

  lemma OrdinateDifference(m: int, d: int, y: int, a: int, b: int)
    ensures m + (a + y) * d - (m + (b + y) * d) == d * (a - b)
  {
  }

  lemma OrdinateIsUnique(p: int, d: int, i: int, m: int, y: int, a: int, b: int)
    requires p > 0 && Divides(p, i * d - 1) && 0 <= a < p && 0 <= b < p
    requires Divides(p, m + (a + y) * d) && Divides(p, m + (b + y) * d)
    ensures a == b
  {
    DividesSum(p, m + (a + y) * d, m + (b + y) * d);
    OrdinateDifference(m, d, y, a, b);
    CancelInvertible(p, d, i, a - b);
    CanonicalIsUnique(p, a, b);
  }

  /** Those equations have one canonical solution, so they say all there is to say about the sum. */
  lemma ReflectedThirdPointIsUnique(p: int, n: int, d: int, x1: int, y1: int, x2: int, a: Point, b: Point)
    requires IsPrime(p) && !Divides(p, d)
    requires IsReflectedThirdPoint(p, n, d, x1, y1, x2, a) && IsReflectedThirdPoint(p, n, d, x1, y1, x2, b)
    ensures a == b
  {
    var i := Inverse(d, p);
    InverseIsInverse(d, p);
    AbscissaIsUnique(p, d, i, x1 + x2, n * n, a.x, b.x);
    OrdinateIsUnique(p, d, i, n * (a.x - x1), y1, a.y, b.y);
  }

  /** Addition is commutative. */
  lemma AddCommutes(p: int, p1: Point, p2: Point)
    requires IsPrime(p) && OnCurve(p, p1) && OnCurve(p, p2)
    ensures PointAdd(p, p1, p2) == PointAdd(p, p2, p1)
  {
    if p1.Affine? && p2.Affine? && p1.x != p2.x {
      var n, d := p2.y - p1.y, p2.x - p1.x;
      var sum := PointAdd(p, p2, p1);
      AddIsReflectedThirdPoint(p, p1, p2);
      AddIsReflectedThirdPoint(p, p2, p1);
      assert (-d) * (-d) == d * d && (-n) * (-n) == n * n;
      ReverseLine(p, n, d, p1.x, p1.y, p2.x, p2.y, sum);
      DistinctCanonical(p, p2.x, p1.x);
      ReflectedThirdPointIsUnique(p, n, d, p1.x, p1.y, p2.x, PointAdd(p, p1, p2), sum);
    }
  }

  lemma ReverseLine(p: int, n: int, d: int, x1: int, y1: int, x2: int, y2: int, sum: Point)
    requires p > 0 && sum.Affine? && n == y2 - y1 && d == x2 - x1
    requires Divides(p, -n * (sum.x - x2) + (sum.y + y2) * -d)
    ensures Divides(p, n * (sum.x - x1) + (sum.y + y1) * d)
  {
    var f := -n * (sum.x - x2) + (sum.y + y2) * -d;
    DividesProduct(p, f, -1);
    assert f * -1 == n * (sum.x - x2) + (sum.y + y2) * d by {
      assert -n * (sum.x - x2) == -(n * (sum.x - x2));
      assert (sum.y + y2) * -d == -((sum.y + y2) * d);
    }
    assert n * (sum.x - x2) == n * (sum.x - x1) - n * d;
    assert (sum.y + y2) * d == (sum.y + y1) * d + n * d;
  }

  /** The generator's base point satisfies the curve equation for the generator's modulus. */
  lemma BasePointOnCurve()
    ensures OnCurve(P, Affine(GX, GY))
  {
  }

  // ----- Scalar multiplication -----

  /** What double-and-add holds in its accumulator when it stops, entered with these variables. */
  function MultiplyLoop(p: int, scalar: int, r: Point, base: Point): Point
    requires p > 0
    decreases scalar
  {
    if scalar <= 0 then r
    else MultiplyLoop(p, scalar / 2, if scalar % 2 == 1 then PointAdd(p, r, base) else r, PointDouble(p, base))
  }

  /** The source throws when the accumulator is still `null`. */
  function Multiply(p: int, k: int, pt: Point): Result<Point>
    requires p > 0
  {
    var r := MultiplyLoop(p, k, Infinity, pt);
    if r.Infinity? then Err("Invalid point multiplication") else Ok(r)
  }

  method PointMultiply(p: int, k: int, pt: Point) returns (product: Result<Point>)
    requires p > 0
    ensures product == Multiply(p, k, pt)
    ensures IsPrime(p) && p > 2 && OnCurve(p, pt) && product.Ok? ==> OnCurve(p, product.value) && product.value.Affine?
  {
    var r := Infinity;
    var base := pt;
    var scalar := k;
    while scalar > 0
      invariant MultiplyLoop(p, scalar, r, base) == MultiplyLoop(p, k, Infinity, pt)
      invariant IsPrime(p) && p > 2 && OnCurve(p, pt) ==> OnCurve(p, r) && OnCurve(p, base)
      decreases scalar
    {
      if IsPrime(p) && p > 2 && OnCurve(p, pt) {
        AddOnCurve(p, r, base);
        DoubleOnCurve(p, base);
      }
      if scalar % 2 == 1 {
        r := PointAdd(p, r, base);
      }
      base := PointDouble(p, base);
      scalar := scalar / 2;
    }
    if r.Infinity? {
      product := Err("Invalid point multiplication");
    } else {
      product := Ok(r);
    }
  }

  /** The k-fold sum of a point. */
  function Times(p: int, k: nat, pt: Point): Point
    requires p > 0
  {
    if k == 0 then Infinity else PointAdd(p, Times(p, k - 1, pt), pt)
  }

  /** Associativity of addition on the curve: the one group law taken as a hypothesis. */
  ghost predicate AdditionIsAssociative(p: int)
    requires p > 0
  {
    forall a, b, c {:trigger PointAdd(p, PointAdd(p, a, b), c)} ::
      OnCurve(p, a) && OnCurve(p, b) && OnCurve(p, c) ==>
        PointAdd(p, PointAdd(p, a, b), c) == PointAdd(p, a, PointAdd(p, b, c))
  }

  lemma Associate(p: int, a: Point, b: Point, c: Point)
    requires p > 0 && AdditionIsAssociative(p) && OnCurve(p, a) && OnCurve(p, b) && OnCurve(p, c)
    ensures PointAdd(p, PointAdd(p, a, b), c) == PointAdd(p, a, PointAdd(p, b, c))
  {
  }

  lemma {:induction false} TimesOnCurve(p: int, k: nat, pt: Point)
    requires IsPrime(p) && p > 2 && OnCurve(p, pt)
    ensures OnCurve(p, Times(p, k, pt))
  {
    if k > 0 {
      TimesOnCurve(p, k - 1, pt);
      AddOnCurve(p, Times(p, k - 1, pt), pt);
    }
  }

  /** A multiple can be peeled from the left as well as from the right. */
  lemma {:induction false} TimesFromLeft(p: int, k: nat, pt: Point)
    requires IsPrime(p) && p > 2 && OnCurve(p, pt) && AdditionIsAssociative(p)
    ensures Times(p, k + 1, pt) == PointAdd(p, pt, Times(p, k, pt))
  {
    if k > 0 {
      TimesFromLeft(p, k - 1, pt);
      TimesOnCurve(p, k - 1, pt);
      Associate(p, pt, Times(p, k - 1, pt), pt);
    } else {
      assert Times(p, 1, pt) == PointAdd(p, Times(p, 0, pt), pt);
    }
  }

  /** Doubling the base halves the scalar. */
  lemma {:induction false} TimesOfDouble(p: int, k: nat, pt: Point)
    requires IsPrime(p) && p > 2 && OnCurve(p, pt) && AdditionIsAssociative(p)
    ensures Times(p, 2 * k, pt) == Times(p, k, PointDouble(p, pt))
  {
    if k > 0 {
      TimesOfDouble(p, k - 1, pt);
      var rest := Times(p, 2 * k - 2, pt);
      TimesOnCurve(p, 2 * k - 2, pt);
      assert Times(p, 2 * k - 1, pt) == PointAdd(p, rest, pt);
      Associate(p, rest, pt, pt);
      assert PointAdd(p, pt, pt) == PointDouble(p, pt);
    }
  }

  /** An odd scalar adds the base once before it is halved. */
  lemma OddStep(p: int, k: nat, r: Point, base: Point)
    requires IsPrime(p) && p > 2 && OnCurve(p, r) && OnCurve(p, base) && AdditionIsAssociative(p)
    ensures PointAdd(p, PointAdd(p, r, base), Times(p, k, base)) == PointAdd(p, r, Times(p, k + 1, base))
  {
    TimesOnCurve(p, k, base);
    TimesFromLeft(p, k, base);
    Associate(p, r, base, Times(p, k, base));
  }

  lemma {:induction false} MultiplyLoopIsTimes(p: int, scalar: nat, r: Point, base: Point)
    requires IsPrime(p) && p > 2 && OnCurve(p, r) && OnCurve(p, base) && AdditionIsAssociative(p)
    ensures MultiplyLoop(p, scalar, r, base) == PointAdd(p, r, Times(p, scalar, base))
  {
    if scalar > 0 {
      var half, double := scalar / 2, PointDouble(p, base);
      DoubleOnCurve(p, base);
      TimesOfDouble(p, half, base);
      if scalar % 2 == 1 {
        AddOnCurve(p, r, base);
        MultiplyLoopIsTimes(p, half, PointAdd(p, r, base), double);
        OddStep(p, 2 * half, r, base);
        assert scalar == 2 * half + 1;
      } else {
        MultiplyLoopIsTimes(p, half, r, double);
        assert scalar == 2 * half;
      }
    }
  }

  /**
   * Double-and-add is repeated addition: it returns the k-fold sum when that is an affine point, and throws
   * exactly when the sum is `null`. A negative scalar is treated as zero.
   */
  lemma MultiplyIsRepeatedAddition(p: int, k: int, pt: Point)
    requires IsPrime(p) && p > 2 && OnCurve(p, pt) && AdditionIsAssociative(p)
    ensures var sum := Times(p, if k > 0 then k else 0, pt);
      Multiply(p, k, pt) == if sum.Infinity? then Err("Invalid point multiplication") else Ok(sum)
  {
    if k > 0 {
      MultiplyLoopIsTimes(p, k, Infinity, pt);
    }
  }
}
