/** Point arithmetic on y^2 = x^3 + a*x + b over the ring of integers modulo m
    (`elliptic_add` and `elliptic_multiply` in lenstra_elliptic_curve.py), and the
    curve set-up arithmetic of `lenstra`. */
module EllipticCurve {
  import opened Arith
  import opened Euclid
  import opened Wrappers

  /** A point: the string 'Point At Infinity' of the source, or a pair (x, y). */
  datatype Point = Infinity | Affine(x: int, y: int)

  /** The source's (success, value, point) triple: success 1 with the point, or
      success -1 with the denominator that could not be inverted. */
  datatype AddResult = Ok(point: Point) | Fail(culprit: int)

  /** The right-hand side x^3 + a*x + b. */
  function Cubic(x: int, a: int, b: int): int {
    x * x * x + a * x + b
  }

  /** The condition the source asserts on each finite operand of `elliptic_add`. */
  predicate OnCurve(p: Point, a: int, b: int, m: int)
    requires m >= 1
  {
    match p
    case Infinity => true
    case Affine(x, y) => (y * y) % m == ((x * x * x) % m + (a * x) % m + b) % m
  }

  /** Both coordinates of a finite point are reduced modulo m. */
  predicate Reduced(p: Point, m: int) {
    p.Affine? ==> 0 <= p.x < m && 0 <= p.y < m
  }

  lemma OnCurveMeaning(x: int, y: int, a: int, b: int, m: int)
    requires m >= 1
    ensures OnCurve(Affine(x, y), a, b, m) <==> Cong(y * y, Cubic(x, a, b), m)
  {
    var s := (x * x * x) % m + (a * x) % m + b;
    ModIsCong(x * x * x, m);
    ModIsCong(a * x, m);
    CongRefl(b, m);
    CongAdd((x * x * x) % m, x * x * x, (a * x) % m, a * x, m);
    CongAdd((x * x * x) % m + (a * x) % m, x * x * x + a * x, b, b, m);
    CongMod(s, Cubic(x, a, b), m);
    CongMod(y * y, Cubic(x, a, b), m);
  }

  // ---------------------------------------------------------------------
  // The algebra behind closure: a line through the curve

  /** With x1 + x2 + x3 == lam^2, the cubic x^3 + a*x + b - (lam*x + mu)^2 minus
      (x - x1)(x - x2)(x - x3) is the linear polynomial r1*x + r0. */
  lemma LineIdentity(x: int, x1: int, x2: int, x3: int, lam: int, mu: int, a: int, b: int)
    requires x1 + x2 + x3 == lam * lam
    ensures Cubic(x, a, b) - (lam * x + mu) * (lam * x + mu)
      == (x - x1) * (x - x2) * (x - x3)
         + (a - 2 * lam * mu - (x1 * x2 + x1 * x3 + x2 * x3)) * x
         + (b - mu * mu + x1 * x2 * x3)
  {
    var e2 := x1 * x2 + x1 * x3 + x2 * x3;
    var e3 := x1 * x2 * x3;
    var r1 := a - 2 * lam * mu - e2;
    ProductExpand(x, x1, x2, x3);
    SquareExpand(x, lam, mu);
    Distribute3(a, 2 * lam * mu, e2, x);
    assert (lam * lam) * (x * x) == (x1 + x2 + x3) * (x * x);
  }

  lemma ProductExpand(x: int, x1: int, x2: int, x3: int)
    ensures (x - x1) * (x - x2) * (x - x3)
      == x * x * x - (x1 + x2 + x3) * (x * x) + (x1 * x2 + x1 * x3 + x2 * x3) * x - x1 * x2 * x3
  {
    var q := x * x - (x1 + x2) * x + x1 * x2;
    assert (x - x1) * (x - x2) == q;
    assert q * (x - x3) == q * x - q * x3;
    assert q * x == x * x * x - (x1 + x2) * (x * x) + (x1 * x2) * x;
    assert q * x3 == x3 * (x * x) - (x1 + x2) * x3 * x + x1 * x2 * x3;
    assert (x1 + x2 + x3) * (x * x) == (x1 + x2) * (x * x) + x3 * (x * x);
    var u, v, w := x1 * x2, x1 * x3, x2 * x3;
    SumTimes(u, v + w, x);
    SumTimes(v, w, x);
    SumTimes(x1, x2, x3);
    assert (u + v + w) * x == u * x + (v + w) * x;
    assert (x1 + x2) * x3 * x == (v + w) * x;
  }

  lemma SumTimes(a: int, b: int, x: int)
    ensures (a + b) * x == a * x + b * x
  {
  }

  lemma SquareExpand(x: int, lam: int, mu: int)
    ensures (lam * x + mu) * (lam * x + mu) == (lam * lam) * (x * x) + 2 * lam * mu * x + mu * mu
  {
  }

  lemma Distribute3(a: int, c: int, e: int, x: int)
    ensures (a - c - e) * x == a * x - c * x - e * x
  {
  }

  /** In the tangent case (x2 == x1) the linear coefficient is the tangent condition. */
  lemma TangentCoefficient(x1: int, x3: int, y1: int, lam: int, a: int)
    requires x3 == lam * lam - 2 * x1
    ensures a - 2 * lam * (y1 - lam * x1) - (x1 * x1 + x1 * x3 + x1 * x3)
      == a + 3 * (x1 * x1) - 2 * lam * y1
  {
    assert x1 * x3 == x1 * (lam * lam) - 2 * (x1 * x1);
    assert 2 * lam * (y1 - lam * x1) == 2 * lam * y1 - 2 * (lam * lam) * x1;
  }

  lemma CongZeroMul(u: int, v: int, m: int)
    requires m >= 1 && Cong(u, 0, m)
    ensures Cong(u * v, 0, m) && Cong(v * u, 0, m)
  {
    CongRefl(v, m);
    CongMul(u, 0, v, v, m);
    CongMul(v, v, u, 0, m);
  }

  /** The linear coefficient r1 of the line identity for the line of slope lam
      through (x1, y1), with third root lam^2 - x1 - x2. */
  function LinearCoefficient(x1: int, x2: int, y1: int, lam: int, a: int): int {
    var x3 := lam * lam - x1 - x2;
    a - 2 * lam * (y1 - lam * x1) - (x1 * x2 + x1 * x3 + x2 * x3)
  }

  /** The constant coefficient r0 of the same identity. */
  function ConstantCoefficient(x1: int, x2: int, y1: int, lam: int, b: int): int {
    var x3 := lam * lam - x1 - x2;
    var mu := y1 - lam * x1;
    b - mu * mu + x1 * x2 * x3
  }

  /** A root x of the line identity on the curve: r1 * x + r0 vanishes there. */
  lemma RootOfLine(x: int, y: int, x1: int, x2: int, y1: int, lam: int, a: int, b: int, m: int)
    requires m >= 1 && (x == x1 || x == x2)
    requires Cong(y * y, Cubic(x, a, b), m) && Cong(lam * x + (y1 - lam * x1), y, m)
    ensures Cong(LinearCoefficient(x1, x2, y1, lam, a) * x + ConstantCoefficient(x1, x2, y1, lam, b), 0, m)
  {
    var x3 := lam * lam - x1 - x2;
    var mu := y1 - lam * x1;
    LineIdentity(x, x1, x2, x3, lam, mu, a, b);
    assert (x - x1) * (x - x2) == 0;
    var l := lam * x + mu;
    CongMul(l, y, l, y, m);
    CongSym(y * y, Cubic(x, a, b), m);
    CongTrans(l * l, y * y, Cubic(x, a, b), m);
    CongRefl(Cubic(x, a, b), m);
    CongAdd(Cubic(x, a, b), Cubic(x, a, b), l * l, Cubic(x, a, b), m);
  }

  /** If r1 vanishes modulo m, the computed third point lies on the curve. */
  lemma ThirdPointOnCurve(x1: int, x2: int, y1: int, lam: int, a: int, b: int, m: int, x3: int, y3: int)
    requires m >= 1
    requires Cong(LinearCoefficient(x1, x2, y1, lam, a), 0, m)
    requires Cong(y1 * y1, Cubic(x1, a, b), m)
    requires Cong(x3, lam * lam - x1 - x2, m) && Cong(y3, lam * (x1 - x3) - y1, m)
    ensures Cong(y3 * y3, Cubic(x3, a, b), m)
  {
    var big := lam * lam - x1 - x2;
    var mu := y1 - lam * x1;
    var r1 := LinearCoefficient(x1, x2, y1, lam, a);
    var r0 := ConstantCoefficient(x1, x2, y1, lam, b);
    CongRefl(y1, m);
    RootOfLine(x1, y1, x1, x2, y1, lam, a, b, m);
    CongZeroMul(r1, x1, m);
    CongAdd(r1 * x1 + r0, 0, r1 * x1, 0, m);
    assert Cong(r0, 0, m);
    LineIdentity(x3, x1, x2, big, lam, mu, a, b);
    ModIsCong(x3, m);
    CongRefl(big, m);
    CongAdd(x3, big, big, big, m);
    CongZeroMul(x3 - big, (x3 - x1) * (x3 - x2), m);
    CongZeroMul(r1, x3, m);
    assert (x3 - x1) * (x3 - x2) * (x3 - big) == ((x3 - x1) * (x3 - x2)) * (x3 - big);
    CongAdd((x3 - x1) * (x3 - x2) * (x3 - big), 0, r1 * x3, 0, m);
    CongAdd((x3 - x1) * (x3 - x2) * (x3 - big) + r1 * x3, 0, r0, 0, m);
    var l := lam * x3 + mu;
    assert lam * (x1 - x3) - y1 == -l;
    CongMul(y3, -l, y3, -l, m);
    assert (-l) * (-l) == l * l;
    CongRefl(l * l, m);
    CongAdd(Cubic(x3, a, b) - l * l, 0, l * l, l * l, m);
    CongSym(Cubic(x3, a, b), l * l, m);
    CongTrans(y3 * y3, l * l, Cubic(x3, a, b), m);
  }

  /** Chord case: r1 vanishes when lam * (x2 - x1) == y2 - y1 and x2 - x1 is a unit. */
  lemma ChordCoefficient(x1: int, y1: int, x2: int, y2: int, lam: int, inv: int, a: int, b: int, m: int)
    requires m >= 1
    requires Cong(y1 * y1, Cubic(x1, a, b), m) && Cong(y2 * y2, Cubic(x2, a, b), m)
    requires Cong(lam * (x2 - x1), y2 - y1, m) && Cong((x2 - x1) * inv, 1, m)
    ensures Cong(LinearCoefficient(x1, x2, y1, lam, a), 0, m)
  {
    var r1 := LinearCoefficient(x1, x2, y1, lam, a);
    var r0 := ConstantCoefficient(x1, x2, y1, lam, b);
    CongRefl(y1, m);
    RootOfLine(x1, y1, x1, x2, y1, lam, a, b, m);
    assert lam * x2 + (y1 - lam * x1) == lam * (x2 - x1) + y1;
    CongAdd(lam * (x2 - x1), y2 - y1, y1, y1, m);
    RootOfLine(x2, y2, x1, x2, y1, lam, a, b, m);
    CongAdd(r1 * x2 + r0, 0, r1 * x1 + r0, 0, m);
    assert r1 * x2 + r0 - (r1 * x1 + r0) == r1 * (x2 - x1);
    CongZeroMul(r1 * (x2 - x1), inv, m);
    assert (r1 * (x2 - x1)) * inv == r1 * ((x2 - x1) * inv);
    CongRefl(r1, m);
    CongMul(r1, r1, (x2 - x1) * inv, 1, m);
    CongSym(r1 * ((x2 - x1) * inv), r1, m);
    CongTrans(r1, r1 * ((x2 - x1) * inv), 0, m);
  }

  /** Tangent case: r1 vanishes when lam * 2y1 == 3x1^2 + a. */
  lemma TangentLinearCoefficient(x1: int, y1: int, lam: int, a: int, m: int)
    requires m >= 1 && Cong(lam * (2 * y1), 3 * (x1 * x1) + a, m)
    ensures Cong(LinearCoefficient(x1, x1, y1, lam, a), 0, m)
  {
    TangentCoefficient(x1, lam * lam - x1 - x1, y1, lam, a);
    CongSym(lam * (2 * y1), 3 * (x1 * x1) + a, m);
    assert a + 3 * (x1 * x1) - 2 * lam * y1 == 3 * (x1 * x1) + a - lam * (2 * y1);
    CongMod(3 * (x1 * x1) + a, lam * (2 * y1), m);
  }

  // ---------------------------------------------------------------------
  // elliptic_add

  /** The point the source computes from a slope lam at (x1, y1). */
  function Sum(x1: int, y1: int, x2: int, lam: int, m: int): (r: Point)
    requires m >= 1
    ensures r.Affine? && Reduced(r, m)
    ensures Cong(r.x, lam * lam - x1 - x2, m) && Cong(r.y, lam * (x1 - r.x) - y1, m)
  {
    var x3 := ((lam * lam) % m - x1 - x2) % m;
    var y3 := ((((x1 - x3) % m) * lam) % m - y1) % m;
    SumCongruences(x1, y1, x2, lam, m, x3, y3);
    Affine(x3, y3)
  }

  lemma SumCongruences(x1: int, y1: int, x2: int, lam: int, m: int, x3: int, y3: int)
    requires m >= 1
    requires x3 == ((lam * lam) % m - x1 - x2) % m
    requires y3 == ((((x1 - x3) % m) * lam) % m - y1) % m
    ensures Cong(x3, lam * lam - x1 - x2, m) && Cong(y3, lam * (x1 - x3) - y1, m)
  {
    ModIsCong(lam * lam, m);
    CongRefl(x1 + x2, m);
    CongAdd((lam * lam) % m, lam * lam, x1 + x2, x1 + x2, m);
    ModIsCong((lam * lam) % m - x1 - x2, m);
    CongTrans(x3, (lam * lam) % m - x1 - x2, lam * lam - x1 - x2, m);
    ModIsCong(x1 - x3, m);
    CongRefl(lam, m);
    CongMul((x1 - x3) % m, x1 - x3, lam, lam, m);
    ModIsCong(((x1 - x3) % m) * lam, m);
    CongTrans((((x1 - x3) % m) * lam) % m, ((x1 - x3) % m) * lam, (x1 - x3) * lam, m);
    CongRefl(y1, m);
    CongAdd((((x1 - x3) % m) * lam) % m, (x1 - x3) * lam, y1, y1, m);
    ModIsCong((((x1 - x3) % m) * lam) % m - y1, m);
    CongTrans(y3, (((x1 - x3) % m) * lam) % m - y1, (x1 - x3) * lam - y1, m);
  }

  /** The chord slope ((y2 - y1) % m) * inv % m satisfies lam * (x2 - x1) == y2 - y1. */
  lemma ChordSlope(x1: int, y1: int, x2: int, y2: int, inv: int, m: int)
    requires m >= 1 && (((x2 - x1) % m) * inv) % m == 1 % m
    ensures Cong((x2 - x1) * inv, 1, m)
    ensures Cong(((((y2 - y1) % m) * inv) % m) * (x2 - x1), y2 - y1, m)
  {
    var d := x2 - x1;
    CongMod((d % m) * inv, 1, m);
    ModIsCong(d, m);
    CongRefl(inv, m);
    CongMul(d, d % m, inv, inv, m);
    CongTrans(d * inv, (d % m) * inv, 1, m);
    var num := (y2 - y1) % m;
    SlopeTimesDenominator(num, d, inv, m);
    ModIsCong(y2 - y1, m);
    CongTrans(((num * inv) % m) * d, num, y2 - y1, m);
  }

  /** The tangent slope satisfies lam * 2y1 == 3x1^2 + a. */
  lemma TangentSlope(x1: int, y1: int, a: int, inv: int, m: int)
    requires m >= 1 && (((2 * y1) % m) * inv) % m == 1 % m
    ensures Cong(((((3 * (x1 * x1)) % m) % m + a) % m * inv) % m * (2 * y1), 3 * (x1 * x1) + a, m)
  {
    var d := 2 * y1;
    var num := (((3 * (x1 * x1)) % m) % m + a) % m;
    CongMod((d % m) * inv, 1, m);
    ModIsCong(d, m);
    CongRefl(inv, m);
    CongMul(d, d % m, inv, inv, m);
    CongTrans(d * inv, (d % m) * inv, 1, m);
    SlopeTimesDenominator(num, d, inv, m);
    ModIsCong(3 * (x1 * x1), m);
    ModIsCong((3 * (x1 * x1)) % m, m);
    CongTrans((3 * (x1 * x1)) % m % m, (3 * (x1 * x1)) % m, 3 * (x1 * x1), m);
    CongRefl(a, m);
    CongAdd((3 * (x1 * x1)) % m % m, 3 * (x1 * x1), a, a, m);
    ModIsCong((3 * (x1 * x1)) % m % m + a, m);
    CongTrans(num, (3 * (x1 * x1)) % m % m + a, 3 * (x1 * x1) + a, m);
    CongTrans((num * inv) % m * d, num, 3 * (x1 * x1) + a, m);
  }

  /** ((num * inv) % m) * d == num when d * inv == 1 modulo m. */
  lemma SlopeTimesDenominator(num: int, d: int, inv: int, m: int)
    requires m >= 1 && Cong(d * inv, 1, m)
    ensures Cong(((num * inv) % m) * d, num, m)
  {
    ModIsCong(num * inv, m);
    CongRefl(d, m);
    CongMul((num * inv) % m, num * inv, d, d, m);
    assert (num * inv) * d == num * (d * inv);
    CongRefl(num, m);
    CongMul(num, num, d * inv, 1, m);
    CongTrans(((num * inv) % m) * d, num * (d * inv), num, m);
  }

  /** `elliptic_add(p, q, a, b, m)`. The source asserts that finite operands lie on
      the curve and divides by m, so both are demanded of the caller. */
  function Add(p: Point, q: Point, a: int, b: int, m: int): (r: AddResult)
    requires m >= 1 && OnCurve(p, a, b, m) && OnCurve(q, a, b, m)
    ensures r.Fail? ==> 0 <= r.culprit < m && Gcd(r.culprit, m) != 1
    ensures r.Ok? ==> OnCurve(r.point, a, b, m)
    ensures r.Ok? && Reduced(p, m) && Reduced(q, m) ==> Reduced(r.point, m)
  {
    if p.Infinity? then Ok(q)
    else if q.Infinity? then Ok(p)
    else
      var x1, y1, x2, y2 := p.x, p.y, q.x, q.y;
      OnCurveMeaning(x1, y1, a, b, m);
      OnCurveMeaning(x2, y2, a, b, m);
      if x1 != x2 then
        match ModInverse((x2 - x1) % m, m)
        case None => Fail((x2 - x1) % m)
        case Some(inv) =>
          var lam := (((y2 - y1) % m) * inv) % m;
          ChordSlope(x1, y1, x2, y2, inv, m);
          assert lam * (x2 - x1) == ((((y2 - y1) % m) * inv) % m) * (x2 - x1);
          ChordCoefficient(x1, y1, x2, y2, lam, inv, a, b, m);
          var r := Sum(x1, y1, x2, lam, m);
          ThirdPointOnCurve(x1, x2, y1, lam, a, b, m, r.x, r.y);
          OnCurveMeaning(r.x, r.y, a, b, m);
          Ok(r)
      else if y1 % m == (m - y2) % m then Ok(Infinity)
      else if y1 != 0 then
        match ModInverse((2 * y1) % m, m)
        case None => Fail((2 * y1) % m)
        case Some(inv) =>
          var lam := ((((3 * (x1 * x1)) % m) % m + a) % m * inv) % m;
          TangentSlope(x1, y1, a, inv, m);
          TangentLinearCoefficient(x1, y1, lam, a, m);
          var r := Sum(x1, y1, x2, lam, m);
          ThirdPointOnCurve(x1, x2, y1, lam, a, b, m, r.x, r.y);
          OnCurveMeaning(r.x, r.y, a, b, m);
          Ok(r)
      else Ok(Infinity)
  }

  /** Infinity is a two-sided identity. */
  lemma AddIdentity(p: Point, a: int, b: int, m: int)
    requires m >= 1 && OnCurve(p, a, b, m)
    ensures Add(Infinity, p, a, b, m) == Ok(p) && Add(p, Infinity, a, b, m) == Ok(p)
  {
  }

  /** An addition fails exactly when the denominator of its slope is not a unit,
      and the culprit is that denominator. */
  lemma AddFailure(x1: int, y1: int, x2: int, y2: int, a: int, b: int, m: int)
    requires m >= 1 && OnCurve(Affine(x1, y1), a, b, m) && OnCurve(Affine(x2, y2), a, b, m)
    ensures var r := Add(Affine(x1, y1), Affine(x2, y2), a, b, m);
      r.Fail? <==>
        (x1 != x2 && Gcd((x2 - x1) % m, m) != 1) ||
        (x1 == x2 && y1 % m != (m - y2) % m && y1 != 0 && Gcd((2 * y1) % m, m) != 1)
    ensures var r := Add(Affine(x1, y1), Affine(x2, y2), a, b, m);
      r.Fail? ==> r.culprit == if x1 != x2 then (x2 - x1) % m else (2 * y1) % m
  {
  }

  /** For an odd modulus and reduced operands the culprit lies strictly between 0 and m. */
  lemma CulpritPositive(x1: int, y1: int, x2: int, y2: int, a: int, b: int, m: int)
    requires m >= 1 && m % 2 == 1
    requires OnCurve(Affine(x1, y1), a, b, m) && OnCurve(Affine(x2, y2), a, b, m)
    requires Reduced(Affine(x1, y1), m) && Reduced(Affine(x2, y2), m)
    ensures var r := Add(Affine(x1, y1), Affine(x2, y2), a, b, m);
      r.Fail? ==> 0 < r.culprit < m
  {
    var r := Add(Affine(x1, y1), Affine(x2, y2), a, b, m);
    if r.Fail? {
      if x1 != x2 {
        NonzeroResidue(x2 - x1, m);
      } else {
        NonzeroResidue(2 * y1, m);
      }
    }
  }

  /** A multiple of m strictly between -m and m, or between 0 and 2m other than m, is nonzero modulo m. */
  lemma NonzeroResidue(d: int, m: int)
    requires m >= 1 && d != 0 && -m < d < 2 * m && d != m
    ensures d % m != 0
  {
    if d < 0 {
      DivUnique(d, m, -1, d + m);
    } else if d < m {
      DivUnique(d, m, 0, d);
    } else {
      DivUnique(d, m, 1, d - m);
    }
  }

  /** With an even modulus the culprit can be 0: over Z/8Z, adding (0, 0) to (0, 4)
      on y^2 = x^3 tries to invert 2 * 4 % 8 == 0. */
  lemma EvenModulusZeroCulprit()
    ensures Add(Affine(0, 4), Affine(0, 0), 0, 0, 8) == Fail(0)
  {
    assert Gcd(0, 8) == 8;
  }

  /** Points with equal x that are not negatives of each other are added by the
      tangent at the first one, whatever the second y is. */
  lemma TangentIgnoresSecondY(x1: int, y1: int, y2: int, y2': int, a: int, b: int, m: int)
    requires m >= 1
    requires OnCurve(Affine(x1, y1), a, b, m)
    requires OnCurve(Affine(x1, y2), a, b, m) && OnCurve(Affine(x1, y2'), a, b, m)
    requires y1 % m != (m - y2) % m && y1 % m != (m - y2') % m
    ensures Add(Affine(x1, y1), Affine(x1, y2), a, b, m) == Add(Affine(x1, y1), Affine(x1, y2'), a, b, m)
  {
  }

  /** The two cases that give the point at infinity for finite operands. */
  lemma AddInfinityCases(x1: int, y1: int, y2: int, a: int, b: int, m: int)
    requires m >= 1 && OnCurve(Affine(x1, y1), a, b, m) && OnCurve(Affine(x1, y2), a, b, m)
    requires y1 % m == (m - y2) % m || y1 == 0
    ensures Add(Affine(x1, y1), Affine(x1, y2), a, b, m) == Ok(Infinity)
  {
  }

  /** A unit d cancels from a congruence u * d == v * d. */
  lemma UnitCancel(u: int, v: int, d: int, inv: int, m: int)
    requires m >= 1 && Cong(u * d, v * d, m) && Cong(d * inv, 1, m)
    ensures Cong(u, v, m)
  {
    assert u * d - v * d == (u - v) * d;
    CongZeroMul((u - v) * d, inv, m);
    assert ((u - v) * d) * inv == (u - v) * (d * inv);
    CongRefl(u - v, m);
    CongMul(u - v, u - v, d * inv, 1, m);
    CongSym((u - v) * (d * inv), u - v, m);
    CongTrans(u - v, (u - v) * (d * inv), 0, m);
  }

  lemma CongNegate(u: int, v: int, m: int)
    requires m >= 1 && Cong(u, v, m)
    ensures Cong(-u, -v, m)
  {
    DividesNeg(m, u - v);
  }

  lemma ReducedEqual(u: int, v: int, m: int)
    requires m >= 1 && 0 <= u < m && 0 <= v < m && Cong(u, v, m)
    ensures u == v
  {
    CongMod(u, v, m);
    DivUnique(u, m, 0, u);
    DivUnique(v, m, 0, v);
  }

  /** The reduced slopes of the chord computed from either end agree. */
  lemma ChordSlopesAgree(x1: int, y1: int, x2: int, y2: int, inv: int, inv': int, m: int)
    requires m >= 1
    requires (((x2 - x1) % m) * inv) % m == 1 % m && (((x1 - x2) % m) * inv') % m == 1 % m
    ensures (((y2 - y1) % m) * inv) % m == (((y1 - y2) % m) * inv') % m
  {
    var lam := (((y2 - y1) % m) * inv) % m;
    var lam' := (((y1 - y2) % m) * inv') % m;
    ChordSlope(x1, y1, x2, y2, inv, m);
    ChordSlope(x2, y2, x1, y1, inv', m);
    CongNegate(lam' * (x1 - x2), y1 - y2, m);
    assert -(lam' * (x1 - x2)) == lam' * (x2 - x1);
    CongSym(lam' * (x2 - x1), y2 - y1, m);
    CongTrans(lam * (x2 - x1), y2 - y1, lam' * (x2 - x1), m);
    UnitCancel(lam, lam', x2 - x1, inv, m);
    ReducedEqual(lam, lam', m);
  }

  /** The chord case of `elliptic_add` (distinct x coordinates). */
  lemma AddChordCase(x1: int, y1: int, x2: int, y2: int, a: int, b: int, m: int)
    requires m >= 1 && x1 != x2
    requires OnCurve(Affine(x1, y1), a, b, m) && OnCurve(Affine(x2, y2), a, b, m)
    ensures var r := Add(Affine(x1, y1), Affine(x2, y2), a, b, m);
      var inv := ModInverse((x2 - x1) % m, m);
      (inv.None? ==> r == Fail((x2 - x1) % m)) &&
      (inv.Some? ==> r == Ok(Sum(x1, y1, x2, (((y2 - y1) % m) * inv.value) % m, m)))
  {
  }

  /** Chord addition is commutative, failures included. */
  lemma ChordCommutes(x1: int, y1: int, x2: int, y2: int, a: int, b: int, m: int)
    requires m >= 1 && x1 != x2
    requires OnCurve(Affine(x1, y1), a, b, m) && OnCurve(Affine(x2, y2), a, b, m)
    ensures Add(Affine(x1, y1), Affine(x2, y2), a, b, m).Fail?
      == Add(Affine(x2, y2), Affine(x1, y1), a, b, m).Fail?
    ensures Add(Affine(x1, y1), Affine(x2, y2), a, b, m).Ok? ==>
      Add(Affine(x1, y1), Affine(x2, y2), a, b, m) == Add(Affine(x2, y2), Affine(x1, y1), a, b, m)
  {
    GcdOfMod(x2 - x1, m);
    GcdOfMod(x1 - x2, m);
    assert Gcd(x2 - x1, m) == Gcd(x1 - x2, m);
    AddChordCase(x1, y1, x2, y2, a, b, m);
    AddChordCase(x2, y2, x1, y1, a, b, m);
    var i1, i2 := ModInverse((x2 - x1) % m, m), ModInverse((x1 - x2) % m, m);
    if i1.Some? && i2.Some? {
      ChordSumsAgree(x1, y1, x2, y2, i1.value, i2.value, m);
    }
  }

  /** The chord from either end, with the inverses of either difference, leads
      to the same third point. */
  lemma ChordSumsAgree(x1: int, y1: int, x2: int, y2: int, inv: int, inv': int, m: int)
    requires m >= 1
    requires (((x2 - x1) % m) * inv) % m == 1 % m && (((x1 - x2) % m) * inv') % m == 1 % m
    ensures Sum(x1, y1, x2, (((y2 - y1) % m) * inv) % m, m) == Sum(x2, y2, x1, (((y1 - y2) % m) * inv') % m, m)
  {
    ChordSlopesAgree(x1, y1, x2, y2, inv, inv', m);
    var lam := (((y2 - y1) % m) * inv) % m;
    var r, r' := Sum(x1, y1, x2, lam, m), Sum(x2, y2, x1, lam, m);
    assert r.x == r'.x;
    ChordSlope(x1, y1, x2, y2, inv, m);
    assert Cong(r'.y, lam * (x2 - r.x) - y2, m);
    ChordThirdY(lam, x1, y1, x2, y2, r.x, r.y, r'.y, m);
  }

  /** With lam * (x2 - x1) == y2 - y1, the third point's y coordinate computed
      from either end of the chord is the same reduced value. */
  lemma ChordThirdY(lam: int, x1: int, y1: int, x2: int, y2: int, x3: int, y3: int, y3': int, m: int)
    requires m >= 1 && 0 <= y3 < m && 0 <= y3' < m
    requires Cong(lam * (x2 - x1), y2 - y1, m)
    requires Cong(y3, lam * (x1 - x3) - y1, m) && Cong(y3', lam * (x2 - x3) - y2, m)
    ensures y3 == y3'
  {
    var u, v := lam * (x1 - x3) - y1, lam * (x2 - x3) - y2;
    ChordDifference(lam, x1, y1, x2, y2, x3);
    CongRefl(u, m);
    CongAdd(u, u, lam * (x2 - x1), y2 - y1, m);
    assert Cong(v, u, m);
    CongTrans(y3', v, u, m);
    CongSym(y3, u, m);
    CongTrans(y3', u, y3, m);
    ReducedEqual(y3', y3, m);
  }

  lemma ChordDifference(lam: int, x1: int, y1: int, x2: int, y2: int, x3: int)
    ensures lam * (x2 - x3) - y2 == (lam * (x1 - x3) - y1) + (lam * (x2 - x1) - (y2 - y1))
  {
  }

  /** The test `y1 % m == (m - y2) % m` of `elliptic_add` says y1 == -y2 modulo m,
      so it is symmetric in y1 and y2. */
  lemma OppositeTest(y1: int, y2: int, m: int)
    requires m >= 1
    ensures y1 % m == (m - y2) % m <==> Cong(y1 + y2, 0, m)
  {
    var v := m - y2;
    assert Cong(v, -y2, m) by {
      assert v - (-y2) == m * 1;
      DividesWitness(m, v - (-y2), 1);
    }
    CongMod(v, -y2, m);
    CongMod(y1, -y2, m);
    assert y1 - (-y2) == (y1 + y2) - 0;
  }

  /** On y^2 = x^3 + b, two points (0, y1) and (0, y2) with y2 neither y1 nor
      -y1 modulo m: `elliptic_add` takes the tangent at its first operand, so
      the two orders give (0, -y1) and (0, -y2), which differ. */
  lemma TangentOrderMatters(y1: int, y2: int, b: int, m: int)
    requires m >= 1 && OnCurve(Affine(0, y1), 0, b, m) && OnCurve(Affine(0, y2), 0, b, m)
    requires !Cong(y1, y2, m) && !Cong(y1 + y2, 0, m)
    requires y1 != 0 && y2 != 0 && Gcd(2 * y1, m) == 1 && Gcd(2 * y2, m) == 1
    ensures Add(Affine(0, y1), Affine(0, y2), 0, b, m) == Ok(Affine(0, (-y1) % m))
    ensures Add(Affine(0, y2), Affine(0, y1), 0, b, m) == Ok(Affine(0, (-y2) % m))
    ensures Add(Affine(0, y1), Affine(0, y2), 0, b, m) != Add(Affine(0, y2), Affine(0, y1), 0, b, m)
  {
    OppositeTest(y1, y2, m);
    OppositeTest(y2, y1, m);
    assert y2 + y1 == y1 + y2;
    GcdOfMod(2 * y1, m);
    GcdOfMod(2 * y2, m);
    var i, j := ModInverse((2 * y1) % m, m), ModInverse((2 * y2) % m, m);
    TangentAtZero(y1, y2, b, m, i.value);
    TangentAtZero(y2, y1, b, m, j.value);
    if (-y1) % m == (-y2) % m {
      CongMod(-y1, -y2, m);
      CongNegate(-y1, -y2, m);
      assert false;
    }
  }

  /** An instance over Z/15Z on y^2 = x^3 + 1: (0, 1) + (0, 4) is (0, 14), while
      (0, 4) + (0, 1) is (0, 11). */
  lemma TangentNotCommutative()
    ensures Add(Affine(0, 1), Affine(0, 4), 0, 1, 15) == Ok(Affine(0, 14))
    ensures Add(Affine(0, 4), Affine(0, 1), 0, 1, 15) == Ok(Affine(0, 11))
  {
    assert Gcd(2, 15) == GcdNat(1, 2) == 1;
    assert Gcd(8, 15) == GcdNat(7, 8) == GcdNat(1, 7) == 1;
    TangentOrderMatters(1, 4, 1, 15);
    assert (-1) % 15 == 14 && (-4) % 15 == 11;
  }

  /** On y^2 = x^3 + b the tangent at (0, y1) is horizontal and meets the curve
      again at (0, -y1). */
  lemma TangentAtZero(y1: int, y2: int, b: int, m: int, inv: int)
    requires m >= 1 && OnCurve(Affine(0, y1), 0, b, m) && OnCurve(Affine(0, y2), 0, b, m)
    requires y1 % m != (m - y2) % m && y1 != 0
    requires ModInverse((2 * y1) % m, m) == Some(inv)
    ensures Add(Affine(0, y1), Affine(0, y2), 0, b, m) == Ok(Affine(0, (-y1) % m))
  {
    AddTangentCase(0, y1, y2, 0, b, m);
    HorizontalTangent(inv, m);
    SumAtZero(y1, m);
  }

  /** The tangent slope of `elliptic_add` at x = 0 on a curve with a = 0. */
  lemma HorizontalTangent(inv: int, m: int)
    requires m >= 1
    ensures ((((3 * (0 * 0)) % m) % m + 0) % m * inv) % m == 0
  {
    var z := 3 * (0 * 0);
    assert z % m == 0;
    assert ((z % m) % m + 0) % m == 0;
    assert ((z % m) % m + 0) % m * inv == 0;
  }

  lemma SumAtZero(y1: int, m: int)
    requires m >= 1
    ensures Sum(0, y1, 0, 0, m) == Affine(0, (-y1) % m)
  {
    var x3 := ((0 * 0) % m - 0 - 0) % m;
    assert x3 == 0;
    assert (((0 - x3) % m) * 0) % m == 0;
  }

  /** The tangent case of `elliptic_add` (equal x, not opposite, y1 != 0). */
  lemma AddTangentCase(x1: int, y1: int, y2: int, a: int, b: int, m: int)
    requires m >= 1 && OnCurve(Affine(x1, y1), a, b, m) && OnCurve(Affine(x1, y2), a, b, m)
    requires y1 % m != (m - y2) % m && y1 != 0
    ensures var r := Add(Affine(x1, y1), Affine(x1, y2), a, b, m);
      var inv := ModInverse((2 * y1) % m, m);
      (inv.None? ==> r == Fail((2 * y1) % m)) &&
      (inv.Some? ==> r == Ok(Sum(x1, y1, x1, ((((3 * (x1 * x1)) % m) % m + a) % m * inv.value) % m, m)))
  {
  }

  /** Equal x coordinates whose y coordinates agree, or are opposite, modulo m:
      both orders of `elliptic_add` give the same result. */
  lemma EqualXCommutes(x1: int, y1: int, y2: int, a: int, b: int, m: int)
    requires m >= 1 && OnCurve(Affine(x1, y1), a, b, m) && OnCurve(Affine(x1, y2), a, b, m)
    requires Cong(y1, y2, m) || Cong(y1 + y2, 0, m)
    ensures Add(Affine(x1, y1), Affine(x1, y2), a, b, m) == Add(Affine(x1, y2), Affine(x1, y1), a, b, m)
  {
    OppositeTest(y1, y2, m);
    OppositeTest(y2, y1, m);
    assert y2 + y1 == y1 + y2;
    if !Cong(y1 + y2, 0, m) {
      CongMod(y1, y2, m);
      if y1 == 0 || y2 == 0 {
        assert y1 % m == 0 && y2 % m == 0;
        CongMod(y1 + y2, 0, m);
        CongAdd(y1, 0, y2, 0, m);
        assert false;
      }
      assert (2 * y1) % m == (2 * y2) % m by {
        CongRefl(2, m);
        CongMul(2, 2, y1, y2, m);
        CongMod(2 * y1, 2 * y2, m);
      }
      match ModInverse((2 * y1) % m, m)
      case None =>
      case Some(inv) =>
        var lam := ((((3 * (x1 * x1)) % m) % m + a) % m * inv) % m;
        var p, q := Sum(x1, y1, x1, lam, m), Sum(x1, y2, x1, lam, m);
        var u := (((x1 - p.x) % m) * lam) % m;
        CongRefl(u, m);
        CongAdd(u, u, y1, y2, m);
        CongMod(u - y1, u - y2, m);
    }
  }

  /** Two points of the curve with the same x over a prime modulus have y
      coordinates that agree or are opposite. */
  lemma PrimeSameX(x1: int, y1: int, y2: int, a: int, b: int, m: int)
    requires IsPrime(m) && OnCurve(Affine(x1, y1), a, b, m) && OnCurve(Affine(x1, y2), a, b, m)
    ensures Cong(y1, y2, m) || Cong(y1 + y2, 0, m)
  {
    OnCurveMeaning(x1, y1, a, b, m);
    OnCurveMeaning(x1, y2, a, b, m);
    CongSym(y2 * y2, Cubic(x1, a, b), m);
    CongTrans(y1 * y1, Cubic(x1, a, b), y2 * y2, m);
    assert y1 * y1 - y2 * y2 == (y1 - y2) * (y1 + y2);
    EuclidLemma(m, y1 - y2, y1 + y2);
  }

  /** A failed denominator in [0, p) for a prime p is 0. */
  lemma PrimeCulpritZero(d: int, p: int)
    requires IsPrime(p) && 0 <= d < p && Gcd(d, p) != 1
    ensures d == 0
  {
    GcdBounds(d, p);
    GcdDivides(d, p);
    PrimeDivisors(p, Gcd(d, p));
    if d > 0 {
      DividesLe(p, d);
    }
  }

  /** Over a prime modulus `elliptic_add` is commutative, failures included. */
  lemma AddCommutesPrime(p: Point, q: Point, a: int, b: int, m: int)
    requires IsPrime(m) && OnCurve(p, a, b, m) && OnCurve(q, a, b, m)
    ensures Add(p, q, a, b, m) == Add(q, p, a, b, m)
  {
    if p.Affine? && q.Affine? {
      var x1, y1, x2, y2 := p.x, p.y, q.x, q.y;
      if x1 != x2 {
        ChordCommutes(x1, y1, x2, y2, a, b, m);
        AddFailure(x1, y1, x2, y2, a, b, m);
        AddFailure(x2, y2, x1, y1, a, b, m);
        if Add(p, q, a, b, m).Fail? {
          PrimeCulpritZero((x2 - x1) % m, m);
          PrimeCulpritZero((x1 - x2) % m, m);
        }
      } else {
        PrimeSameX(x1, y1, y2, a, b, m);
        EqualXCommutes(x1, y1, y2, a, b, m);
      }
    }
  }

  // ---------------------------------------------------------------------
  // elliptic_multiply

  /** Double-and-add from the lowest bit of k: add p to acc when the bit is set,
      then double p, stopping at the first failed addition. The doubling is
      attempted on every step, the last one included. */
  function Ladder(p: Point, k: nat, acc: Point, a: int, b: int, m: int): (r: AddResult)
    requires m >= 1 && OnCurve(p, a, b, m) && OnCurve(acc, a, b, m)
    ensures r.Fail? ==> 0 <= r.culprit < m && Gcd(r.culprit, m) != 1
    ensures r.Ok? ==> OnCurve(r.point, a, b, m)
    ensures r.Ok? && Reduced(p, m) && Reduced(acc, m) ==> Reduced(r.point, m)
    decreases k
  {
    if k == 0 then Ok(acc)
    else
      var sum := if k % 2 == 1 then Add(p, acc, a, b, m) else Ok(acc);
      if sum.Fail? then sum
      else
        var doubled := Add(p, p, a, b, m);
        if doubled.Fail? then doubled
        else Ladder(doubled.point, k / 2, sum.point, a, b, m)
  }

  /** `elliptic_multiply(p, k, a, b, m)`. With k == 0 the source reaches its final
      return with `success` unbound, so k >= 1 is demanded. */
  method Multiply(p: Point, k: int, a: int, b: int, m: int) returns (r: AddResult)
    requires m >= 1 && k >= 1 && OnCurve(p, a, b, m)
    ensures r == Ladder(p, k, Infinity, a, b, m)
    ensures r.Fail? ==> 0 <= r.culprit < m && Gcd(r.culprit, m) != 1
    ensures r.Ok? ==> OnCurve(r.point, a, b, m)
  {
    var point, n, result := p, k, Infinity;
    while n > 0
      invariant n >= 0 && OnCurve(point, a, b, m) && OnCurve(result, a, b, m)
      invariant Ladder(point, n, result, a, b, m) == Ladder(p, k, Infinity, a, b, m)
      decreases n
    {
      if n % 2 == 1 {
        var sum := Add(point, result, a, b, m);
        if sum.Fail? {
          return sum;
        }
        result := sum.point;
      }
      n := n / 2;
      var doubled := Add(point, point, a, b, m);
      if doubled.Ok? {
        point := doubled.point;
      } else {
        return doubled;
      }
    }
    r := Ok(result);
  }

  /** Multiplying by 1 returns p itself, unless the doubling that the loop still
      attempts afterwards fails. */
  lemma LadderOne(p: Point, a: int, b: int, m: int)
    requires m >= 1 && OnCurve(p, a, b, m)
    ensures Ladder(p, 1, Infinity, a, b, m)
      == if Add(p, p, a, b, m).Fail? then Add(p, p, a, b, m) else Ok(p)
  {
    AddIdentity(p, a, b, m);
  }

  /** Multiplying the point at infinity gives the accumulator back. */
  lemma {:induction false} LadderOfInfinity(k: nat, acc: Point, a: int, b: int, m: int)
    requires m >= 1 && OnCurve(acc, a, b, m)
    ensures Ladder(Infinity, k, acc, a, b, m) == Ok(acc)
    decreases k
  {
    if k > 0 {
      AddIdentity(acc, a, b, m);
      AddIdentity(Infinity, a, b, m);
      LadderOfInfinity(k / 2, acc, a, b, m);
    }
  }

  /** An even scalar contributes nothing before the first doubling. */
  lemma LadderEven(p: Point, k: nat, acc: Point, a: int, b: int, m: int)
    requires m >= 1 && OnCurve(p, a, b, m) && OnCurve(acc, a, b, m) && k >= 1
    ensures var d := Add(p, p, a, b, m);
      Ladder(p, 2 * k, acc, a, b, m) == if d.Fail? then d else Ladder(d.point, k, acc, a, b, m)
  {
    assert (2 * k) % 2 == 0 && (2 * k) / 2 == k;
  }

  // ---------------------------------------------------------------------
  // The curve set-up inside `lenstra`

  /** `b = ((y0**2)%n - (x0**3)%n - (a*x0)%n)%n`: puts (x0, y0) on the curve. */
  function CurveB(x0: int, y0: int, a: int, n: int): (b: int)
    requires n >= 1
    ensures 0 <= b < n && OnCurve(Affine(x0, y0), a, b, n)
  {
    var b := ((y0 * y0) % n - (x0 * x0 * x0) % n - (a * x0) % n) % n;
    CurveBOnCurve(x0, y0, a, n, b);
    b
  }

  lemma CurveBOnCurve(x0: int, y0: int, a: int, n: int, b: int)
    requires n >= 1 && b == ((y0 * y0) % n - (x0 * x0 * x0) % n - (a * x0) % n) % n
    ensures OnCurve(Affine(x0, y0), a, b, n)
  {
    var c := x0 * x0 * x0;
    ModIsCong(y0 * y0, n);
    ModIsCong(c, n);
    ModIsCong(a * x0, n);
    CongAdd((y0 * y0) % n, y0 * y0, c % n, c, n);
    CongAdd((y0 * y0) % n - c % n, y0 * y0 - c, (a * x0) % n, a * x0, n);
    ModIsCong((y0 * y0) % n - c % n - (a * x0) % n, n);
    CongTrans(b, (y0 * y0) % n - c % n - (a * x0) % n, y0 * y0 - c - a * x0, n);
    CongAdd(b, y0 * y0 - c - a * x0, c + a * x0, c + a * x0, n) by { CongRefl(c + a * x0, n); }
    assert Cubic(x0, a, b) == c + a * x0 + b;
    CongSym(b + (c + a * x0), y0 * y0, n);
    OnCurveMeaning(x0, y0, a, b, n);
  }

  /** The discriminant 4a^3 + 27b^2 of the curve. */
  function Discriminant(a: int, b: int): int {
    4 * (a * a * a) + 27 * (b * b)
  }

  /** The early return of `lenstra` on the discriminant: gcd(d, n) when it is neither
      1 nor n. */
  function DiscriminantFactor(a: int, b: int, n: int): (r: Option<int>)
    requires n >= 1
    ensures r.None? <==> Gcd(Discriminant(a, b), n) == 1 || Gcd(Discriminant(a, b), n) == n
    ensures r.Some? ==> 1 < r.value < n && n % r.value == 0
  {
    var guess := Gcd(Discriminant(a, b), n);
    GcdBounds(Discriminant(a, b), n);
    GcdDivides(Discriminant(a, b), n);
    if guess != 1 && guess != n then
      GcdOfDivisor(guess, n);
      Some(Gcd(guess, n))
    else None
  }

  /** gcd(g, n) == g for a positive divisor g of n. */
  lemma GcdOfDivisor(g: int, n: int)
    requires 1 <= g && n >= 1 && Divides(g, n)
    ensures Gcd(g, n) == g
  {
    GcdDivides(g, n);
    DividesSelf(g);
    GcdGreatest(g, n, g);
    GcdBounds(g, n);
    MutualDivisionEqual(Gcd(g, n), g);
  }

  /** The pre-check of the tangent slope at the seed point: when (2 * y0) % n is not
      a unit, `lenstra` returns gcd((2 * y0) % n, n). */
  function SeedFactor(y0: int, n: int): (r: Option<int>)
    requires n >= 1
    ensures r.None? <==> Gcd(2 * y0, n) == 1
    ensures r.Some? ==> 1 < r.value <= n && n % r.value == 0
  {
    GcdOfMod(2 * y0, n);
    match ModInverse((2 * y0) % n, n)
    case Some(_) => None
    case None =>
      var g := Gcd((2 * y0) % n, n);
      GcdBounds((2 * y0) % n, n);
      GcdDivides((2 * y0) % n, n);
      Some(g)
  }

  /** For an odd n and 0 < y0 < n the seed factor is a proper divisor. */
  lemma SeedFactorProper(y0: int, n: int)
    requires n >= 1 && n % 2 == 1 && 0 < y0 < n
    ensures SeedFactor(y0, n).Some? ==> 1 < SeedFactor(y0, n).value < n
  {
    var d := (2 * y0) % n;
    NonzeroResidue(2 * y0, n);
    GcdDivides(d, n);
    DividesLe(Gcd(d, n), d);
  }
}
