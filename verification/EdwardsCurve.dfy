/** The curve behind the script's point arithmetic: the affine addition law, closure, and completeness, so that every
    point _scalarmult meets has an invertible z. */
module EdwardsCurve {
  import opened ScriptEdwards

  /** The coordinates stand for the affine point (x, y): x is X/Z, y is Y/Z and x*y is T/Z. */
  ghost predicate Denotes(p: int, P: Point, x: int, y: int) {
    Cong(p, P.x, x * P.z) && Cong(p, P.y, y * P.z) && Cong(p, P.t, (x * y) * P.z)
  }

  /** The addition law of the curve: with k = d*x1*x2*y1*y2, the sum's x is (x1*y2 + y1*x2) / (1 + k) and its y is
      (y1*y2 + x1*x2) / (1 - k), and its T is the product of both. */
  lemma AffineLaw(p: int, d: int, P: Point, Q: Point, x1: int, y1: int, x2: int, y2: int)
    requires p > 0 && Denotes(p, P, x1, y1) && Denotes(p, Q, x2, y2)
    ensures
      var S, k := EdwardsAdd(p, d, P, Q), d * (x1 * y1) * (x2 * y2);
      var cross, straight := x1 * y2 + y1 * x2, y1 * y2 + x1 * x2;
      && Cong(p, (1 + k) * S.x, cross * S.z)
      && Cong(p, (1 - k) * S.y, straight * S.z)
      && Cong(p, ((1 + k) * (1 - k)) * S.t, (cross * straight) * S.z)
  {
    hide Cong, EdwardsAdd;
    var S, z, k := EdwardsAdd(p, d, P, Q), P.z * Q.z, d * (x1 * y1) * (x2 * y2);
    var cross, straight := x1 * y2 + y1 * x2, y1 * y2 + x1 * x2;
    AdditionLaw(p, d, P, Q);
    AffineTerms(p, d, P, Q, x1, y1, x2, y2);
    var c, s, n := P.x * Q.y + P.y * Q.x, P.y * Q.y + P.x * Q.x, d * P.t * Q.t;
    CongRefl(p, z);
    CongAdd(p, z, z, n, k * z);
    Scaled(p, S.x, c, z - n, cross * z, z - k * z);
    Scaled(p, S.y, s, z + n, straight * z, z + k * z);
    Scaled(p, S.z, z - n, z + n, z - k * z, z + k * z);
    Scaled(p, S.t, c, s, cross * z, straight * z);
    CongTimes(p, 1 + k, S.x, 4 * ((cross * z) * (z - k * z)));
    CongTimes(p, 1 - k, S.y, 4 * ((straight * z) * (z + k * z)));
    CongTimes(p, (1 + k) * (1 - k), S.t, 4 * ((cross * z) * (straight * z)));
    var want := 4 * ((z - k * z) * (z + k * z));
    CongTimes(p, cross, S.z, want);
    CongTimes(p, straight, S.z, want);
    CongTimes(p, cross * straight, S.z, want);
    AffineIdentities(k, z, cross, straight);
    Meet(p, (1 + k) * S.x, cross * S.z, cross * want);
    Meet(p, (1 - k) * S.y, straight * S.z, straight * want);
    Meet(p, ((1 + k) * (1 - k)) * S.t, (cross * straight) * S.z, (cross * straight) * want);
  }

  lemma Scaled(p: int, s: int, u: int, v: int, u': int, v': int)
    requires Cong(p, s, 4 * (u * v)) && Cong(p, u, u') && Cong(p, v, v')
    ensures Cong(p, s, 4 * (u' * v'))
  {
    CongMul(p, u, u', v, v');
    CongTimes(p, 4, u * v, u' * v');
    CongTrans(p, s, 4 * (u * v), 4 * (u' * v'));
  }

  lemma AffineIdentities(k: int, z: int, u: int, w: int)
    ensures
      var want := 4 * ((z - k * z) * (z + k * z));
      && (1 + k) * (4 * ((u * z) * (z - k * z))) == u * want
      && (1 - k) * (4 * ((w * z) * (z + k * z))) == w * want
      && ((1 + k) * (1 - k)) * (4 * ((u * z) * (w * z))) == (u * w) * want
  {}

  lemma ScaledPair(a: int, z1: int, b: int, z2: int)
    ensures (a * z1) * (b * z2) == (a * b) * (z1 * z2)
  {}

  lemma ScaledTriple(d: int, a: int, z1: int, b: int, z2: int)
    ensures (d * (a * z1)) * (b * z2) == (d * a * b) * (z1 * z2)
  {
    ScaledPair(a, z1, b, z2);
    assert (d * (a * z1)) * (b * z2) == d * ((a * z1) * (b * z2));
    assert d * ((a * b) * (z1 * z2)) == (d * a * b) * (z1 * z2);
  }

  lemma ScaledTerms(d: int, x1: int, y1: int, z1: int, x2: int, y2: int, z2: int)
    ensures (x1 * z1) * (y2 * z2) + (y1 * z1) * (x2 * z2) == (x1 * y2 + y1 * x2) * (z1 * z2)
    ensures (y1 * z1) * (y2 * z2) + (x1 * z1) * (x2 * z2) == (y1 * y2 + x1 * x2) * (z1 * z2)
    ensures (d * ((x1 * y1) * z1)) * ((x2 * y2) * z2) == (d * (x1 * y1) * (x2 * y2)) * (z1 * z2)
  {
    ScaledPair(x1, z1, y2, z2);
    ScaledPair(y1, z1, x2, z2);
    ScaledPair(y1, z1, y2, z2);
    ScaledPair(x1, z1, x2, z2);
    ScaledTriple(d, x1 * y1, z1, x2 * y2, z2);
  }

  lemma AffineTerms(p: int, d: int, P: Point, Q: Point, x1: int, y1: int, x2: int, y2: int)
    requires Denotes(p, P, x1, y1) && Denotes(p, Q, x2, y2)
    ensures
      var z := P.z * Q.z;
      && Cong(p, P.x * Q.y + P.y * Q.x, (x1 * y2 + y1 * x2) * z)
      && Cong(p, P.y * Q.y + P.x * Q.x, (y1 * y2 + x1 * x2) * z)
      && Cong(p, d * P.t * Q.t, (d * (x1 * y1) * (x2 * y2)) * z)
  {
    hide Cong;
    ProductsCong(p, d, P, Q, Point(x1 * P.z, y1 * P.z, P.z, (x1 * y1) * P.z),
                 Point(x2 * Q.z, y2 * Q.z, Q.z, (x2 * y2) * Q.z));
    ScaledTerms(d, x1, y1, P.z, x2, y2, Q.z);
  }

  lemma ProductsCong(p: int, d: int, P: Point, Q: Point, P': Point, Q': Point)
    requires Cong(p, P.x, P'.x) && Cong(p, P.y, P'.y) && Cong(p, P.t, P'.t)
    requires Cong(p, Q.x, Q'.x) && Cong(p, Q.y, Q'.y) && Cong(p, Q.t, Q'.t)
    ensures Cong(p, P.x * Q.y + P.y * Q.x, P'.x * Q'.y + P'.y * Q'.x)
    ensures Cong(p, P.y * Q.y + P.x * Q.x, P'.y * Q'.y + P'.x * Q'.x)
    ensures Cong(p, d * P.t * Q.t, d * P'.t * Q'.t)
  {
    hide Cong;
    CongMul(p, P.x, P'.x, Q.y, Q'.y);
    CongMul(p, P.y, P'.y, Q.x, Q'.x);
    CongMul(p, P.y, P'.y, Q.y, Q'.y);
    CongMul(p, P.x, P'.x, Q.x, Q'.x);
    CongAdd(p, P.x * Q.y, P'.x * Q'.y, P.y * Q.x, P'.y * Q'.x);
    CongAdd(p, P.y * Q.y, P'.y * Q'.y, P.x * Q.x, P'.x * Q'.x);
    CongTimes(p, d, P.t, P'.t);
    CongMul(p, d * P.t, d * P'.t, Q.t, Q'.t);
  }

  /** The point satisfies the curve's equation -X^2 + Y^2 = Z^2 + d*T^2, and X*Y = Z*T. */
  ghost predicate OnCurve(p: int, d: int, P: Point) {
    Extended(p, P) && Cong(p, P.y * P.y - P.x * P.x, P.z * P.z + d * (P.t * P.t))
  }

  lemma CrossIdentities(x1: int, y1: int, x2: int, y2: int)
    ensures
      var e, h := x1 * y2 + y1 * x2, y1 * y2 + x1 * x2;
      && h * h - e * e == (y1 * y1 - x1 * x1) * (y2 * y2 - x2 * x2)
      && h * h + e * e == (y1 * y1 + x1 * x1) * (y2 * y2 + x2 * x2) + 4 * ((x1 * y1) * (x2 * y2))
      && e * h == (x1 * y1) * (y2 * y2 + x2 * x2) + (x2 * y2) * (y1 * y1 + x1 * x1)
  {}

  lemma SplitIdentities(e: int, h: int, m: int, n: int)
    ensures
      var f, g := m - n, m + n;
      && (h * g) * (h * g) - (e * f) * (e * f) == (m * m + n * n) * (h * h - e * e) + 2 * ((m * n) * (h * h + e * e))
      && (f * g) * (f * g) == (m * m - n * n) * (m * m - n * n)
  {}

  lemma FourSquares(a: int, b: int, c: int, d: int)
    ensures (a * c + b * d) * ((a + b) * (c + d)) ==
      (a * c - b * d) * (a * c - b * d) + (a * b) * ((c + d) * (c + d)) + (c * d) * ((a + b) * (a + b))
  {}

  lemma ProductSquared(a: int, b: int)
    ensures (a * b) * (a * b) == (a * a) * (b * b)
  {}

  lemma ScaledProductSquared(d: int, a: int, b: int)
    ensures (d * a * b) * (d * a * b) == (d * (a * a)) * (d * (b * b))
  {}

  lemma ScaledSquare(d: int, z: int, t: int)
    ensures d * ((z * t) * (z * t)) == (z * z) * (d * (t * t))
  {}

  lemma ProductsMeet(d: int, z1: int, t1: int, z2: int, t2: int)
    ensures (z1 * z2) * (d * t1 * t2) == d * ((z1 * t1) * (z2 * t2))
  {}

  lemma Distribute(d: int, a: int, b: int, u: int, v: int, w: int, s: int)
    ensures d * (a * (u + 4 * b) + b * (v + 4 * a) + 2 * (w * s)) ==
      (d * a) * u + (d * b) * v + 8 * (d * (a * b)) + 2 * ((d * w) * s)
  {}

  lemma DistributeTwice(k: int, s: int, w: int)
    ensures 2 * (k * (s + 4 * w)) == 2 * (k * s) + 8 * (k * w)
  {}

  lemma SquaresApart(d: int, a: int, b: int)
    ensures d * ((a * a) * (b * b)) == (d * (a * b)) * (a * b)
  {}

  lemma Assemble(d: int, mm: int, nn: int, mn: int, w: int, w1: int, w2: int, a: int, b: int, a': int, b': int, s: int)
    requires mm == a * a' && nn == b * b' && mn == d * w
    requires d * w1 == a * b && d * w2 == a' * b' && d * (w1 * w2) == mn * w
    ensures (mm + nn) * ((a + b) * (a' + b')) + 2 * (mn * (s + 4 * w)) ==
      (mm - nn) * (mm - nn)
        + d * (w1 * ((a' + b') * (a' + b') + 4 * w2) + w2 * ((a + b) * (a + b) + 4 * w1) + 2 * (w * s))
  {
    FourSquares(a, b, a', b');
    Distribute(d, w1, w2, (a' + b') * (a' + b'), (a + b) * (a + b), w, s);
    DistributeTwice(mn, s, w);
  }

  /** The equation of the sum, once z and t stand for y^2 - x^2 and x*y of each point. */
  lemma SumEquation(d: int, z1: int, t1: int, z2: int, t2: int, s: int)
    ensures
      var m, n := z1 * z2, d * t1 * t2;
      var u1, u2, v1, v2 := z1 * z1 + d * (t1 * t1), z2 * z2 + d * (t2 * t2), z1 * t1, z2 * t2;
      (m * m + n * n) * (u1 * u2) + 2 * ((m * n) * (s + 4 * (v1 * v2))) ==
      (m * m - n * n) * (m * m - n * n)
        + d * ((v1 * v1) * (u2 * u2 + 4 * (v2 * v2)) + (v2 * v2) * (u1 * u1 + 4 * (v1 * v1)) + 2 * ((v1 * v2) * s))
  {
    var m, n, v1, v2 := z1 * z2, d * t1 * t2, z1 * t1, z2 * t2;
    var a, b, a', b' := z1 * z1, d * (t1 * t1), z2 * z2, d * (t2 * t2);
    ProductSquared(z1, z2);
    ScaledProductSquared(d, t1, t2);
    ProductsMeet(d, z1, t1, z2, t2);
    ScaledSquare(d, z1, t1);
    ScaledSquare(d, z2, t2);
    SquaresApart(d, v1, v2);
    Assemble(d, m * m, n * n, m * n, v1 * v2, v1 * v1, v2 * v2, a, b, a', b', s);
  }

  lemma LeftReduces(p: int, q: int, k: int, s: int, c1: int, u1: int, c2: int, u2: int,
                    w1: int, v1: int, w2: int, v2: int)
    requires Cong(p, c1, u1) && Cong(p, c2, u2) && Cong(p, w1, v1) && Cong(p, w2, v2)
    ensures Cong(p, q * (c1 * c2) + 2 * (k * (s + 4 * (w1 * w2))), q * (u1 * u2) + 2 * (k * (s + 4 * (v1 * v2))))
  {
    hide Cong;
    CongMul(p, c1, u1, c2, u2);
    CongTimes(p, q, c1 * c2, u1 * u2);
    CongMul(p, w1, v1, w2, v2);
    CongTimes(p, 4, w1 * w2, v1 * v2);
    CongRefl(p, s);
    CongAdd(p, s, s, 4 * (w1 * w2), 4 * (v1 * v2));
    CongTimes(p, k, s + 4 * (w1 * w2), s + 4 * (v1 * v2));
    CongTimes(p, 2, k * (s + 4 * (w1 * w2)), k * (s + 4 * (v1 * v2)));
    CongAdd(p, q * (c1 * c2), q * (u1 * u2), 2 * (k * (s + 4 * (w1 * w2))), 2 * (k * (s + 4 * (v1 * v2))));
  }

  lemma SquareReduces(p: int, x: int, y: int, u: int, v: int)
    requires Cong(p, y * y - x * x, u) && Cong(p, x * y, v)
    ensures Cong(p, (y * y + x * x) * (y * y + x * x), u * u + 4 * (v * v))
  {
    hide Cong;
    var c, w := y * y - x * x, x * y;
    CongMul(p, c, u, c, u);
    CongMul(p, w, v, w, v);
    CongTimes(p, 4, w * w, v * v);
    CongAdd(p, c * c, u * u, 4 * (w * w), 4 * (v * v));
    assert (y * y + x * x) * (y * y + x * x) == c * c + 4 * (w * w);
  }

  lemma RightReduces(p: int, d: int, r: int, w1: int, v1: int, w2: int, v2: int, s1: int, q1: int, s2: int, q2: int)
    requires Cong(p, w1, v1) && Cong(p, w2, v2) && Cong(p, s1 * s1, q1) && Cong(p, s2 * s2, q2)
    ensures Cong(p, r * r + d * ((w1 * s2 + w2 * s1) * (w1 * s2 + w2 * s1)),
                 r * r + d * ((v1 * v1) * q2 + (v2 * v2) * q1 + 2 * ((v1 * v2) * (s1 * s2))))
  {
    hide Cong;
    CongMul(p, w1, v1, w1, v1);
    CongMul(p, w2, v2, w2, v2);
    CongMul(p, w1, v1, w2, v2);
    CongMul(p, w1 * w1, v1 * v1, s2 * s2, q2);
    CongMul(p, w2 * w2, v2 * v2, s1 * s1, q1);
    CongRefl(p, s1 * s2);
    CongMul(p, w1 * w2, v1 * v2, s1 * s2, s1 * s2);
    CongTimes(p, 2, (w1 * w2) * (s1 * s2), (v1 * v2) * (s1 * s2));
    CongAdd(p, (w1 * w1) * (s2 * s2), (v1 * v1) * q2, (w2 * w2) * (s1 * s1), (v2 * v2) * q1);
    var a, b := (w1 * w1) * (s2 * s2) + (w2 * w2) * (s1 * s1), (v1 * v1) * q2 + (v2 * v2) * q1;
    CongAdd(p, a, b, 2 * ((w1 * w2) * (s1 * s2)), 2 * ((v1 * v2) * (s1 * s2)));
    CongTimes(p, d, a + 2 * ((w1 * w2) * (s1 * s2)), b + 2 * ((v1 * v2) * (s1 * s2)));
    CongRefl(p, r * r);
    CongAdd(p, r * r, r * r, d * (a + 2 * ((w1 * w2) * (s1 * s2))), d * (b + 2 * ((v1 * v2) * (s1 * s2))));
    BinomialSquare(w1, s2, w2, s1);
  }

  lemma BinomialSquare(a: int, b: int, c: int, d: int)
    ensures (a * b + c * d) * (a * b + c * d) == (a * a) * (b * b) + (c * c) * (d * d) + 2 * ((a * c) * (d * b))
  {}

  /** The equation holds of the sum's coordinates before the modulus and the common factor 4. */
  lemma SumOnCurve(p: int, d: int, P: Point, Q: Point)
    requires OnCurve(p, d, P) && OnCurve(p, d, Q)
    ensures
      var m, n, e, h := P.z * Q.z, d * P.t * Q.t, P.x * Q.y + P.y * Q.x, P.y * Q.y + P.x * Q.x;
      var f, g := m - n, m + n;
      Cong(p, (h * g) * (h * g) - (e * f) * (e * f), (f * g) * (f * g) + d * ((e * h) * (e * h)))
  {
    hide Cong;
    var m, n, e, h := P.z * Q.z, d * P.t * Q.t, P.x * Q.y + P.y * Q.x, P.y * Q.y + P.x * Q.x;
    var c1, c2 := P.y * P.y - P.x * P.x, Q.y * Q.y - Q.x * Q.x;
    var s1, s2 := P.y * P.y + P.x * P.x, Q.y * Q.y + Q.x * Q.x;
    var u1, u2 := P.z * P.z + d * (P.t * P.t), Q.z * Q.z + d * (Q.t * Q.t);
    var v1, v2 := P.z * P.t, Q.z * Q.t;
    CrossIdentities(P.x, P.y, Q.x, Q.y);
    SplitIdentities(e, h, m, n);
    LeftReduces(p, m * m + n * n, m * n, s1 * s2, c1, u1, c2, u2, P.x * P.y, v1, Q.x * Q.y, v2);
    SquareReduces(p, P.x, P.y, u1, v1);
    SquareReduces(p, Q.x, Q.y, u2, v2);
    RightReduces(p, d, m * m - n * n, P.x * P.y, v1, Q.x * Q.y, v2, s1, u1 * u1 + 4 * (v1 * v1),
                 s2, u2 * u2 + 4 * (v2 * v2));
    SumEquation(d, P.z, P.t, Q.z, Q.t, s1 * s2);
    var left := (m * m + n * n) * (c1 * c2) + 2 * ((m * n) * (s1 * s2 + 4 * ((P.x * P.y) * (Q.x * Q.y))));
    var right := (m * m - n * n) * (m * m - n * n)
                 + d * (((P.x * P.y) * s2 + (Q.x * Q.y) * s1) * ((P.x * P.y) * s2 + (Q.x * Q.y) * s1));
    var middle := (m * m + n * n) * (u1 * u2) + 2 * ((m * n) * (s1 * s2 + 4 * (v1 * v2)));
    Meet(p, left, right, middle);
  }

  /** The sum of two points of the curve is on the curve. */
  lemma AddStaysOnCurve(p: int, d: int, P: Point, Q: Point)
    requires p > 0 && OnCurve(p, d, P) && OnCurve(p, d, Q)
    ensures OnCurve(p, d, EdwardsAdd(p, d, P, Q))
  {
    hide Cong, EdwardsAdd;
    var S, m, n := EdwardsAdd(p, d, P, Q), P.z * Q.z, d * P.t * Q.t;
    var e, h := P.x * Q.y + P.y * Q.x, P.y * Q.y + P.x * Q.x;
    var f, g := m - n, m + n;
    AddIsExtended(p, d, P, Q);
    AdditionLaw(p, d, P, Q);
    SumOnCurve(p, d, P, Q);
    FourthSquared(p, S.x, e * f);
    FourthSquared(p, S.y, h * g);
    FourthSquared(p, S.z, f * g);
    FourthSquared(p, S.t, e * h);
    CongAdd(p, S.y * S.y, 16 * ((h * g) * (h * g)), S.x * S.x, 16 * ((e * f) * (e * f)));
    CongTimes(p, d, S.t * S.t, 16 * ((e * h) * (e * h)));
    CongAdd(p, S.z * S.z, 16 * ((f * g) * (f * g)), d * (S.t * S.t), d * (16 * ((e * h) * (e * h))));
    var l, r := (h * g) * (h * g) - (e * f) * (e * f), (f * g) * (f * g) + d * ((e * h) * (e * h));
    CongTimes(p, 16, l, r);
    assert d * (16 * ((e * h) * (e * h))) == 16 * (d * ((e * h) * (e * h)));
    CongTrans(p, S.y * S.y - S.x * S.x, 16 * l, 16 * r);
    Meet(p, S.y * S.y - S.x * S.x, S.z * S.z + d * (S.t * S.t), 16 * r);
  }

  lemma FourthSquared(p: int, a: int, u: int)
    requires Cong(p, a, 4 * u)
    ensures Cong(p, a * a, 16 * (u * u))
  {
    CongMul(p, a, 4 * u, a, 4 * u);
    assert (4 * u) * (4 * u) == 16 * (u * u);
  }

  lemma ZeroIsOnCurve(p: int, d: int)
    ensures OnCurve(p, d, ZERO)
  {
    ZeroIsExtended(p);
    CongRefl(p, 1);
  }

  /** So every point _scalarmult holds on its way is on the curve exactly when the one it was given is, and its result
      then is too. */
  lemma ScalarMultStaysOnCurve(p: int, d: int, base: Point, e: nat)
    requires p > 0
    ensures (forall P :: P in Held(AddOn(p, d), ZERO, base, e) ==> OnCurve(p, d, P)) <==> OnCurve(p, d, base)
    ensures OnCurve(p, d, base) ==> OnCurve(p, d, DoubleAndAdd(AddOn(p, d), ZERO, base, e))
  {
    hide OnCurve, EdwardsAdd;
    ZeroIsOnCurve(p, d);
    if OnCurve(p, d, base) {
      forall A, B | OnCurve(p, d, A) && OnCurve(p, d, B) ensures OnCurve(p, d, EdwardsAdd(p, d, A, B)) {
        AddStaysOnCurve(p, d, A, B);
      }
      HeldStay(AddOn(p, d), P => OnCurve(p, d, P), ZERO, base, e);
    }
    ResultIsHeld(AddOn(p, d), ZERO, base, e);
    assert Held(AddOn(p, d), ZERO, base, e)[1] == base;
  }

  /** An affine point of the curve, in the form _decodepoint builds it, is a point of the curve. */
  lemma AffineIsOnCurve(p: int, d: int, x: int, y: int)
    requires p > 0
    ensures OnCurve(p, d, Point(x, y, 1, x * y % p)) <==> Cong(p, y * y - x * x, 1 + d * ((x * y) * (x * y)))
  {
    hide Cong;
    AffineIsExtended(p, x, y);
    var t, w, c := x * y % p, x * y, y * y - x * x;
    CongMod(p, w);
    CongMul(p, t, w, t, w);
    CongTimes(p, d, t * t, w * w);
    CongRefl(p, 1);
    CongAdd(p, 1, 1, d * (t * t), d * (w * w));
    CongSym(p, 1 + d * (t * t), 1 + d * (w * w));
    if Cong(p, c, 1 + d * (t * t)) { CongTrans(p, c, 1 + d * (t * t), 1 + d * (w * w)); }
    if Cong(p, c, 1 + d * (w * w)) { CongTrans(p, c, 1 + d * (w * w), 1 + d * (t * t)); }
  }

  // ---------------------------------------------------------------- completeness

  ghost predicate Root(p: int, r: int, a: int) {
    Cong(p, r * r, a)
  }

  /** The modulus is an odd prime (what is not divisible has an inverse) in which i is a square root of -1 and d has no
      square root; so are the script's _p, _I and _d. */
  ghost predicate Complete(p: int, d: int, i: int) {
    && p > 2 && Unit(p, 2)
    && (forall a: int :: Cong(p, a, 0) || Unit(p, a))
    && Root(p, i, -1)
    && (forall r: int :: !Root(p, r, d))
  }

  lemma UnitTimesZero(p: int, u: int, a: int)
    requires Unit(p, u) && Cong(p, u * a, 0)
    ensures Cong(p, a, 0)
  {
    var r :| Cong(p, u * r, 1);
    CongTimes(p, r, u * a, 0);
    CongRefl(p, a);
    CongMul(p, u * r, 1, a, a);
    assert r * (u * a) == (u * r) * a;
    CongSym(p, (u * r) * a, 1 * a);
    CongTrans(p, a, (u * r) * a, r * 0);
  }

  lemma UnitNotZero(p: int, u: int)
    requires p > 1 && Unit(p, u)
    ensures !Cong(p, u, 0)
  {
    if Cong(p, u, 0) {
      var r :| Cong(p, u * r, 1);
      CongRefl(p, r);
      CongMul(p, u, 0, r, r);
      CongSym(p, u * r, 1);
      CongTrans(p, 1, u * r, 0);
      var k :| 1 == 0 + k * p;
      OneIsNoMultiple(p, k);
    }
  }

  lemma OneIsNoMultiple(p: int, k: int)
    requires p > 1
    ensures k * p != 1
  {
    if k >= 1 { assert k * p >= p; }
  }

  lemma SquareOfQuotient(p: int, d: int, a: int, b: int)
    requires Unit(p, b) && Cong(p, a * a, d * (b * b))
    ensures exists r :: Root(p, r, d)
  {
    var c :| Cong(p, b * c, 1);
    var r := a * c;
    CongRefl(p, c * c);
    CongMul(p, a * a, d * (b * b), c * c, c * c);
    assert (a * c) * (a * c) == (a * a) * (c * c);
    assert (d * (b * b)) * (c * c) == d * ((b * c) * (b * c));
    CongMul(p, b * c, 1, b * c, 1);
    CongTimes(p, d, (b * c) * (b * c), 1 * 1);
    CongTrans(p, r * r, d * ((b * c) * (b * c)), d * (1 * 1));
    assert Root(p, r, d);
  }

  /** On the curve, with j a square root of -1, the square of y + j*x in terms of z and t. */
  lemma SquareOnCurve(p: int, d: int, j: int, P: Point)
    requires OnCurve(p, d, P) && Root(p, j, -1)
    ensures Cong(p, (P.y + j * P.x) * (P.y + j * P.x), P.z * P.z + d * (P.t * P.t) + 2 * (j * (P.z * P.t)))
  {
    hide Cong;
    var c, u := P.y * P.y - P.x * P.x, P.z * P.z + d * (P.t * P.t);
    CongRefl(p, P.x * P.x);
    ComplexSquare(j, P.x, P.y);
    CongRefl(p, -1);
    CongAdd(p, j * j, -1, -1, -1);
    assert j * j - (-1) == j * j + 1;
    CongMul(p, j * j + 1, 0, P.x * P.x, P.x * P.x);
    CongTimes(p, j, P.x * P.y, P.z * P.t);
    CongTimes(p, 2, j * (P.x * P.y), j * (P.z * P.t));
    CongAdd(p, c, u, (j * j + 1) * (P.x * P.x), 0 * (P.x * P.x));
    CongAdd(p, c + (j * j + 1) * (P.x * P.x), u + 0, 2 * (j * (P.x * P.y)), 2 * (j * (P.z * P.t)));
  }

  lemma ComplexSquare(j: int, x: int, y: int)
    ensures (y + j * x) * (y + j * x) == (y * y - x * x) + (j * j + 1) * (x * x) + 2 * (j * (x * y))
  {}

  /** Were d*t1*t2 equal to z1*z2 up to the sign s, d times one square would be another. */
  lemma SquaresMeet(p: int, d: int, j: int, s: int, P: Point, Q: Point)
    requires OnCurve(p, d, P) && OnCurve(p, d, Q) && Root(p, j, -1) && (s == 1 || s == -1)
    requires Cong(p, d * P.t * Q.t, s * (P.z * Q.z))
    ensures
      var a, b := Q.z * (P.y + j * P.x), P.t * (Q.y + (s * j) * Q.x);
      Cong(p, a * a, d * (b * b))
  {
    hide Cong;
    var m, n := P.z * Q.z, d * P.t * Q.t;
    var a, b := Q.z * (P.y + j * P.x), P.t * (Q.y + (s * j) * Q.x);
    assert (s * j) * (s * j) == j * j;
    SquareOnCurve(p, d, j, P);
    SquareOnCurve(p, d, s * j, Q);
    var uP := P.z * P.z + d * (P.t * P.t) + 2 * (j * (P.z * P.t));
    var uQ := Q.z * Q.z + d * (Q.t * Q.t) + 2 * ((s * j) * (Q.z * Q.t));
    ProductSquared(Q.z, P.y + j * P.x);
    ProductSquared(P.t, Q.y + (s * j) * Q.x);
    CongTimes(p, Q.z * Q.z, (P.y + j * P.x) * (P.y + j * P.x), uP);
    CongTimes(p, P.t * P.t, (Q.y + (s * j) * Q.x) * (Q.y + (s * j) * Q.x), uQ);
    CongTimes(p, d, b * b, (P.t * P.t) * uQ);
    var w := (d * (P.t * P.t)) * (Q.z * Q.z);
    var k := 2 * ((s * j) * (P.t * Q.z));
    RightSquare(d, s * j, P.t, Q.z, Q.t);
    CongMul(p, n, s * m, n, s * m);
    CongTimes(p, k, n, s * m);
    CongRefl(p, w);
    CongAdd(p, w, w, n * n, (s * m) * (s * m));
    CongAdd(p, w + n * n, w + (s * m) * (s * m), k * n, k * (s * m));
    CongTrans(p, d * (b * b), w + n * n + k * n, w + (s * m) * (s * m) + k * (s * m));
    LeftSquare(d, j, s, P.z, P.t, Q.z);
    Meet(p, a * a, d * (b * b), (Q.z * Q.z) * uP);
  }

  lemma PullFactor(d: int, j: int, a: int, b: int)
    ensures (2 * (j * a)) * (d * b) == d * (2 * (j * (a * b))) && (d * a) * (d * b) == d * (a * (d * b))
  {}

  lemma PushFactor(d: int, j: int, a: int, b: int)
    ensures d * (a * (2 * (j * b))) == d * (2 * (j * (a * b)))
  {}

  lemma MiddlePair(t1: int, z2: int, t2: int)
    ensures (t1 * z2) * (t1 * t2) == (t1 * t1) * (z2 * t2)
  {}

  lemma SquareTerms(d: int, j: int, t1: int, z2: int, t2: int)
    ensures (d * (t1 * t1)) * (d * (t2 * t2)) == d * ((t1 * t1) * (d * (t2 * t2)))
    ensures (2 * (j * (t1 * z2))) * (d * t1 * t2) == d * ((t1 * t1) * (2 * (j * (z2 * t2))))
  {
    PullFactor(d, j, t1 * t1, t2 * t2);
    PullFactor(d, j, t1 * z2, t1 * t2);
    PushFactor(d, j, t1 * t1, z2 * t2);
    MiddlePair(t1, z2, t2);
    assert d * t1 * t2 == d * (t1 * t2);
  }

  lemma ThreeTerms(d: int, a: int, u: int, v: int, w: int)
    ensures d * (a * (u + v + w)) == (d * a) * u + d * (a * v) + d * (a * w)
  {}

  lemma RightSquare(d: int, j: int, t1: int, z2: int, t2: int)
    ensures
      var n := d * t1 * t2;
      d * ((t1 * t1) * (z2 * z2 + d * (t2 * t2) + 2 * (j * (z2 * t2)))) ==
      (d * (t1 * t1)) * (z2 * z2) + n * n + (2 * (j * (t1 * z2))) * n
  {
    ScaledProductSquared(d, t1, t2);
    SquareTerms(d, j, t1, z2, t2);
    ThreeTerms(d, t1 * t1, z2 * z2, d * (t2 * t2), 2 * (j * (z2 * t2)));
  }

  lemma LeftSquare(d: int, j: int, s: int, z1: int, t1: int, z2: int)
    requires s == 1 || s == -1
    ensures
      var m := z1 * z2;
      (z2 * z2) * (z1 * z1 + d * (t1 * t1) + 2 * (j * (z1 * t1))) ==
      (d * (t1 * t1)) * (z2 * z2) + (s * m) * (s * m) + (2 * ((s * j) * (t1 * z2))) * (s * m)
  {}

  /** The sum's z cannot vanish: d would be a square. */
  lemma NoVanishing(p: int, d: int, i: int, s: int, P: Point, Q: Point)
    requires Complete(p, d, i) && (s == 1 || s == -1)
    requires OnCurve(p, d, P) && OnCurve(p, d, Q) && Unit(p, P.z) && Unit(p, Q.z)
    ensures !Cong(p, d * P.t * Q.t, s * (P.z * Q.z))
  {
    var m, n := P.z * Q.z, d * P.t * Q.t;
    if Cong(p, n, s * m) {
      ProductNotZero(p, s, m, n, P.z, Q.z);
      FactorsNotZero(p, d, P.t, Q.t);
      VanishingFactor(p, d, i, i, s, P, Q);
      assert (-i) * (-i) == i * i;
      VanishingFactor(p, d, i, -i, s, P, Q);
      var u := Q.y + (s * i) * Q.x;
      var v := Q.y + (s * (-i)) * Q.x;
      CongAdd(p, u, 0, v, 0);
      assert s * (-i) == -(s * i) && (-(s * i)) * Q.x == -((s * i) * Q.x);
      assert u + v == 2 * Q.y;
      UnitTimesZero(p, 2, Q.y);
      CongTimes(p, Q.x, Q.y, 0);
      CongSym(p, Q.x * Q.y, Q.z * Q.t);
      CongTrans(p, Q.z * Q.t, Q.x * Q.y, Q.x * 0);
      UnitTimesZero(p, Q.z, Q.t);
    }
  }

  lemma ProductNotZero(p: int, s: int, m: int, n: int, z1: int, z2: int)
    requires p > 1 && Unit(p, z1) && Unit(p, z2) && m == z1 * z2 && (s == 1 || s == -1) && Cong(p, n, s * m)
    ensures !Cong(p, n, 0)
  {
    if Cong(p, n, 0) {
      UnitProduct(p, z1, z2);
      CongSym(p, n, s * m);
      CongTrans(p, s * m, n, 0);
      CongTimes(p, s, s * m, 0);
      assert s * (s * m) == m;
      UnitNotZero(p, m);
    }
  }

  lemma FactorsNotZero(p: int, d: int, t1: int, t2: int)
    requires !Cong(p, d * t1 * t2, 0)
    ensures !Cong(p, t1, 0) && !Cong(p, t2, 0)
  {
    if Cong(p, t1, 0) {
      assert (d * t2) * t1 == d * t1 * t2;
      CongTimes(p, d * t2, t1, 0);
    }
    if Cong(p, t2, 0) { CongTimes(p, d * t1, t2, 0); }
  }

  lemma VanishingFactor(p: int, d: int, i: int, j: int, s: int, P: Point, Q: Point)
    requires Complete(p, d, i) && Root(p, j, -1) && (s == 1 || s == -1) && OnCurve(p, d, P) && OnCurve(p, d, Q)
    requires Cong(p, d * P.t * Q.t, s * (P.z * Q.z)) && !Cong(p, P.t, 0)
    ensures Cong(p, Q.y + (s * j) * Q.x, 0)
  {
    var a, b := Q.z * (P.y + j * P.x), P.t * (Q.y + (s * j) * Q.x);
    SquaresMeet(p, d, j, s, P, Q);
    if Unit(p, b) {
      SquareOfQuotient(p, d, a, b);
    } else {
      UnitTimesZero(p, P.t, Q.y + (s * j) * Q.x);
    }
  }

  /** The addition is complete: of any two points of the curve with invertible z, the sum has an invertible z. */
  lemma AddIsComplete(p: int, d: int, i: int, P: Point, Q: Point)
    requires Complete(p, d, i)
    requires OnCurve(p, d, P) && OnCurve(p, d, Q) && Unit(p, P.z) && Unit(p, Q.z)
    ensures Unit(p, EdwardsAdd(p, d, P, Q).z)
  {
    var z, m, n := EdwardsAdd(p, d, P, Q).z, P.z * Q.z, d * P.t * Q.t;
    AdditionLaw(p, d, P, Q);
    if Cong(p, z, 0) {
      UnitProduct(p, 2, 2);
      CongSym(p, z, 4 * ((m - n) * (m + n)));
      CongTrans(p, 4 * ((m - n) * (m + n)), z, 0);
      UnitTimesZero(p, 4, (m - n) * (m + n));
      CongRefl(p, n);
      CongRefl(p, m);
      if Unit(p, m - n) {
        UnitTimesZero(p, m - n, m + n);
        CongAdd(p, m + n, 0, m, m);
        NoVanishing(p, d, i, -1, P, Q);
      } else {
        CongAdd(p, m, m, m - n, 0);
        NoVanishing(p, d, i, 1, P, Q);
      }
    }
  }

  /** A point of the curve, with an invertible z. */
  ghost predicate CurvePoint(p: int, d: int, P: Point) {
    OnCurve(p, d, P) && Unit(p, P.z)
  }

  lemma CurvePointsAdd(p: int, d: int, i: int, P: Point, Q: Point)
    requires Complete(p, d, i) && CurvePoint(p, d, P) && CurvePoint(p, d, Q)
    ensures CurvePoint(p, d, EdwardsAdd(p, d, P, Q))
  {
    hide EdwardsAdd;
    AddStaysOnCurve(p, d, P, Q);
    AddIsComplete(p, d, i, P, Q);
  }

  lemma ZeroIsCurvePoint(p: int, d: int)
    ensures CurvePoint(p, d, ZERO)
  {
    ZeroIsOnCurve(p, d);
    CongRefl(p, 1);
    assert Cong(p, ZERO.z * 1, 1);
  }

  /** From a point of the curve with invertible z, every point _scalarmult holds on the way is another, so that
      _encodepoint's division by z is one. */
  lemma ScalarMultMeetsNoInfinity(p: int, d: int, i: int, base: Point, e: nat)
    requires Complete(p, d, i)
    ensures (forall P :: P in Held(AddOn(p, d), ZERO, base, e) ==> CurvePoint(p, d, P)) <==> CurvePoint(p, d, base)
    ensures CurvePoint(p, d, base) ==> CurvePoint(p, d, DoubleAndAdd(AddOn(p, d), ZERO, base, e))
  {
    hide CurvePoint, EdwardsAdd, Unit, Root;
    ZeroIsCurvePoint(p, d);
    if CurvePoint(p, d, base) {
      forall A, B | CurvePoint(p, d, A) && CurvePoint(p, d, B) ensures CurvePoint(p, d, EdwardsAdd(p, d, A, B)) {
        CurvePointsAdd(p, d, i, A, B);
      }
      HeldStay(AddOn(p, d), P => CurvePoint(p, d, P), ZERO, base, e);
    }
    ResultIsHeld(AddOn(p, d), ZERO, base, e);
    assert Held(AddOn(p, d), ZERO, base, e)[1] == base;
  }

  /** The affine addition law in full: the point the sum stands for has x = (x1*y2 + y1*x2) / (1 + k) and
      y = (y1*y2 + x1*x2) / (1 - k), with k = d*x1*x2*y1*y2. */
  lemma SumDenotes(p: int, d: int, i: int, P: Point, Q: Point,
                   x1: int, y1: int, x2: int, y2: int, x3: int, y3: int)
    requires Complete(p, d, i) && CurvePoint(p, d, P) && CurvePoint(p, d, Q)
    requires Denotes(p, P, x1, y1) && Denotes(p, Q, x2, y2) && Denotes(p, EdwardsAdd(p, d, P, Q), x3, y3)
    ensures
      var k := d * (x1 * y1) * (x2 * y2);
      Cong(p, (1 + k) * x3, x1 * y2 + y1 * x2) && Cong(p, (1 - k) * y3, y1 * y2 + x1 * x2)
  {
    hide EdwardsAdd, Cong, OnCurve, Unit;
    var S, k := EdwardsAdd(p, d, P, Q), d * (x1 * y1) * (x2 * y2);
    AffineLaw(p, d, P, Q, x1, y1, x2, y2);
    AddIsComplete(p, d, i, P, Q);
    Divided(p, 1 + k, x3, S.z, S.x, x1 * y2 + y1 * x2);
    Divided(p, 1 - k, y3, S.z, S.y, y1 * y2 + x1 * x2);
  }

  lemma Divided(p: int, f: int, x: int, z: int, X: int, u: int)
    requires Unit(p, z) && Cong(p, X, x * z) && Cong(p, f * X, u * z)
    ensures Cong(p, f * x, u)
  {
    CongTimes(p, f, X, x * z);
    CongSym(p, f * X, f * (x * z));
    CongTrans(p, f * (x * z), f * X, u * z);
    CongRefl(p, u * z);
    CongAdd(p, f * (x * z), u * z, u * z, u * z);
    assert f * (x * z) - u * z == z * (f * x - u);
    UnitTimesZero(p, z, f * x - u);
    CongRefl(p, u);
    CongAdd(p, f * x - u, 0, u, u);
  }

  lemma SquaresModFive(r: int)
    ensures r * r % 5 == 0 || r * r % 5 == 1 || r * r % 5 == 4
  {
    var q, s := r / 5, r % 5;
    assert r * r == 5 * (5 * (q * q) + 2 * (q * s)) + s * s;
    assert s == 0 || s == 1 || s == 2 || s == 3 || s == 4;
  }

  lemma UnitsModFive(a: int)
    ensures Cong(5, a, 0) || Unit(5, a)
  {
    var q, s := a / 5, a % 5;
    if s == 0 { CongBy(5, a, 0, q); }
    if s == 1 { CongBy(5, a * 1, 1, q); }
    if s == 2 { CongBy(5, a * 3, 1, 3 * q + 1); }
    if s == 3 { CongBy(5, a * 2, 1, 2 * q + 1); }
    if s == 4 { CongBy(5, a * 4, 1, 4 * q + 3); }
  }

  /** There are such curves, with points besides the loop's start. */
  lemma CompleteModFive()
    ensures Complete(5, 2, 2)
    ensures CurvePoint(5, 2, ZERO) && CurvePoint(5, 2, Point(2, 0, 1, 0))
  {
    ZeroIsCurvePoint(5, 2);
    CongRefl(5, 0);
    CongBy(5, -4, 1, -1);
    CongBy(5, 1 * 1, 1, 0);
    forall a: int ensures Cong(5, a, 0) || Unit(5, a) { UnitsModFive(a); }
    CongBy(5, 2 * 3, 1, 1);
    CongBy(5, 2 * 2, -1, 1);
    forall r: int ensures !Root(5, r, 2) {
      if Root(5, r, 2) {
        SquaresModFive(r);
        var k :| r * r == 2 + k * 5;
        assert false;
      }
    }
  }
}
