/** Associativity of the script's point addition on the curve, and with it that _scalarmult is the e-fold sum. */
module EdwardsGroup {
  import opened ScriptEdwards
  import opened EdwardsCurve

  // ---------------------------------------------------------------- two points

  /** What two points contribute: e, f, g, h are those of their sum up to a factor 2, and k, l the same with a sign
      changed. */
  function E(P: Point, Q: Point): int { P.x * Q.y + P.y * Q.x }
  function H(P: Point, Q: Point): int { P.y * Q.y + P.x * Q.x }
  function K(P: Point, Q: Point): int { P.x * Q.x - P.y * Q.y }
  function L(P: Point, Q: Point): int { P.y * Q.x - P.x * Q.y }
  function F(d: int, P: Point, Q: Point): int { P.z * Q.z - d * P.t * Q.t }
  function G(d: int, P: Point, Q: Point): int { P.z * Q.z + d * P.t * Q.t }
  function S(P: Point): int { P.y * P.y + P.x * P.x }

  lemma ProductsKL(x2: int, y2: int, x3: int, y3: int)
    ensures
      var c2, w2, c3, w3 := y2 * y2 - x2 * x2, x2 * y2, y3 * y3 - x3 * x3, x3 * y3;
      var e, h, k, l := x2 * y3 + y2 * x3, y2 * y3 + x2 * x3, x2 * x3 - y2 * y3, y2 * x3 - x2 * y3;
      k * e == -(c2 * w3 + w2 * c3) && l * h == c2 * w3 - w2 * c3
  {}

  lemma ProductHS(x2: int, y2: int, x3: int, y3: int)
    ensures (y2 * y3 + x2 * x3) * (y3 * y3 + x3 * x3) ==
      -((y3 * y3 - x3 * x3) * (x2 * x3 - y2 * y3)) + 2 * ((x3 * y3) * (x2 * y3 + y2 * x3))
  {}

  lemma ProductES(x2: int, y2: int, x3: int, y3: int)
    ensures (x2 * y3 + y2 * x3) * (y3 * y3 + x3 * x3) ==
      -((y3 * y3 - x3 * x3) * (y2 * x3 - x2 * y3)) + 2 * ((x3 * y3) * (y2 * y3 + x2 * x3))
  {}

  lemma Foil(m: int, n: int, a: int, b: int)
    ensures (m + n) * (a + b) == m * a + m * b + n * a + n * b
    ensures (m - n) * (a - b) == m * a - m * b - n * a + n * b
  {}

  lemma FourProducts(d: int, z2: int, t2: int, z3: int, t3: int)
    ensures (z2 * z3) * (z2 * t3) == (z2 * z2) * (z3 * t3)
    ensures (d * t2 * t3) * (z2 * t3) == (z2 * t2) * (d * (t3 * t3))
  {}

  lemma SumsOfProducts(a: int, q: int, b: int, c: int, v2: int, v3: int, m: int, n: int, r: int, s: int)
    requires m * r == a * v3 && m * s == b * v2 && n * r == v2 * c && n * s == v3 * q
    ensures (a + q) * v3 + v2 * (b + c) == (m + n) * (r + s)
    ensures (a + q) * v3 - v2 * (b + c) == (m - n) * (r - s)
  {
    Foil(m, n, r, s);
  }

  lemma SplitFG(d: int, z2: int, t2: int, z3: int, t3: int)
    ensures
      var u2, v2, u3, v3 := z2 * z2 + d * (t2 * t2), z2 * t2, z3 * z3 + d * (t3 * t3), z3 * t3;
      && u2 * v3 + v2 * u3 == (z2 * z3 + d * t2 * t3) * (z2 * t3 + t2 * z3)
      && u2 * v3 - v2 * u3 == (z2 * z3 - d * t2 * t3) * (z2 * t3 - t2 * z3)
  {
    FourProducts(d, z2, t2, z3, t3);
    FourProducts(d, z3, t3, z2, t2);
    var m, n := z2 * z3, d * t2 * t3;
    assert z3 * z2 == m && d * t3 * t2 == n && z3 * t2 == t2 * z3;
    SumsOfProducts(z2 * z2, d * (t2 * t2), z3 * z3, d * (t3 * t3), z2 * t2, z3 * t3, m, n, z2 * t3, t2 * z3);
  }

  /** On the curve the products of K with E and of L with H depend on z and t only. */
  lemma CurveKL(p: int, d: int, Q: Point, R: Point)
    requires OnCurve(p, d, Q) && OnCurve(p, d, R)
    ensures Cong(p, K(Q, R) * E(Q, R), -(G(d, Q, R) * (Q.z * R.t + Q.t * R.z)))
    ensures Cong(p, L(Q, R) * H(Q, R), F(d, Q, R) * (Q.z * R.t - Q.t * R.z))
  {
    hide Cong;
    var c2, w2, c3, w3 := Q.y * Q.y - Q.x * Q.x, Q.x * Q.y, R.y * R.y - R.x * R.x, R.x * R.y;
    var u2, v2, u3, v3 := Q.z * Q.z + d * (Q.t * Q.t), Q.z * Q.t, R.z * R.z + d * (R.t * R.t), R.z * R.t;
    ProductsKL(Q.x, Q.y, R.x, R.y);
    SplitFG(d, Q.z, Q.t, R.z, R.t);
    CongMul(p, c2, u2, w3, v3);
    CongMul(p, w2, v2, c3, u3);
    CongAdd(p, c2 * w3, u2 * v3, w2 * c3, v2 * u3);
    CongTimes(p, -1, c2 * w3 + w2 * c3, u2 * v3 + v2 * u3);
  }

  /** c and w replaced. */
  lemma Replace(p: int, c: int, u: int, k: int, w: int, v: int, e: int)
    requires Cong(p, c, u) && Cong(p, w, v)
    ensures Cong(p, -(c * k) + 2 * (w * e), -(u * k) + 2 * (v * e))
  {
    hide Cong;
    CongTimes(p, k, c, u);
    CongTimes(p, -1, k * c, k * u);
    CongTimes(p, e, w, v);
    CongTimes(p, 2, e * w, e * v);
    CongAdd(p, -1 * (k * c), -1 * (k * u), 2 * (e * w), 2 * (e * v));
    assert k * c == c * k && k * u == u * k && e * w == w * e && e * v == v * e;
  }

  lemma Symmetric(Q: Point, R: Point)
    ensures E(R, Q) == E(Q, R) && H(R, Q) == H(Q, R) && K(R, Q) == K(Q, R) && L(R, Q) == -L(Q, R)
  {}

  lemma CurveHSecond(p: int, d: int, Q: Point, R: Point)
    requires OnCurve(p, d, R)
    ensures Cong(p, H(Q, R) * S(R),
                 -((R.z * R.z + d * (R.t * R.t)) * K(Q, R)) + 2 * ((R.z * R.t) * E(Q, R)))
  {
    hide Cong;
    ProductHS(Q.x, Q.y, R.x, R.y);
    Replace(p, R.y * R.y - R.x * R.x, R.z * R.z + d * (R.t * R.t), K(Q, R), R.x * R.y, R.z * R.t, E(Q, R));
  }

  lemma CurveESecond(p: int, d: int, Q: Point, R: Point)
    requires OnCurve(p, d, R)
    ensures Cong(p, E(Q, R) * S(R),
                 -((R.z * R.z + d * (R.t * R.t)) * L(Q, R)) + 2 * ((R.z * R.t) * H(Q, R)))
  {
    hide Cong;
    ProductES(Q.x, Q.y, R.x, R.y);
    Replace(p, R.y * R.y - R.x * R.x, R.z * R.z + d * (R.t * R.t), L(Q, R), R.x * R.y, R.z * R.t, H(Q, R));
  }

  lemma CurveHS(p: int, d: int, Q: Point, R: Point)
    requires OnCurve(p, d, Q) && OnCurve(p, d, R)
    ensures
      var e, h, k, l := E(Q, R), H(Q, R), K(Q, R), L(Q, R);
      var u2, v2, u3, v3 := Q.z * Q.z + d * (Q.t * Q.t), Q.z * Q.t, R.z * R.z + d * (R.t * R.t), R.z * R.t;
      && Cong(p, h * S(R), -(u3 * k) + 2 * (v3 * e)) && Cong(p, h * S(Q), -(u2 * k) + 2 * (v2 * e))
      && Cong(p, e * S(R), -(u3 * l) + 2 * (v3 * h)) && Cong(p, e * S(Q), u2 * l + 2 * (v2 * h))
  {
    hide Cong, OnCurve, E, H, K, L, S;
    CurveHSecond(p, d, Q, R);
    CurveHSecond(p, d, R, Q);
    CurveESecond(p, d, Q, R);
    CurveESecond(p, d, R, Q);
    Symmetric(Q, R);
    MinusTimes(Q.z * Q.z + d * (Q.t * Q.t), L(Q, R));
  }

  lemma MinusTimes(u: int, l: int)
    ensures -(u * -l) == u * l
  {}

  /** The product of E and H of two points of the curve. */
  lemma CurveEH(p: int, d: int, Q: Point, R: Point)
    requires OnCurve(p, d, Q) && OnCurve(p, d, R)
    ensures Cong(p, E(Q, R) * H(Q, R), (Q.z * Q.t) * S(R) + (R.z * R.t) * S(Q))
  {
    hide Cong;
    CrossIdentities(Q.x, Q.y, R.x, R.y);
    CongRefl(p, S(R));
    CongRefl(p, S(Q));
    CongMul(p, Q.x * Q.y, Q.z * Q.t, S(R), S(R));
    CongMul(p, R.x * R.y, R.z * R.t, S(Q), S(Q));
    CongAdd(p, (Q.x * Q.y) * S(R), (Q.z * Q.t) * S(R), (R.x * R.y) * S(Q), (R.z * R.t) * S(Q));
  }

  // ---------------------------------------------------------------- the mixed coefficients

  lemma ProductOfFG(d: int, z2: int, t2: int, z3: int, t3: int)
    ensures (z2 * z3 - d * t2 * t3) * (z2 * z3 + d * t2 * t3) ==
      (z2 * z2) * (z3 * z3) - (d * (t2 * t2)) * (d * (t3 * t3))
  {
    var m, n := z2 * z3, d * t2 * t3;
    assert (m - n) * (m + n) == m * m - n * n;
    ProductSquared(z2, z3);
    ScaledProductSquared(d, t2, t3);
  }

  lemma Cancelled(k: int, fg: int, a: int, b: int, c: int, e: int)
    requires fg == a * b - e * c
    ensures k * fg - a * ((b + c) * k) + c * ((a + e) * k) == 0
  {
    assert a * ((b + c) * k) == (a * b) * k + (a * c) * k;
    assert c * ((a + e) * k) == (a * c) * k + (e * c) * k;
    assert k * (a * b - e * c) == (a * b) * k - (e * c) * k;
  }

  lemma CommonFactor(s: int, m: int, n: int, r: int, b: int)
    ensures (m * r) * b - s * ((n * r) * b) == r * (b * (m - s * n))
  {
    assert b * (m - s * n) == b * m - s * (b * n);
    assert r * (b * m) == (m * r) * b && r * (s * (b * n)) == s * ((n * r) * b);
  }

  lemma Remaining(d: int, s: int, z2: int, t2: int, z3: int, t3: int, b: int)
    ensures ((z2 * z2) * (z3 * t3)) * b - s * (((d * (t3 * t3)) * (z2 * t2)) * b) ==
      (z2 * t3) * (b * (z2 * z3 - s * (d * t2 * t3)))
  {
    FourProducts(d, z2, t2, z3, t3);
    CommonFactor(s, z2 * z3, d * t2 * t3, z2 * t3, b);
  }

  lemma MixedTerms(s: int, a: int, c: int, u2: int, u3: int, v2: int, v3: int, k: int, b: int)
    requires s * s == 1
    ensures a * (-(u3 * k) + 2 * (v3 * b)) - s * (c * (-s * (u2 * k) + 2 * (v2 * b))) ==
      -(a * (u3 * k)) + c * (u2 * k) + 2 * ((a * v3) * b - s * ((c * v2) * b))
  {
    assert c * (-s * (u2 * k) + 2 * (v2 * b)) == -s * (c * (u2 * k)) + 2 * ((c * v2) * b);
    assert s * (-s * (c * (u2 * k))) == -(c * (u2 * k));
  }

  lemma MixedIdentity(d: int, s: int, z2: int, t2: int, z3: int, t3: int, k: int, b: int)
    requires s * s == 1
    ensures
      var m, n := z2 * z3, d * t2 * t3;
      var u2, v2, u3, v3 := z2 * z2 + d * (t2 * t2), z2 * t2, z3 * z3 + d * (t3 * t3), z3 * t3;
      k * ((m - n) * (m + n)) + (z2 * z2) * (-(u3 * k) + 2 * (v3 * b))
        - s * ((d * (t3 * t3)) * (-s * (u2 * k) + 2 * (v2 * b))) ==
      2 * ((z2 * t3) * (b * (m - s * n)))
  {
    var m, n := z2 * z3, d * t2 * t3;
    var u2, u3 := z2 * z2 + d * (t2 * t2), z3 * z3 + d * (t3 * t3);
    ProductOfFG(d, z2, t2, z3, t3);
    Cancelled(k, (m - n) * (m + n), z2 * z2, z3 * z3, d * (t3 * t3), d * (t2 * t2));
    MixedTerms(s, z2 * z2, d * (t3 * t3), u2, u3, z2 * t2, z3 * t3, k, b);
    Remaining(d, s, z2, t2, z3, t3, b);
  }

  lemma MixedLeft(z2: int, t2: int, z3: int, t3: int, a: int, s2: int, s3: int)
    ensures z2 * (a * ((z2 * t2) * s3 + (z3 * t3) * s2)) == t2 * ((z2 * z2) * (a * s3)) + ((z2 * z3) * t3) * (a * s2)
  {}

  lemma MixedRight(d: int, s: int, t2: int, t3: int, m: int, a: int, s2: int)
    ensures t3 * (a * ((m + s * (d * t2 * t3)) * s2)) == (m * t3) * (a * s2) + t2 * (s * ((d * (t3 * t3)) * (a * s2)))
  {}

  lemma MixedLeftCong(p: int, z2: int, t2: int, z3: int, t3: int, x: int, a: int, eh: int, s2: int, s3: int, as3: int)
    requires Cong(p, eh, (z2 * t2) * s3 + (z3 * t3) * s2) && Cong(p, a * s3, as3)
    ensures Cong(p, x + z2 * (a * eh), x + (t2 * ((z2 * z2) * as3) + ((z2 * z3) * t3) * (a * s2)))
  {
    hide Cong;
    var same := ((z2 * z3) * t3) * (a * s2);
    CongTimes(p, a, eh, (z2 * t2) * s3 + (z3 * t3) * s2);
    CongTimes(p, z2, a * eh, a * ((z2 * t2) * s3 + (z3 * t3) * s2));
    MixedLeft(z2, t2, z3, t3, a, s2, s3);
    CongTimes(p, z2 * z2, a * s3, as3);
    CongTimes(p, t2, (z2 * z2) * (a * s3), (z2 * z2) * as3);
    CongRefl(p, same);
    CongAdd(p, t2 * ((z2 * z2) * (a * s3)), t2 * ((z2 * z2) * as3), same, same);
    CongTrans(p, z2 * (a * eh), t2 * ((z2 * z2) * (a * s3)) + same, t2 * ((z2 * z2) * as3) + same);
    CongRefl(p, x);
    CongAdd(p, x, x, z2 * (a * eh), t2 * ((z2 * z2) * as3) + same);
  }

  lemma MixedRightCong(p: int, d: int, s: int, t2: int, t3: int, m: int, y: int, a: int, s2: int, as2: int)
    requires Cong(p, a * s2, as2)
    ensures Cong(p, t3 * (y + a * ((m + s * (d * t2 * t3)) * s2)),
                 t3 * y + ((m * t3) * (a * s2) + t2 * (s * ((d * (t3 * t3)) * as2))))
  {
    hide Cong;
    var dd, same := d * (t3 * t3), (m * t3) * (a * s2);
    CongTimes(p, dd, a * s2, as2);
    CongTimes(p, s, dd * (a * s2), dd * as2);
    CongTimes(p, t2, s * (dd * (a * s2)), s * (dd * as2));
    CongRefl(p, same);
    CongAdd(p, same, same, t2 * (s * (dd * (a * s2))), t2 * (s * (dd * as2)));
    MixedRight(d, s, t2, t3, m, a, s2);
    CongRefl(p, t3 * y);
    CongAdd(p, t3 * y, t3 * y, same + t2 * (s * (dd * (a * s2))), same + t2 * (s * (dd * as2)));
    Apart(t3, y, a * ((m + s * (d * t2 * t3)) * s2));
  }

  lemma Apart(q: int, a: int, b: int)
    ensures q * (a + b) == q * a + q * b
  {}

  /** Once E*H, a*S(R) and a*S(Q) are what they are on the curve, with a and b standing for H and E (s = 1) or for E
      and H (s = -1), and f and g for F and G or for G and F. */
  lemma MixedCoefficient(p: int, d: int, s: int, z2: int, t2: int, z3: int, t3: int, k: int, a: int, b: int,
                         eh: int, s2: int, s3: int, fg: int, f: int, g: int)
    requires s * s == 1 && Cong(p, eh, (z2 * t2) * s3 + (z3 * t3) * s2)
    requires Cong(p, a * s3, -((z3 * z3 + d * (t3 * t3)) * k) + 2 * ((z3 * t3) * b))
    requires Cong(p, a * s2, -s * ((z2 * z2 + d * (t2 * t2)) * k) + 2 * ((z2 * t2) * b))
    requires fg == (z2 * z3 - d * t2 * t3) * (z2 * z3 + d * t2 * t3)
    requires f == z2 * z3 - s * (d * t2 * t3) && g == z2 * z3 + s * (d * t2 * t3)
    ensures Cong(p, t2 * (k * fg) + z2 * (a * eh), t3 * (2 * ((z2 * t2) * (b * f)) + a * (g * s2)))
  {
    hide Cong;
    var m, n := z2 * z3, d * t2 * t3;
    var x, y := k * fg, 2 * ((z2 * t2) * (b * f));
    var as3 := -((z3 * z3 + d * (t3 * t3)) * k) + 2 * ((z3 * t3) * b);
    var as2 := -s * ((z2 * z2 + d * (t2 * t2)) * k) + 2 * ((z2 * t2) * b);
    MixedLeftCong(p, z2, t2, z3, t3, t2 * x, a, eh, s2, s3, as3);
    MixedRightCong(p, d, s, t2, t3, m, y, a, s2, as2);
    MixedIdentity(d, s, z2, t2, z3, t3, k, b);
    MixedMeet(t2, t3, z2, x, (z2 * z2) * as3, s * ((d * (t3 * t3)) * as2), b * f);
    Meet(p, t2 * x + z2 * (a * eh), t3 * (y + a * (g * s2)), t2 * x + (t2 * ((z2 * z2) * as3) + (m * t3) * (a * s2)));
  }

  lemma MixedMeet(t2: int, t3: int, z2: int, x: int, y: int, w: int, bf: int)
    requires x + y - w == 2 * ((z2 * t3) * bf)
    ensures t3 * (2 * ((z2 * t2) * bf)) + t2 * w == t2 * x + t2 * y
  {
    assert t2 * (x + y - w) == t2 * x + t2 * y - t2 * w;
    assert t2 * (2 * ((z2 * t3) * bf)) == t3 * (2 * ((z2 * t2) * bf));
  }

  // ---------------------------------------------------------------- three points

  /** A form in the monomials X*z^2, X*z*t, X*t^2 and the same in Y. */
  function Form(D: int, X: int, Y: int, z: int, t: int, x0: int, y0: int, x1: int, y1: int, x2: int, y2: int): int {
    (z * z) * (X * x0 + Y * y0) + (D * (z * t)) * (X * x1 + Y * y1) + ((D * D) * (t * t)) * (X * x2 + Y * y2)
  }

  lemma FormCong(p: int, D: int, X: int, Y: int, z: int, t: int, x0: int, y0: int,
                 x1: int, x1': int, y1: int, y1': int, x2: int, x2': int, y2: int, y2': int)
    requires Cong(p, x1, x1') && Cong(p, y1, y1') && Cong(p, x2, x2') && Cong(p, y2, y2')
    ensures Cong(p, Form(D, X, Y, z, t, x0, y0, x1, y1, x2, y2), Form(D, X, Y, z, t, x0, y0, x1', y1', x2', y2'))
  {
    hide Cong;
    CongTimes(p, X, x1, x1');
    CongTimes(p, Y, y1, y1');
    CongAdd(p, X * x1, X * x1', Y * y1, Y * y1');
    CongTimes(p, D * (z * t), X * x1 + Y * y1, X * x1' + Y * y1');
    CongTimes(p, X, x2, x2');
    CongTimes(p, Y, y2, y2');
    CongAdd(p, X * x2, X * x2', Y * y2, Y * y2');
    CongTimes(p, (D * D) * (t * t), X * x2 + Y * y2, X * x2' + Y * y2');
    var first := (z * z) * (X * x0 + Y * y0);
    CongRefl(p, first);
    var middle, middle' := (D * (z * t)) * (X * x1 + Y * y1), (D * (z * t)) * (X * x1' + Y * y1');
    CongAdd(p, first, first, middle, middle');
    CongAdd(p, first + middle, first + middle', ((D * D) * (t * t)) * (X * x2 + Y * y2),
            ((D * D) * (t * t)) * (X * x2' + Y * y2'));
  }

  lemma ProductByDegree(z: int, t: int, a: int, b: int, f: int, c: int)
    ensures (z * a + t * b) * (z * f + t * c) == (z * z) * (a * f) + (z * t) * (a * c + b * f) + (t * t) * (b * c)
  {}

  lemma FactorOut(z: int, q: int, X: int, Y: int, h: int, e: int)
    ensures q * ((X * z) * h + (Y * z) * e) == z * (q * (X * h + Y * e))
  {}

  lemma LinearTimes(q: int, X: int, Y: int, h: int, e: int, f: int)
    ensures (q * (X * h + Y * e)) * f == X * (q * (h * f)) + Y * (q * (e * f))
  {}

  lemma LeftMiddle(D: int, X: int, Y: int, w: int, z2: int, t2: int, h: int, e: int, k: int, l: int, fg: int, eh: int)
    ensures
      w * ((z2 * (X * h + Y * e)) * (D * eh) + ((D * t2) * (X * k + Y * l)) * fg) ==
      (D * w) * (X * (t2 * (k * fg) + z2 * (h * eh)) + Y * (t2 * (l * fg) + z2 * (e * eh)))
  {
    LinearTimes(z2, X, Y, h, e, eh);
    LinearTimes(t2, X, Y, k, l, fg);
    Pulled(D, z2 * (X * h + Y * e), eh, t2, X * k + Y * l, fg);
    Apart(X, t2 * (k * fg), z2 * (h * eh));
    Apart(Y, t2 * (l * fg), z2 * (e * eh));
    var sum := X * (t2 * (k * fg) + z2 * (h * eh)) + Y * (t2 * (l * fg) + z2 * (e * eh));
    assert w * (D * sum) == (D * w) * sum;
  }

  lemma Pulled(D: int, a: int, eh: int, t2: int, b: int, fg: int)
    ensures a * (D * eh) + ((D * t2) * b) * fg == D * (a * eh + (t2 * b) * fg)
  {}

  lemma LeftLast(D: int, X: int, Y: int, w: int, t2: int, k: int, l: int, eh: int)
    ensures
      w * (((D * t2) * (X * k + Y * l)) * (D * eh)) == ((D * D) * w) * (X * (t2 * (k * eh)) + Y * (t2 * (l * eh)))
  {
    LinearTimes(t2, X, Y, k, l, eh);
    Squared(D, t2, X * k + Y * l, eh);
    var sum := X * (t2 * (k * eh)) + Y * (t2 * (l * eh));
    assert w * ((D * D) * sum) == ((D * D) * w) * sum;
  }

  lemma Squared(D: int, t2: int, b: int, eh: int)
    ensures ((D * t2) * b) * (D * eh) == (D * D) * ((t2 * b) * eh)
  {}

  lemma EqualProducts(a: int, a': int, b: int, b': int)
    requires a == a' && b == b'
    ensures a * b == a' * b'
  {}

  lemma LeftForm(D: int, X: int, Y: int, z1: int, t1: int, z2: int, t2: int,
                 h: int, e: int, k: int, l: int, fg: int, eh: int)
    ensures
      (z2 * ((X * z1) * h + (Y * z1) * e) + (D * t2) * ((X * t1) * k + (Y * t1) * l)) * (z1 * fg + (D * t1) * eh) ==
      Form(D, X, Y, z1, t1, z2 * (h * fg), z2 * (e * fg), t2 * (k * fg) + z2 * (h * eh), t2 * (l * fg) + z2 * (e * eh),
           t2 * (k * eh), t2 * (l * eh))
  {
    var a, b, c := z2 * (X * h + Y * e), (D * t2) * (X * k + Y * l), D * eh;
    var first := z2 * ((X * z1) * h + (Y * z1) * e) + (D * t2) * ((X * t1) * k + (Y * t1) * l);
    var second := z1 * fg + (D * t1) * eh;
    assert first == z1 * a + t1 * b by {
      FactorOut(z1, z2, X, Y, h, e);
      FactorOut(t1, D * t2, X, Y, k, l);
    }
    assert second == z1 * fg + t1 * c by { Carried(D, eh, t1); }
    EqualProducts(first, z1 * a + t1 * b, second, z1 * fg + t1 * c);
    ProductByDegree(z1, t1, a, b, fg, c);
    LeftParts(D, X, Y, z1, t1, z2, t2, h, e, k, l, fg, eh);
  }

  lemma LeftParts(D: int, X: int, Y: int, z1: int, t1: int, z2: int, t2: int,
                  h: int, e: int, k: int, l: int, fg: int, eh: int)
    ensures
      var a, b, c := z2 * (X * h + Y * e), (D * t2) * (X * k + Y * l), D * eh;
      (z1 * z1) * (a * fg) + (z1 * t1) * (a * c + b * fg) + (t1 * t1) * (b * c) ==
      Form(D, X, Y, z1, t1, z2 * (h * fg), z2 * (e * fg), t2 * (k * fg) + z2 * (h * eh), t2 * (l * fg) + z2 * (e * eh),
           t2 * (k * eh), t2 * (l * eh))
  {
    LinearTimes(z2, X, Y, h, e, fg);
    LeftMiddle(D, X, Y, z1 * t1, z2, t2, h, e, k, l, fg, eh);
    LeftLast(D, X, Y, t1 * t1, t2, k, l, eh);
  }

  lemma Carried(d: int, a: int, t: int)
    ensures d * a * t == (d * t) * a == t * (d * a)
  {}

  lemma ConjugateTerms(s: int, v: int, q: int, X: int, Y: int, ef: int, gh: int)
    ensures
      ef * (2 * (X * v) + s * (Y * q)) + gh * (2 * (Y * v) - s * (X * q)) ==
      2 * (v * (ef * X + gh * Y)) + s * ((ef * Y - gh * X) * q)
  {
    assert ef * (2 * (X * v) + s * (Y * q)) == 2 * (v * (ef * X)) + s * ((ef * Y) * q);
    assert gh * (2 * (Y * v) - s * (X * q)) == 2 * (v * (gh * Y)) - s * ((gh * X) * q);
  }

  lemma ConjugateByDegree(d: int, D: int, s: int, t3: int, v2: int, x: int, zz: int, tt: int)
    requires D == s * d && s * s == 1
    ensures (D * t3) * (v2 * (s * (x * (zz + d * tt)))) == zz * ((d * (t3 * v2)) * x) + tt * (d * ((d * (t3 * v2)) * x))
  {
    var y := x * (zz + d * tt);
    assert (D * t3) * (v2 * (s * y)) == (s * s) * ((d * (t3 * v2)) * y);
    assert (d * (t3 * v2)) * y == zz * ((d * (t3 * v2)) * x) + tt * (d * ((d * (t3 * v2)) * x));
  }

  lemma SquaresByDegree(d: int, a: int, z3: int, zz: int, tt: int, A: int, B: int)
    ensures a * (z3 * (zz * A - (d * tt) * (d * B))) == zz * (a * (z3 * A)) - tt * (d * (a * (z3 * (d * B))))
  {}

  lemma RightFirst(d: int, z2: int, t2: int, z3: int, t3: int, u: int, w: int)
    ensures (u + w) * (z3 * (z2 * z2)) + (d * (t3 * (z2 * t2))) * (u - w) ==
      w * (z2 * (z2 * z3 - d * t2 * t3)) + u * (z2 * (z2 * z3 + d * t2 * t3))
  {
    var a, b := z3 * (z2 * z2), d * (t3 * (z2 * t2));
    assert z2 * (z2 * z3 - d * t2 * t3) == a - b && z2 * (z2 * z3 + d * t2 * t3) == a + b;
    assert (u + w) * a + b * (u - w) == w * (a - b) + u * (a + b);
  }

  lemma LastFactors(z2: int, t2: int, z3: int, t3: int)
    ensures t2 * (z2 * t3 - t2 * z3) == t3 * (z2 * t2) - z3 * (t2 * t2)
    ensures t2 * (z2 * t3 + t2 * z3) == t3 * (z2 * t2) + z3 * (t2 * t2)
  {}

  lemma LastProducts(d: int, a: int, b: int, u: int, w: int)
    ensures d * ((d * a) * (u - w) - (u + w) * (d * b)) == (d * d) * (u * (a - b) - w * (a + b))
  {
    assert (d * a) * (u - w) - (u + w) * (d * b) == d * (u * (a - b) - w * (a + b));
  }

  lemma RightLast(d: int, z2: int, t2: int, z3: int, t3: int, u: int, w: int)
    ensures d * ((d * (t3 * (z2 * t2))) * (u - w) - (u + w) * (z3 * (d * (t2 * t2)))) ==
      (d * d) * (u * (t2 * (z2 * t3 - t2 * z3)) - w * (t2 * (z2 * t3 + t2 * z3)))
  {
    LastFactors(z2, t2, z3, t3);
    LastProducts(d, t3 * (z2 * t2), z3 * (t2 * t2), u, w);
    Past(z3, d, t2 * t2);
  }

  lemma Past(a: int, d: int, b: int)
    ensures a * (d * b) == d * (a * b)
  {}

  lemma MiddlePulled(D: int, t3: int, v1: int, s2: int, a: int, v2: int, b: int)
    ensures (D * t3) * ((v1 * s2) * a + v2 * (2 * (v1 * b))) == (D * v1) * (t3 * (s2 * a + 2 * (v2 * b)))
  {}

  lemma MiddleTerm(X: int, t3: int, v2: int, ef: int, gh: int, s2: int)
    ensures X * (t3 * (2 * (v2 * ef) + gh * s2)) == t3 * (2 * (v2 * (ef * X)) + s2 * (gh * X))
  {}

  lemma RightMiddle(D: int, v1: int, v2: int, t3: int, s2: int, X: int, Y: int, ef: int, gh: int)
    ensures
      (D * t3) * ((v1 * s2) * (ef * Y + gh * X) + v2 * (2 * (v1 * (ef * X + gh * Y)))) ==
      (D * v1) * (X * (t3 * (2 * (v2 * ef) + gh * s2)) + Y * (t3 * (2 * (v2 * gh) + ef * s2)))
  {
    MiddlePulled(D, t3, v1, s2, ef * Y + gh * X, v2, ef * X + gh * Y);
    MiddleTerm(X, t3, v2, ef, gh, s2);
    MiddleTerm(Y, t3, v2, gh, ef, s2);
    Apart(s2, ef * Y, gh * X);
    Apart(v2, ef * X, gh * Y);
    Apart(t3, 2 * (v2 * (ef * X)) + s2 * (gh * X), 2 * (v2 * (gh * Y)) + s2 * (ef * Y));
  }

  lemma SplitRight(k: int, a: int, v: int, b: int, c: int)
    ensures k * (a + v * (b + c)) == k * (a + v * b) + k * (v * c)
  {}

  lemma SumUp(zz: int, tt: int, d: int, a: int, b: int, c: int, first: int, last: int)
    requires a + b == first && d * (b - c) == last
    ensures zz * a - tt * (d * c) + (zz * b + tt * (d * b)) == zz * first + tt * last
  {}

  lemma Turned(X: int, a: int, b: int)
    ensures (a * X) * b == X * (a * b) && X * (-(a * b)) == -(X * (a * b))
  {}

  /** The three degrees of the right-hand side put together. */
  lemma RightSum(d: int, D: int, s: int, z1: int, t1: int, z2: int, t2: int, z3: int, t3: int,
                 u: int, w: int, b: int, s2: int)
    requires D == s * d && s * s == 1
    ensures
      var zz, tt, v1, v2 := z1 * z1, t1 * t1, z1 * t1, z2 * t2;
      (u + w) * (z3 * (zz * (z2 * z2) - (d * tt) * (d * (t2 * t2))))
        + (D * t3) * ((v1 * s2) * (u + w) + v2 * (2 * (v1 * b) + s * ((u - w) * (zz + d * tt)))) ==
      zz * (w * (z2 * (z2 * z3 - d * t2 * t3)) + u * (z2 * (z2 * z3 + d * t2 * t3)))
        + (D * t3) * ((v1 * s2) * (u + w) + v2 * (2 * (v1 * b)))
        + tt * ((d * d) * (u * (t2 * (z2 * t3 - t2 * z3)) - w * (t2 * (z2 * t3 + t2 * z3))))
  {
    var zz, tt, v1, v2 := z1 * z1, t1 * t1, z1 * t1, z2 * t2;
    var first := w * (z2 * (z2 * z3 - d * t2 * t3)) + u * (z2 * (z2 * z3 + d * t2 * t3));
    var last := (d * d) * (u * (t2 * (z2 * t3 - t2 * z3)) - w * (t2 * (z2 * t3 + t2 * z3)));
    SplitRight(D * t3, (v1 * s2) * (u + w), v2, 2 * (v1 * b), s * ((u - w) * (zz + d * tt)));
    ConjugateByDegree(d, D, s, t3, v2, u - w, zz, tt);
    SquaresByDegree(d, u + w, z3, zz, tt, z2 * z2, t2 * t2);
    RightFirst(d, z2, t2, z3, t3, u, w);
    RightLast(d, z2, t2, z3, t3, u, w);
    SumUp(zz, tt, d, (u + w) * (z3 * (z2 * z2)), (d * (t3 * v2)) * (u - w), (u + w) * (z3 * (d * (t2 * t2))),
          first, last);
  }

  lemma FormOf(D: int, dd: int, X: int, Y: int, z: int, t: int, ef: int, gh: int,
               f: int, g: int, mX: int, mY: int, r: int, l: int)
    requires dd == D * D
    ensures
      (z * z) * ((gh * X) * f + (ef * Y) * g) + (D * (z * t)) * (X * mX + Y * mY)
        + (t * t) * (dd * ((ef * Y) * l - (gh * X) * r)) ==
      Form(D, X, Y, z, t, gh * f, ef * g, mX, mY, -(gh * r), ef * l)
  {
    Turned(X, gh, f);
    Turned(Y, ef, g);
    Turned(X, gh, r);
    Turned(Y, ef, l);
    Swapped(t * t, D * D, (ef * Y) * l - (gh * X) * r);
  }

  lemma Swapped(a: int, b: int, c: int)
    ensures a * (b * c) == (b * a) * c
  {}

  lemma RightForm(d: int, D: int, s: int, X: int, Y: int, z1: int, t1: int, z2: int, t2: int, z3: int, t3: int,
                  ef: int, gh: int, s2: int)
    requires D == s * d && s * s == 1
    ensures
      var zz, tt, v1, v2 := z1 * z1, t1 * t1, z1 * t1, z2 * t2;
      var q := zz + d * tt;
      (ef * Y + gh * X) * (z3 * (zz * (z2 * z2) - (d * tt) * (d * (t2 * t2))))
        + (D * t3) * ((v1 * s2) * (ef * Y + gh * X)
                      + v2 * (ef * (2 * (X * v1) + s * (Y * q)) + gh * (2 * (Y * v1) - s * (X * q)))) ==
      Form(D, X, Y, z1, t1, gh * (z2 * (z2 * z3 - d * t2 * t3)), ef * (z2 * (z2 * z3 + d * t2 * t3)),
           t3 * (2 * (v2 * ef) + gh * s2), t3 * (2 * (v2 * gh) + ef * s2),
           -(gh * (t2 * (z2 * t3 + t2 * z3))), ef * (t2 * (z2 * t3 - t2 * z3)))
  {
    hide Form;
    var v1, v2 := z1 * t1, z2 * t2;
    ConjugateTerms(s, v1, z1 * z1 + d * (t1 * t1), X, Y, ef, gh);
    RightSum(d, D, s, z1, t1, z2, t2, z3, t3, ef * Y, gh * X, ef * X + gh * Y, s2);
    RightMiddle(D, v1, v2, t3, s2, X, Y, ef, gh);
    SquareOfSign(s, d);
    FormOf(D, d * d, X, Y, z1, t1, ef, gh, z2 * (z2 * z3 - d * t2 * t3), z2 * (z2 * z3 + d * t2 * t3),
           t3 * (2 * (v2 * ef) + gh * s2), t3 * (2 * (v2 * gh) + ef * s2),
           t2 * (z2 * t3 + t2 * z3), t2 * (z2 * t3 - t2 * z3));
  }

  lemma SquareOfSign(s: int, d: int)
    requires s * s == 1
    ensures (s * d) * (s * d) == d * d
  {
    ProductSquared(s, d);
  }

  lemma TripleLeft(x: int, y: int)
    ensures y * (y * y + x * x) == 2 * (x * (x * y)) + y * (y * y - x * x)
    ensures x * (y * y + x * x) == 2 * (y * (x * y)) - x * (y * y - x * x)
  {}

  /** The coordinates times S, on the curve. */
  lemma CurveXS(p: int, d: int, P: Point)
    requires OnCurve(p, d, P)
    ensures
      var q, v := P.z * P.z + d * (P.t * P.t), P.z * P.t;
      && Cong(p, P.y * S(P), 2 * (P.x * v) + P.y * q)
      && Cong(p, P.x * S(P), 2 * (P.y * v) - P.x * q)
  {
    hide Cong;
    var q, v, c, w := P.z * P.z + d * (P.t * P.t), P.z * P.t, P.y * P.y - P.x * P.x, P.x * P.y;
    TripleLeft(P.x, P.y);
    CongTimes(p, P.x, w, v);
    CongTimes(p, 2, P.x * w, P.x * v);
    CongTimes(p, P.y, c, q);
    CongAdd(p, 2 * (P.x * w), 2 * (P.x * v), P.y * c, P.y * q);
    CongTimes(p, P.y, w, v);
    CongTimes(p, 2, P.y * w, P.y * v);
    CongTimes(p, P.x, c, q);
    CongAdd(p, 2 * (P.y * w), 2 * (P.y * v), P.x * c, P.x * q);
  }

  lemma SpreadSum(a: int, b: int, Y: int, X: int, c: int, v1: int, s2: int, v2: int, s1: int)
    ensures (a * Y + b * X) * (c * (v1 * s2 + v2 * s1)) ==
      c * ((v1 * s2) * (a * Y + b * X) + v2 * (a * (Y * s1) + b * (X * s1)))
  {
    var u := a * Y + b * X;
    assert u * (c * (v1 * s2 + v2 * s1)) == c * ((v1 * s2) * u + v2 * (s1 * u));
    assert s1 * u == a * (Y * s1) + b * (X * s1);
  }

  lemma RightReplaced(p: int, ef: int, gh: int, X: int, Y: int, zM: int, c: int, eh: int,
                      v1: int, s2: int, v2: int, s1: int, ys: int, xs: int)
    requires Cong(p, eh, v1 * s2 + v2 * s1) && Cong(p, Y * s1, ys) && Cong(p, X * s1, xs)
    ensures Cong(p, (ef * Y + gh * X) * (zM + c * eh),
                 (ef * Y + gh * X) * zM + c * ((v1 * s2) * (ef * Y + gh * X) + v2 * (ef * ys + gh * xs)))
  {
    hide Cong;
    var u := ef * Y + gh * X;
    CongTimes(p, c, eh, v1 * s2 + v2 * s1);
    CongTimes(p, u, c * eh, c * (v1 * s2 + v2 * s1));
    SpreadSum(ef, gh, Y, X, c, v1, s2, v2, s1);
    CongTimes(p, ef, Y * s1, ys);
    CongTimes(p, gh, X * s1, xs);
    CongAdd(p, ef * (Y * s1), ef * ys, gh * (X * s1), gh * xs);
    CongTimes(p, v2, ef * (Y * s1) + gh * (X * s1), ef * ys + gh * xs);
    CongRefl(p, (v1 * s2) * u);
    CongAdd(p, (v1 * s2) * u, (v1 * s2) * u, v2 * (ef * (Y * s1) + gh * (X * s1)), v2 * (ef * ys + gh * xs));
    CongTimes(p, c, (v1 * s2) * u + v2 * (ef * (Y * s1) + gh * (X * s1)), (v1 * s2) * u + v2 * (ef * ys + gh * xs));
    var want := c * ((v1 * s2) * u + v2 * (ef * ys + gh * xs));
    CongTrans(p, u * (c * eh), c * ((v1 * s2) * u + v2 * (ef * (Y * s1) + gh * (X * s1))), want);
    CongRefl(p, u * zM);
    CongAdd(p, u * zM, u * zM, u * (c * eh), want);
    Apart(u, zM, c * eh);
  }

  /** The roles of a point's x and y: as they are, or exchanged with the sign of d. */
  predicate Roles(s: int, P: Point, X: int, Y: int) {
    (s == 1 && X == P.x && Y == P.y) || (s == -1 && X == P.y && Y == P.x)
  }

  lemma RightSide(p: int, d: int, s: int, X: int, Y: int, P: Point, Q: Point, R: Point, ef: int, gh: int)
    requires Roles(s, P, X, Y) && OnCurve(p, d, P) && OnCurve(p, d, Q)
    ensures
      var v2, D := Q.z * Q.t, s * d;
      Cong(p, (ef * Y + gh * X) * (R.z * (F(d, P, Q) * G(d, P, Q)) + (D * R.t) * (E(P, Q) * H(P, Q))),
           Form(D, X, Y, P.z, P.t, gh * (Q.z * F(d, Q, R)), ef * (Q.z * G(d, Q, R)),
                R.t * (2 * (v2 * ef) + gh * S(Q)), R.t * (2 * (v2 * gh) + ef * S(Q)),
                -(gh * (Q.t * (Q.z * R.t + Q.t * R.z))), ef * (Q.t * (Q.z * R.t - Q.t * R.z))))
  {
    hide Cong, Form, S;
    var v1, v2, D, q := P.z * P.t, Q.z * Q.t, s * d, P.z * P.z + d * (P.t * P.t);
    var ys, xs := 2 * (X * v1) + s * (Y * q), 2 * (Y * v1) - s * (X * q);
    CurveEH(p, d, P, Q);
    CurveXS(p, d, P);
    ProductOfFG(d, P.z, P.t, Q.z, Q.t);
    RightReplaced(p, ef, gh, X, Y, R.z * (F(d, P, Q) * G(d, P, Q)), D * R.t, E(P, Q) * H(P, Q),
                  v1, S(Q), v2, S(P), ys, xs);
    RightForm(d, D, s, X, Y, P.z, P.t, Q.z, Q.t, R.z, R.t, ef, gh, S(Q));
  }

  lemma Rotated(t: int, h: int, k: int, e: int)
    ensures (t * h) * (k * e) == t * (k * (e * h)) == t * (k * (h * e))
  {}

  lemma Paired(t: int, h: int, g: int, r: int)
    ensures (t * h) * (g * r) == (g * h) * (t * r) == (h * g) * (t * r)
    ensures (t * h) * (-(g * r)) == -((g * h) * (t * r))
  {}

  lemma PureCoefficients(p: int, t2: int, k: int, l: int, e: int, h: int, f: int, g: int, r: int, w: int)
    requires Cong(p, k * e, -(g * r)) && Cong(p, l * h, f * w)
    ensures Cong(p, t2 * (k * (e * h)), -((g * h) * (t2 * r))) && Cong(p, t2 * (l * (e * h)), (e * f) * (t2 * w))
  {
    hide Cong;
    CongTimes(p, t2 * h, k * e, -(g * r));
    CongTimes(p, t2 * e, l * h, f * w);
    Rotated(t2, h, k, e);
    Rotated(t2, e, l, h);
    Paired(t2, h, g, r);
    Paired(t2, e, f, w);
  }

  lemma OuterCoefficients(z: int, e: int, h: int, f: int, g: int)
    ensures z * (h * (f * g)) == (g * h) * (z * f) && z * (e * (f * g)) == (e * f) * (z * g)
  {}

  /** Cross-multiplied, the two ways of adding three points agree, for either assignment of roles. */
  lemma Crossed(p: int, d: int, s: int, X: int, Y: int, P: Point, Q: Point, R: Point)
    requires Roles(s, P, X, Y) && OnCurve(p, d, P) && OnCurve(p, d, Q) && OnCurve(p, d, R)
    ensures
      var e, h, k, l, f, g, D := E(Q, R), H(Q, R), K(Q, R), L(Q, R), F(d, Q, R), G(d, Q, R), s * d;
      Cong(p, (Q.z * ((X * P.z) * h + (Y * P.z) * e) + (D * Q.t) * ((X * P.t) * k + (Y * P.t) * l))
                * (P.z * (f * g) + (D * P.t) * (e * h)),
           ((e * f) * Y + (g * h) * X)
             * (R.z * (F(d, P, Q) * G(d, P, Q)) + (D * R.t) * (E(P, Q) * H(P, Q))))
  {
    hide Cong, Form, OnCurve, E, H, K, L, F, G, S, Roles;
    var e, h, k, l, f, g, D := E(Q, R), H(Q, R), K(Q, R), L(Q, R), F(d, Q, R), G(d, Q, R), s * d;
    var v2, r, w := Q.z * Q.t, Q.z * R.t + Q.t * R.z, Q.z * R.t - Q.t * R.z;
    LeftForm(D, X, Y, P.z, P.t, Q.z, Q.t, h, e, k, l, f * g, e * h);
    RightSide(p, d, s, X, Y, P, Q, R, e * f, g * h);
    Coefficients(p, d, Q, R);
    OuterCoefficients(Q.z, e, h, f, g);
    FormCong(p, D, X, Y, P.z, P.t, (g * h) * (Q.z * f), (e * f) * (Q.z * g),
             Q.t * (k * (f * g)) + Q.z * (h * (e * h)), R.t * (2 * (v2 * (e * f)) + (g * h) * S(Q)),
             Q.t * (l * (f * g)) + Q.z * (e * (e * h)), R.t * (2 * (v2 * (g * h)) + (e * f) * S(Q)),
             Q.t * (k * (e * h)), -((g * h) * (Q.t * r)), Q.t * (l * (e * h)), (e * f) * (Q.t * w));
    Meet(p, (Q.z * ((X * P.z) * h + (Y * P.z) * e) + (D * Q.t) * ((X * P.t) * k + (Y * P.t) * l))
              * (P.z * (f * g) + (D * P.t) * (e * h)),
         ((e * f) * Y + (g * h) * X) * (R.z * (F(d, P, Q) * G(d, P, Q)) + (D * R.t) * (E(P, Q) * H(P, Q))),
         Form(D, X, Y, P.z, P.t, (g * h) * (Q.z * f), (e * f) * (Q.z * g),
              R.t * (2 * (v2 * (e * f)) + (g * h) * S(Q)), R.t * (2 * (v2 * (g * h)) + (e * f) * S(Q)),
              -((g * h) * (Q.t * r)), (e * f) * (Q.t * w)));
  }

  lemma MixedCoefficients(p: int, d: int, Q: Point, R: Point)
    requires OnCurve(p, d, Q) && OnCurve(p, d, R)
    ensures
      var e, h, k, l, f, g := E(Q, R), H(Q, R), K(Q, R), L(Q, R), F(d, Q, R), G(d, Q, R);
      && Cong(p, Q.t * (k * (f * g)) + Q.z * (h * (e * h)), R.t * (2 * ((Q.z * Q.t) * (e * f)) + h * (g * S(Q))))
      && Cong(p, Q.t * (l * (f * g)) + Q.z * (e * (e * h)), R.t * (2 * ((Q.z * Q.t) * (h * g)) + e * (f * S(Q))))
  {
    hide Cong, OnCurve, E, H, K, L, S;
    var e, h, k, l, f, g := E(Q, R), H(Q, R), K(Q, R), L(Q, R), F(d, Q, R), G(d, Q, R);
    CurveHS(p, d, Q, R);
    CurveEH(p, d, Q, R);
    MixedCoefficient(p, d, 1, Q.z, Q.t, R.z, R.t, k, h, e, e * h, S(Q), S(R), f * g, f, g);
    MixedCoefficient(p, d, -1, Q.z, Q.t, R.z, R.t, l, e, h, e * h, S(Q), S(R), f * g, g, f);
  }

  lemma Exchange(a: int, b: int, c: int)
    ensures a * (b * c) == (a * b) * c == (b * a) * c
  {}

  lemma Coefficients(p: int, d: int, Q: Point, R: Point)
    requires OnCurve(p, d, Q) && OnCurve(p, d, R)
    ensures
      var e, h, k, l, f, g := E(Q, R), H(Q, R), K(Q, R), L(Q, R), F(d, Q, R), G(d, Q, R);
      var v2, r, w := Q.z * Q.t, Q.z * R.t + Q.t * R.z, Q.z * R.t - Q.t * R.z;
      && Cong(p, Q.t * (k * (f * g)) + Q.z * (h * (e * h)), R.t * (2 * (v2 * (e * f)) + (g * h) * S(Q)))
      && Cong(p, Q.t * (l * (f * g)) + Q.z * (e * (e * h)), R.t * (2 * (v2 * (g * h)) + (e * f) * S(Q)))
      && Cong(p, Q.t * (k * (e * h)), -((g * h) * (Q.t * r)))
      && Cong(p, Q.t * (l * (e * h)), (e * f) * (Q.t * w))
  {
    hide Cong, OnCurve, S, E, H, K, L, F, G;
    var e, h, k, l, f, g := E(Q, R), H(Q, R), K(Q, R), L(Q, R), F(d, Q, R), G(d, Q, R);
    MixedCoefficients(p, d, Q, R);
    Exchange(h, g, S(Q));
    Exchange(e, f, S(Q));
    CurveKL(p, d, Q, R);
    PureCoefficients(p, Q.t, k, l, e, h, f, g, Q.z * R.t + Q.t * R.z, Q.z * R.t - Q.t * R.z);
  }

  // ---------------------------------------------------------------- associativity

  /** The sum before the modulus, without its common factor 4. */
  function Raw(d: int, P: Point, Q: Point): Point {
    Point(E(P, Q) * F(d, P, Q), H(P, Q) * G(d, P, Q), F(d, P, Q) * G(d, P, Q), E(P, Q) * H(P, Q))
  }

  lemma RawScales(p: int, d: int, P: Point, Q: Point)
    requires p > 0
    ensures ScaledBy(p, Raw(d, P, Q), EdwardsAdd(p, d, P, Q), 4)
  {
    AdditionLaw(p, d, P, Q);
  }

  lemma CrossByDegree(d: int, x1: int, y1: int, z1: int, t1: int, x2: int, y2: int, z2: int, t2: int)
    ensures (x1 * y2 + y1 * x2) * (z1 * z2 - d * t1 * t2) ==
      z2 * ((x1 * z1) * y2 + (y1 * z1) * x2) - (d * t2) * ((x1 * t1) * y2 + (y1 * t1) * x2)
  {
    var u := x1 * y2 + y1 * x2;
    assert u * (z1 * z2 - d * t1 * t2) == z2 * (z1 * u) - (d * t2) * (t1 * u);
    assert z1 * u == (x1 * z1) * y2 + (y1 * z1) * x2 && t1 * u == (x1 * t1) * y2 + (y1 * t1) * x2;
  }

  lemma StraightByDegree(d: int, x1: int, y1: int, z1: int, t1: int, x2: int, y2: int, z2: int, t2: int)
    ensures (y1 * y2 + x1 * x2) * (z1 * z2 + d * t1 * t2) ==
      z2 * ((y1 * z1) * y2 + (x1 * z1) * x2) + (d * t2) * ((y1 * t1) * y2 + (x1 * t1) * x2)
  {
    var u := y1 * y2 + x1 * x2;
    assert u * (z1 * z2 + d * t1 * t2) == z2 * (z1 * u) + (d * t2) * (t1 * u);
    assert z1 * u == (y1 * z1) * y2 + (x1 * z1) * x2 && t1 * u == (y1 * t1) * y2 + (x1 * t1) * x2;
  }

  lemma Grouped(z: int, w: int, a: int, b: int, c: int, e: int, u: int, v: int)
    ensures (z * a - w * b) * u + (z * c + w * e) * v == z * (a * u + c * v) + w * (e * v - b * u)
  {}

  lemma InnerSums(a: int, b: int, x2: int, y2: int, x3: int, y3: int)
    ensures (a * y2 + b * x2) * y3 + (b * y2 + a * x2) * x3 == a * (y2 * y3 + x2 * x3) + b * (x2 * y3 + y2 * x3)
    ensures (b * y2 + a * x2) * x3 - (a * y2 + b * x2) * y3 == a * (x2 * x3 - y2 * y3) + b * (y2 * x3 - x2 * y3)
  {}

  lemma ShapeE(z: int, w: int, a: int, b: int, a': int, b': int, x2: int, y2: int, x3: int, y3: int, X: int, Y: int)
    requires X == z * (a * y2 + b * x2) - w * (a' * y2 + b' * x2)
    requires Y == z * (b * y2 + a * x2) + w * (b' * y2 + a' * x2)
    ensures X * y3 + Y * x3 ==
      z * (a * (y2 * y3 + x2 * x3) + b * (x2 * y3 + y2 * x3))
        + w * (a' * (x2 * x3 - y2 * y3) + b' * (y2 * x3 - x2 * y3))
  {
    InnerSums(a, b, x2, y2, x3, y3);
    InnerSums(a', b', x2, y2, x3, y3);
    Grouped(z, w, a * y2 + b * x2, a' * y2 + b' * x2, b * y2 + a * x2, b' * y2 + a' * x2, y3, x3);
  }

  lemma ShapeH(z: int, w: int, a: int, b: int, a': int, b': int, x2: int, y2: int, x3: int, y3: int, X: int, Y: int)
    requires X == z * (a * y2 + b * x2) - w * (a' * y2 + b' * x2)
    requires Y == z * (b * y2 + a * x2) + w * (b' * y2 + a' * x2)
    ensures Y * y3 + X * x3 ==
      z * (b * (y2 * y3 + x2 * x3) + a * (x2 * y3 + y2 * x3))
        - w * (b' * (x2 * x3 - y2 * y3) + a' * (y2 * x3 - x2 * y3))
  {
    InnerSums(b, a, x2, y2, x3, y3);
    InnerSums(b', a', x2, y2, x3, y3);
    Grouped(z, w, a * y2 + b * x2, a' * y2 + b' * x2, b * y2 + a * x2, b' * y2 + a' * x2, x3, y3);
    Reversed(w, (b' * y2 + a' * x2) * y3, (a' * y2 + b' * x2) * x3);
  }

  lemma Reversed(w: int, a: int, b: int)
    ensures w * (a - b) == -(w * (b - a))
  {}

  /** The first factor of the left-hand side is E of the raw sum, or H of it with the roles exchanged. */
  lemma LeftShape(d: int, P: Point, Q: Point, R: Point)
    ensures E(Raw(d, P, Q), R) ==
      Q.z * ((P.x * P.z) * H(Q, R) + (P.y * P.z) * E(Q, R))
        + (d * Q.t) * ((P.x * P.t) * K(Q, R) + (P.y * P.t) * L(Q, R))
    ensures H(Raw(d, P, Q), R) ==
      Q.z * ((P.y * P.z) * H(Q, R) + (P.x * P.z) * E(Q, R))
        - (d * Q.t) * ((P.y * P.t) * K(Q, R) + (P.x * P.t) * L(Q, R))
  {
    var U := Raw(d, P, Q);
    CrossByDegree(d, P.x, P.y, P.z, P.t, Q.x, Q.y, Q.z, Q.t);
    StraightByDegree(d, P.x, P.y, P.z, P.t, Q.x, Q.y, Q.z, Q.t);
    ShapeE(Q.z, d * Q.t, P.x * P.z, P.y * P.z, P.x * P.t, P.y * P.t, Q.x, Q.y, R.x, R.y, U.x, U.y);
    ShapeH(Q.z, d * Q.t, P.x * P.z, P.y * P.z, P.x * P.t, P.y * P.t, Q.x, Q.y, R.x, R.y, U.x, U.y);
  }

  lemma Shapes(d: int, P: Point, Q: Point, R: Point)
    ensures
      var U, V := Raw(d, P, Q), Raw(d, Q, R);
      var ef, gh, fg, eh := E(Q, R) * F(d, Q, R), G(d, Q, R) * H(Q, R), F(d, Q, R) * G(d, Q, R), E(Q, R) * H(Q, R);
      var FG, EH := F(d, P, Q) * G(d, P, Q), E(P, Q) * H(P, Q);
      && E(P, V) == ef * P.y + gh * P.x && H(P, V) == ef * P.x + gh * P.y
      && G(d, P, V) == P.z * fg + (d * P.t) * eh && F(d, P, V) == P.z * fg - (d * P.t) * eh
      && G(d, U, R) == R.z * FG + (d * R.t) * EH && F(d, U, R) == R.z * FG - (d * R.t) * EH
  {
    Commute(H(Q, R), G(d, Q, R), P.x);
    Commute(H(Q, R), G(d, Q, R), P.y);
    Commute(E(Q, R), F(d, Q, R), P.x);
    Commute(E(Q, R), F(d, Q, R), P.y);
    Carried(d, E(P, Q) * H(P, Q), R.t);
    Commute(F(d, P, Q), G(d, P, Q), R.z);
  }

  lemma Commute(a: int, b: int, x: int)
    ensures x * (a * b) == (b * a) * x == (a * b) * x
  {}

  lemma CrossedE(p: int, d: int, P: Point, Q: Point, R: Point)
    requires OnCurve(p, d, P) && OnCurve(p, d, Q) && OnCurve(p, d, R)
    ensures
      var U, V := Raw(d, P, Q), Raw(d, Q, R);
      Cong(p, E(U, R) * G(d, P, V), E(P, V) * G(d, U, R))
  {
    hide Cong, OnCurve, E, F, G, H, K, L, Raw;
    Crossed(p, d, 1, P.x, P.y, P, Q, R);
    LeftShape(d, P, Q, R);
    Shapes(d, P, Q, R);
    assert 1 * d == d;
  }

  lemma CrossedH(p: int, d: int, P: Point, Q: Point, R: Point)
    requires OnCurve(p, d, P) && OnCurve(p, d, Q) && OnCurve(p, d, R)
    ensures
      var U, V := Raw(d, P, Q), Raw(d, Q, R);
      Cong(p, H(U, R) * F(d, P, V), H(P, V) * F(d, U, R))
  {
    hide Cong, OnCurve, E, F, G, H, K, L, Raw;
    Crossed(p, d, -1, P.y, P.x, P, Q, R);
    LeftShape(d, P, Q, R);
    Shapes(d, P, Q, R);
    Negated(d, Q.t, (P.y * P.t) * K(Q, R) + (P.x * P.t) * L(Q, R));
    Negated(d, P.t, E(Q, R) * H(Q, R));
    Negated(d, R.t, E(P, Q) * H(P, Q));
  }

  lemma Negated(d: int, t: int, x: int)
    ensures ((-1 * d) * t) * x == -((d * t) * x)
  {}

  /** The coordinates agree when cross-multiplied with z. */
  ghost predicate CrossEqual(p: int, P: Point, Q: Point) {
    Cong(p, P.x * Q.z, Q.x * P.z) && Cong(p, P.y * Q.z, Q.y * P.z) && Cong(p, P.t * Q.z, Q.t * P.z)
  }

  /** Both ways of adding three points give the same raw point, cross-multiplied. */
  lemma RawAssociates(p: int, d: int, P: Point, Q: Point, R: Point)
    requires OnCurve(p, d, P) && OnCurve(p, d, Q) && OnCurve(p, d, R)
    ensures CrossEqual(p, Raw(d, Raw(d, P, Q), R), Raw(d, P, Raw(d, Q, R)))
  {
    hide Cong, OnCurve;
    var U, V := Raw(d, P, Q), Raw(d, Q, R);
    CrossedE(p, d, P, Q, R);
    CrossedH(p, d, P, Q, R);
    CrossTerms(p, E(U, R), F(d, U, R), G(d, U, R), H(U, R), E(P, V), F(d, P, V), G(d, P, V), H(P, V));
  }

  lemma CrossTerms(p: int, e: int, f: int, g: int, h: int, e': int, f': int, g': int, h': int)
    requires Cong(p, e * g', e' * g) && Cong(p, h * f', h' * f)
    ensures Cong(p, (e * f) * (f' * g'), (e' * f') * (f * g))
    ensures Cong(p, (h * g) * (f' * g'), (h' * g') * (f * g))
    ensures Cong(p, (e * h) * (f' * g'), (e' * h') * (f * g))
  {
    hide Cong;
    CongTimes(p, f * f', e * g', e' * g);
    CongTimes(p, g * g', h * f', h' * f);
    CongMul(p, e * g', e' * g, h * f', h' * f);
    FourFactors(e, f, f', g');
    FourFactors(e', f', f, g);
    FourFactors(h, g, g', f');
    FourFactors(h', g', g, f);
    Regroup4(e, h, f', g');
    Regroup4(e', h', f, g);
  }

  lemma FourFactors(a: int, b: int, c: int, e: int)
    ensures (a * b) * (c * e) == (b * c) * (a * e) == (a * b) * (e * c) == (c * b) * (a * e)
  {}

  lemma Regroup4(a: int, b: int, c: int, e: int)
    ensures (a * b) * (c * e) == (a * e) * (b * c)
  {}

  lemma ScaleCross(p: int, s: int, t: int, u: int, w: int, u': int, w': int, a: int, b: int, c: int, e: int)
    requires Cong(p, a, s * u) && Cong(p, b, t * w) && Cong(p, c, t * u') && Cong(p, e, s * w')
    requires Cong(p, u * w, u' * w')
    ensures Cong(p, a * b, c * e)
  {
    hide Cong;
    CongMul(p, a, s * u, b, t * w);
    CongMul(p, c, t * u', e, s * w');
    Regroup(s, u, t, w);
    assert (s * u) * (t * w) == (s * t) * (u * w) && (t * u') * (s * w') == (s * t) * (u' * w');
    CongTimes(p, s * t, u * w, u' * w');
    CongTrans(p, a * b, (s * t) * (u * w), (s * t) * (u' * w'));
    Meet(p, a * b, c * e, (s * t) * (u' * w'));
  }

  lemma CrossEqualScales(p: int, P: Point, P': Point, s: int, Q: Point, Q': Point, t: int)
    requires CrossEqual(p, P, Q) && ScaledBy(p, P, P', s) && ScaledBy(p, Q, Q', t)
    ensures CrossEqual(p, P', Q')
  {
    hide Cong;
    ScaleCross(p, s, t, P.x, Q.z, Q.x, P.z, P'.x, Q'.z, Q'.x, P'.z);
    ScaleCross(p, s, t, P.y, Q.z, Q.y, P.z, P'.y, Q'.z, Q'.y, P'.z);
    ScaleCross(p, s, t, P.t, Q.z, Q.t, P.z, P'.t, Q'.z, Q'.t, P'.z);
  }

  lemma Quotient(p: int, z: int, r: int, z': int, c: int, c': int)
    requires Cong(p, z * r, 1) && Cong(p, c * z', c' * z)
    ensures Cong(p, c', (z' * r) * c)
  {
    CongTimes(p, r, c * z', c' * z);
    assert r * (c * z') == (z' * r) * c && r * (c' * z) == c' * (z * r);
    CongTimes(p, c', z * r, 1);
    CongTrans(p, (z' * r) * c, c' * (z * r), c' * 1);
    CongSym(p, (z' * r) * c, c');
  }

  /** With invertible z, points that agree when cross-multiplied are the same projective point. */
  lemma CrossEqualSame(p: int, P: Point, Q: Point)
    requires CrossEqual(p, P, Q) && Unit(p, P.z) && Unit(p, Q.z)
    ensures SamePoint(p, P, Q)
  {
    hide CrossEqual;
    var r :| Cong(p, P.z * r, 1);
    var s := Q.z * r;
    assert Cong(p, P.x * Q.z, Q.x * P.z) && Cong(p, P.y * Q.z, Q.y * P.z) && Cong(p, P.t * Q.z, Q.t * P.z) by {
      CrossParts(p, P, Q);
    }
    Quotient(p, P.z, r, Q.z, P.x, Q.x);
    Quotient(p, P.z, r, Q.z, P.y, Q.y);
    Quotient(p, P.z, r, Q.z, P.t, Q.t);
    CongRefl(p, P.z * Q.z);
    assert P.z * Q.z == Q.z * P.z;
    Quotient(p, P.z, r, Q.z, P.z, Q.z);
    assert Cong(p, r * P.z, 1);
    assert Unit(p, r);
    UnitProduct(p, Q.z, r);
    assert Unit(p, s) && ScaledBy(p, P, Q, s);
  }

  lemma CrossParts(p: int, P: Point, Q: Point)
    requires CrossEqual(p, P, Q)
    ensures Cong(p, P.x * Q.z, Q.x * P.z) && Cong(p, P.y * Q.z, Q.y * P.z) && Cong(p, P.t * Q.z, Q.t * P.z)
  {}

  lemma ScaledSelf(p: int, P: Point)
    ensures ScaledBy(p, P, P, 1)
  {
    CongRefl(p, P.x);
    CongRefl(p, P.y);
    CongRefl(p, P.z);
    CongRefl(p, P.t);
  }

  lemma ScaledTwice(p: int, P: Point, Q: Point, R: Point, s: int, t: int)
    requires ScaledBy(p, P, Q, s) && ScaledBy(p, Q, R, t)
    ensures ScaledBy(p, P, R, t * s)
  {
    CongScale(p, P.x, Q.x, R.x, s, t);
    CongScale(p, P.y, Q.y, R.y, s, t);
    CongScale(p, P.z, Q.z, R.z, s, t);
    CongScale(p, P.t, Q.t, R.t, s, t);
  }

  /** A sum of sums is a multiple of the raw one. */
  lemma SumOfSums(p: int, d: int, P: Point, P': Point, s: int, Q: Point, Q': Point, t: int)
    requires p > 0 && ScaledBy(p, P, P', s) && ScaledBy(p, Q, Q', t)
    ensures exists r :: ScaledBy(p, Raw(d, P, Q), EdwardsAdd(p, d, P', Q'), r)
  {
    hide ScaledBy;
    RawScales(p, d, P, Q);
    AddScales(p, d, P, P', s, Q, Q', t);
    ScaledTwice(p, Raw(d, P, Q), EdwardsAdd(p, d, P, Q), EdwardsAdd(p, d, P', Q'), 4, (s * t) * (s * t));
  }

  /** The script's addition is associative on the curve, as far as the projective points go. */
  lemma AddAssociates(p: int, d: int, i: int, P: Point, Q: Point, R: Point)
    requires Complete(p, d, i) && CurvePoint(p, d, P) && CurvePoint(p, d, Q) && CurvePoint(p, d, R)
    ensures SamePoint(p, EdwardsAdd(p, d, EdwardsAdd(p, d, P, Q), R), EdwardsAdd(p, d, P, EdwardsAdd(p, d, Q, R)))
  {
    hide ScaledBy, EdwardsAdd, Raw, SamePoint, CrossEqual, OnCurve, Unit, Root;
    var A, B := EdwardsAdd(p, d, P, Q), EdwardsAdd(p, d, Q, R);
    CurvePointsAdd(p, d, i, P, Q);
    CurvePointsAdd(p, d, i, Q, R);
    CurvePointsAdd(p, d, i, A, R);
    CurvePointsAdd(p, d, i, P, B);
    RawScales(p, d, P, Q);
    RawScales(p, d, Q, R);
    ScaledSelf(p, P);
    ScaledSelf(p, R);
    SumOfSums(p, d, Raw(d, P, Q), A, 4, R, R, 1);
    SumOfSums(p, d, P, P, 1, Raw(d, Q, R), B, 4);
    var s :| ScaledBy(p, Raw(d, Raw(d, P, Q), R), EdwardsAdd(p, d, A, R), s);
    var t :| ScaledBy(p, Raw(d, P, Raw(d, Q, R)), EdwardsAdd(p, d, P, B), t);
    RawAssociates(p, d, P, Q, R);
    CrossEqualScales(p, Raw(d, Raw(d, P, Q), R), EdwardsAdd(p, d, A, R), s,
                     Raw(d, P, Raw(d, Q, R)), EdwardsAdd(p, d, P, B), t);
    CrossEqualSame(p, EdwardsAdd(p, d, A, R), EdwardsAdd(p, d, P, B));
  }

  lemma CurveIsProper(p: int, d: int, i: int)
    requires Complete(p, d, i)
    ensures Proper(p, P => CurvePoint(p, d, P))
  {
    UnitProduct(p, 2, 2);
    forall P: Point | CurvePoint(p, d, P) ensures Extended(p, P) && Unit(p, 4 * P.z) { UnitProduct(p, 4, P.z); }
  }

  lemma CurveIsAssociative(p: int, d: int, i: int)
    requires Complete(p, d, i)
    ensures Associative(p, d, P => CurvePoint(p, d, P))
  {
    hide EdwardsAdd, CurvePoint, SamePoint, Proper, Unit, Root;
    ZeroIsCurvePoint(p, d);
    CurveIsProper(p, d, i);
    forall A, B | CurvePoint(p, d, A) && CurvePoint(p, d, B) ensures CurvePoint(p, d, EdwardsAdd(p, d, A, B)) {
      CurvePointsAdd(p, d, i, A, B);
    }
    forall A, B, C | CurvePoint(p, d, A) && CurvePoint(p, d, B) && CurvePoint(p, d, C)
      ensures SamePoint(p, EdwardsAdd(p, d, EdwardsAdd(p, d, A, B), C), EdwardsAdd(p, d, A, EdwardsAdd(p, d, B, C)))
    {
      AddAssociates(p, d, i, A, B, C);
    }
  }

  // ---------------------------------------------------------------- the group, and _scalarmult in it

  /** The same point with x and t negated. */
  function Negative(P: Point): Point {
    Point(-P.x, P.y, P.z, -P.t)
  }

  lemma NegativeOnCurve(p: int, d: int, P: Point)
    requires CurvePoint(p, d, P)
    ensures CurvePoint(p, d, Negative(P))
  {
    CongTimes(p, -1, P.x * P.y, P.z * P.t);
    assert (-P.x) * P.y == -1 * (P.x * P.y) && P.z * (-P.t) == -1 * (P.z * P.t);
    assert (-P.x) * (-P.x) == P.x * P.x && (-P.t) * (-P.t) == P.t * P.t;
  }

  /** The order of the operands does not matter at all: the quadruples are equal. */
  lemma AddCommutes(p: int, d: int, P: Point, Q: Point)
    requires p > 0
    ensures EdwardsAdd(p, d, P, Q) == EdwardsAdd(p, d, Q, P)
  {
    assert P.t * 2 * d * Q.t == Q.t * 2 * d * P.t && P.z * 2 * Q.z == Q.z * 2 * P.z;
    assert (P.y - P.x) * (Q.y - Q.x) == (Q.y - Q.x) * (P.y - P.x);
    assert (P.y + P.x) * (Q.y + Q.x) == (Q.y + Q.x) * (P.y + P.x);
  }

  /** Adding the negative gives the loop's start (0, 1, 1, 0), as a projective point. */
  lemma AddInverse(p: int, d: int, i: int, P: Point)
    requires Complete(p, d, i) && CurvePoint(p, d, P)
    ensures SamePoint(p, EdwardsAdd(p, d, P, Negative(P)), ZERO)
  {
    var N := Negative(P);
    var A, U := EdwardsAdd(p, d, P, N), Raw(d, P, N);
    NegativeOnCurve(p, d, P);
    CurvePointsAdd(p, d, i, P, N);
    RawScales(p, d, P, N);
    ScaledSelf(p, ZERO);
    CongRefl(p, 1);
    assert Cong(p, ZERO.z * 1, 1);
    InverseTerms(p, d, P);
    CrossEqualScales(p, U, A, 4, ZERO, ZERO, 1);
    CrossEqualSame(p, A, ZERO);
  }

  lemma InverseTerms(p: int, d: int, P: Point)
    requires OnCurve(p, d, P)
    ensures CrossEqual(p, Raw(d, P, Negative(P)), ZERO)
  {
    hide Cong;
    var N := Negative(P);
    var h, f, g := H(P, N), F(d, P, N), G(d, P, N);
    assert E(P, N) == 0;
    assert h == P.y * P.y - P.x * P.x;
    assert d * P.t * (-P.t) == -(d * (P.t * P.t));
    assert f == P.z * P.z + d * (P.t * P.t);
    CongRefl(p, g);
    CongMul(p, h, f, g, g);
    CongRefl(p, 0);
    assert 0 * f == 0 && 0 * h == 0;
  }

  lemma SumsOnSet(p: int, d: int, on: Point -> bool, P: Point, e: nat)
    requires p > 0 && Associative(p, d, on) && on(P)
    ensures SamePoint(p, DoubleAndAdd(AddOn(p, d), ZERO, P, e), Times(AddOn(p, d), ZERO, P, e))
  {
    hide Associative, Proper, Monoid;
    var g := Projectively(p, d, on);
    EdwardsMonoid(p, d, on);
    SetIsProper(p, d, on);
    DoubleAndAddIsTimes(g, ZERO, P, e);
    TimesCloses(g, P, e);
    var sum := Times(AddOn(p, d), ZERO, P, e);
    Neutral(g, sum);
    EqTrans(g, DoubleAndAdd(g.add, ZERO, P, e), g.add(ZERO, sum), sum);
  }

  /** _scalarmult is the e-fold sum: for every point of the curve with invertible z and every e, the loop returns the
      projective point that e additions give. */
  lemma ScalarMultIsTimes(p: int, d: int, i: int, P: Point, e: nat)
    requires Complete(p, d, i) && CurvePoint(p, d, P)
    ensures SamePoint(p, DoubleAndAdd(AddOn(p, d), ZERO, P, e), Times(AddOn(p, d), ZERO, P, e))
  {
    hide Associative, CurvePoint, SamePoint, Unit, Root;
    CurveIsAssociative(p, d, i);
    SumsOnSet(p, d, P => CurvePoint(p, d, P), P, e);
  }

  /** The loop's result is the e-fold sum and a point of the curve, and so is the e-fold sum. */
  lemma LoopAndSum(p: int, d: int, i: int, P: Point, e: nat)
    requires Complete(p, d, i) && CurvePoint(p, d, P)
    ensures
      var g, sum := Projectively(p, d, Q => CurvePoint(p, d, Q)), Times(AddOn(p, d), ZERO, P, e);
      && Monoid(g) && Same(g, DoubleAndAdd(AddOn(p, d), ZERO, P, e), sum)
      && Same(g, sum, DoubleAndAdd(AddOn(p, d), ZERO, P, e)) && CurvePoint(p, d, sum)
  {
    hide Associative, CurvePoint, SamePoint, Unit, Root, Monoid;
    var g := Projectively(p, d, Q => CurvePoint(p, d, Q));
    CurveIsAssociative(p, d, i);
    EdwardsMonoid(p, d, Q => CurvePoint(p, d, Q));
    ScalarMultIsTimes(p, d, i, P, e);
    ScalarMultMeetsNoInfinity(p, d, i, P, e);
    TimesCloses(g, P, e);
    Flip(g, DoubleAndAdd(AddOn(p, d), ZERO, P, e), Times(AddOn(p, d), ZERO, P, e));
  }

  /** Multiples add up: m times a point plus n times it is m + n times it. */
  lemma ScalarMultAdds(p: int, d: int, i: int, P: Point, m: nat, n: nat)
    requires Complete(p, d, i) && CurvePoint(p, d, P)
    ensures SamePoint(p, DoubleAndAdd(AddOn(p, d), ZERO, P, m + n),
                      EdwardsAdd(p, d, DoubleAndAdd(AddOn(p, d), ZERO, P, m), DoubleAndAdd(AddOn(p, d), ZERO, P, n)))
  {
    hide CurvePoint, Unit, Root, Monoid, EdwardsAdd, DoubleAndAdd, Times;
    var g := Projectively(p, d, Q => CurvePoint(p, d, Q));
    var tm, tn := Times(AddOn(p, d), ZERO, P, m), Times(AddOn(p, d), ZERO, P, n);
    var lm, ln := DoubleAndAdd(AddOn(p, d), ZERO, P, m), DoubleAndAdd(AddOn(p, d), ZERO, P, n);
    LoopAndSum(p, d, i, P, m);
    LoopAndSum(p, d, i, P, n);
    LoopAndSum(p, d, i, P, m + n);
    TimesAdds(g, P, m, n);
    EqAdds(g, tm, lm, tn, ln);
    EqTrans(g, DoubleAndAdd(AddOn(p, d), ZERO, P, m + n), Times(AddOn(p, d), ZERO, P, m + n), g.add(tm, tn));
    EqTrans(g, DoubleAndAdd(AddOn(p, d), ZERO, P, m + n), g.add(tm, tn), g.add(lm, ln));
  }

  /** Multiples of multiples: n times m times a point is m * n times it. */
  lemma ScalarMultMultiplies(p: int, d: int, i: int, P: Point, m: nat, n: nat)
    requires Complete(p, d, i) && CurvePoint(p, d, P)
    ensures SamePoint(p, DoubleAndAdd(AddOn(p, d), ZERO, P, m * n),
                      DoubleAndAdd(AddOn(p, d), ZERO, DoubleAndAdd(AddOn(p, d), ZERO, P, m), n))
  {
    hide CurvePoint, Unit, Root, Monoid, EdwardsAdd, DoubleAndAdd, Times, SamePoint;
    var g := Projectively(p, d, Q => CurvePoint(p, d, Q));
    var tm, lm := Times(AddOn(p, d), ZERO, P, m), DoubleAndAdd(AddOn(p, d), ZERO, P, m);
    var all, want := DoubleAndAdd(AddOn(p, d), ZERO, P, m * n), DoubleAndAdd(AddOn(p, d), ZERO, lm, n);
    LoopAndSum(p, d, i, P, m);
    LoopAndSum(p, d, i, P, m * n);
    LoopAndSum(p, d, i, tm, n);
    ScalarMultRespectsSamePoint(p, d, tm, lm, n);
    TimesMultiplies(g, P, m, n);
    EqTrans(g, all, Times(AddOn(p, d), ZERO, P, m * n), Times(AddOn(p, d), ZERO, tm, n));
    EqTrans(g, all, Times(AddOn(p, d), ZERO, tm, n), DoubleAndAdd(AddOn(p, d), ZERO, tm, n));
    SamePointTransitive(p, all, DoubleAndAdd(AddOn(p, d), ZERO, tm, n), want);
  }

  lemma CongSameRemainder(p: int, a: int, b: int)
    requires p > 0 && Cong(p, a, b)
    ensures a % p == b % p
  {
    var k :| a == b + k * p;
    var q := b / p;
    assert p * (q + k) == p * q + k * p;
    DivUnique(a, p, q + k, b % p);
  }

  lemma InverseMoves(p: int, x: int, z: int, u: int, x': int, z': int, u': int, s: int)
    requires Cong(p, x', s * x) && Cong(p, z', s * z) && Cong(p, z * u, 1) && Cong(p, z' * u', 1)
    ensures Cong(p, x * u, x' * u')
  {
    CongTimes(p, x * u, z' * u', 1);
    CongTimes(p, (x * u) * u', z', s * z);
    CongTimes(p, u' * (s * x), z * u, 1);
    CongTimes(p, u', x', s * x);
    Rearrange(x, u, z', u', s, z);
    CongSym(p, (x * u) * (z' * u'), x * u);
    CongTrans(p, x * u, (x * u) * (z' * u'), (u' * (s * x)) * (z * u));
    CongTrans(p, x * u, (u' * (s * x)) * (z * u), u' * (s * x));
    CongSym(p, u' * x', u' * (s * x));
    CongTrans(p, x * u, u' * (s * x), u' * x');
  }

  lemma Rearrange(x: int, u: int, z': int, u': int, s: int, z: int)
    ensures (x * u) * (z' * u') == ((x * u) * u') * z'
    ensures ((x * u) * u') * (s * z) == (u' * (s * x)) * (z * u)
  {
    assert (x * u) * (z' * u') == ((x * u) * u') * z';
    assert ((x * u) * u') * (s * z) == (u' * (s * x)) * (z * u);
  }

  /** _encodepoint gives one projective point one string of bytes, whichever quadruple stands for it: with u and v the
      inverses of z it multiplies by. So the loop's result is packed as the e-fold sum would be. */
  lemma PackedAlike(p: int, P: Point, Q: Point, u: int, v: int)
    requires p > 0 && SamePoint(p, P, Q) && Cong(p, P.z * u, 1) && Cong(p, Q.z * v, 1)
    ensures Pack(P.x * u % p, P.y * u % p) == Pack(Q.x * v % p, Q.y * v % p)
  {
    var s :| Unit(p, s) && ScaledBy(p, P, Q, s);
    InverseMoves(p, P.x, P.z, u, Q.x, Q.z, v, s);
    InverseMoves(p, P.y, P.z, u, Q.y, Q.z, v, s);
    CongSameRemainder(p, P.x * u, Q.x * v);
    CongSameRemainder(p, P.y * u, Q.y * v);
  }
}
