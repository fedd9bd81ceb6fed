/** The script's own Ed25519 arithmetic (testdata/reproduce_spec.py): double-and-add, the projective addition of
    section 5.1.4 of RFC 8032, and the 32-byte packing of a point (section 5.1.2). */
module ScriptEdwards {
  import opened Bytes

  // ---------------------------------------------------------------- double-and-add

  /** What the loop computes from an accumulator q, a base p and the bits of e, for any addition at all. */
  function DoubleAndAdd<T>(add: (T, T) -> T, q: T, p: T, e: nat): T {
    if e == 0 then q
    else DoubleAndAdd(add, if e % 2 == 1 then add(q, p) else q, add(p, p), e / 2)
  }

  method ScalarMult<T>(add: (T, T) -> T, id: T, p: T, e: nat) returns (q: T)
    ensures q == DoubleAndAdd(add, id, p, e)
  {
    q := id;
    var base, n := p, e;
    while n > 0
      invariant DoubleAndAdd(add, q, base, n) == DoubleAndAdd(add, id, p, e)
    {
      if n % 2 == 1 { q := add(q, base); }
      base := add(base, base);
      n := n / 2;
    }
  }

  /** The sum of e copies of p. */
  function Times<T>(add: (T, T) -> T, id: T, p: T, e: nat): T {
    if e == 0 then id else add(Times(add, id, p, e - 1), p)
  }

  /** An addition, what it starts from, when two values count as the same, and the values it is for. */
  datatype Addition<!T> = Addition(add: (T, T) -> T, id: T, eq: (T, T) -> bool, on: T -> bool)

  ghost predicate StaysOn<T(!new)>(g: Addition<T>) {
    g.on(g.id) && forall a, b {:trigger g.add(a, b)} :: g.on(a) && g.on(b) ==> g.on(g.add(a, b))
  }

  ghost predicate Equivalence<T(!new)>(g: Addition<T>) {
    && (forall a {:trigger g.eq(a, a)} :: g.on(a) ==> g.eq(a, a))
    && (forall a, b {:trigger g.eq(a, b)} :: g.on(a) && g.on(b) && g.eq(a, b) ==> g.eq(b, a))
    && (forall a, b, c {:trigger g.eq(a, b), g.eq(b, c)} ::
          g.on(a) && g.on(b) && g.on(c) && g.eq(a, b) && g.eq(b, c) ==> g.eq(a, c))
  }

  ghost predicate Respected<T(!new)>(g: Addition<T>) {
    forall a, a', b, b' {:trigger g.add(a, b), g.add(a', b')} ::
      g.on(a) && g.on(a') && g.on(b) && g.on(b') && g.eq(a, a') && g.eq(b, b') ==> g.eq(g.add(a, b), g.add(a', b'))
  }

  ghost predicate AssociativeLaw<T(!new)>(g: Addition<T>) {
    forall a, b, c {:trigger g.add(g.add(a, b), c)} ::
      g.on(a) && g.on(b) && g.on(c) ==> g.eq(g.add(g.add(a, b), c), g.add(a, g.add(b, c)))
  }

  ghost predicate IdentityLaw<T(!new)>(g: Addition<T>) {
    forall a {:trigger g.add(a, g.id)} {:trigger g.add(g.id, a)} ::
      g.on(a) ==> g.eq(g.add(a, g.id), a) && g.eq(g.add(g.id, a), a)
  }

  /** On those values eq is an equivalence which the addition respects, and the addition stays among them and is
      associative with identity id, as far as eq can tell. */
  ghost predicate Monoid<T(!new)>(g: Addition<T>) {
    StaysOn(g) && Equivalence(g) && Respected(g) && AssociativeLaw(g) && IdentityLaw(g)
  }

  /** Two values the addition is for that count as the same. */
  ghost predicate Same<T(!new)>(g: Addition<T>, a: T, b: T) {
    g.on(a) && g.on(b) && g.eq(a, b)
  }

  lemma Closed<T(!new)>(g: Addition<T>, a: T, b: T)
    requires Monoid(g) && g.on(a) && g.on(b)
    ensures g.on(g.add(a, b))
  {}

  lemma EqTrans<T(!new)>(g: Addition<T>, a: T, b: T, c: T)
    requires Monoid(g) && Same(g, a, b) && Same(g, b, c)
    ensures Same(g, a, c)
  {}

  lemma EqAdds<T(!new)>(g: Addition<T>, a: T, a': T, b: T, b': T)
    requires Monoid(g) && Same(g, a, a') && Same(g, b, b')
    ensures Same(g, g.add(a, b), g.add(a', b'))
  {}

  lemma EqSame<T(!new)>(g: Addition<T>, a: T)
    requires Monoid(g) && g.on(a)
    ensures Same(g, a, a)
  {}

  lemma Flip<T(!new)>(g: Addition<T>, a: T, b: T)
    requires Monoid(g) && Same(g, a, b)
    ensures Same(g, b, a)
  {}

  lemma Associates<T(!new)>(g: Addition<T>, a: T, b: T, c: T)
    requires Monoid(g) && g.on(a) && g.on(b) && g.on(c)
    ensures Same(g, g.add(g.add(a, b), c), g.add(a, g.add(b, c)))
    ensures Same(g, g.add(a, g.add(b, c)), g.add(g.add(a, b), c))
  {
    hide Monoid;
    Closed(g, a, b);
    Closed(g, b, c);
    Closed(g, g.add(a, b), c);
    Closed(g, a, g.add(b, c));
    AssociatesEq(g, a, b, c);
    Flip(g, g.add(g.add(a, b), c), g.add(a, g.add(b, c)));
  }

  lemma AssociatesEq<T(!new)>(g: Addition<T>, a: T, b: T, c: T)
    requires Monoid(g) && g.on(a) && g.on(b) && g.on(c)
    ensures g.eq(g.add(g.add(a, b), c), g.add(a, g.add(b, c)))
  {}

  lemma Neutral<T(!new)>(g: Addition<T>, a: T)
    requires Monoid(g) && g.on(a)
    ensures Same(g, g.add(a, g.id), a) && Same(g, a, g.add(a, g.id)) && Same(g, g.add(g.id, a), a)
  {
    Closed(g, a, g.id);
    Closed(g, g.id, a);
    Flip(g, g.add(a, g.id), a);
  }

  lemma {:induction false} TimesCloses<T(!new)>(g: Addition<T>, p: T, n: nat)
    requires Monoid(g) && g.on(p)
    ensures g.on(Times(g.add, g.id, p, n))
  {
    if n == 0 {
      assert g.on(g.id);
    } else {
      hide Monoid;
      TimesCloses(g, p, n - 1);
      Closed(g, Times(g.add, g.id, p, n - 1), p);
    }
  }

  /** n copies followed by one more are one followed by n. */
  lemma {:induction false} TimesTurns<T(!new)>(g: Addition<T>, p: T, n: nat)
    requires Monoid(g) && g.on(p)
    ensures Same(g, g.add(p, Times(g.add, g.id, p, n)), Times(g.add, g.id, p, n + 1))
  {
    hide Monoid, Same;
    var t := Times(g.add, g.id, p, n);
    TimesCloses(g, p, n);
    if n == 0 {
      assert Times(g.add, g.id, p, 1) == g.add(t, p);
      Neutral(g, p);
      Flip(g, g.add(g.id, p), p);
      EqTrans(g, g.add(p, g.id), p, g.add(g.id, p));
    } else {
      var u := Times(g.add, g.id, p, n - 1);
      TimesCloses(g, p, n - 1);
      TimesTurns(g, p, n - 1);
      Associates(g, p, u, p);
      EqSame(g, p);
      EqAdds(g, g.add(p, u), t, p, p);
      EqTrans(g, g.add(p, g.add(u, p)), g.add(g.add(p, u), p), g.add(t, p));
    }
  }

  lemma {:induction false} TimesDoubles<T(!new)>(g: Addition<T>, p: T, n: nat)
    requires Monoid(g) && g.on(p)
    ensures Same(g, Times(g.add, g.id, g.add(p, p), n), Times(g.add, g.id, p, 2 * n))
  {
    hide Monoid, Same;
    TimesCloses(g, p, 2 * n);
    if n == 0 {
      EqSame(g, Times(g.add, g.id, p, 0));
    } else {
      var t, u := Times(g.add, g.id, p, 2 * n - 2), Times(g.add, g.id, g.add(p, p), n - 1);
      TimesDoubles(g, p, n - 1);
      TimesCloses(g, p, 2 * n - 2);
      Closed(g, p, p);
      EqSame(g, g.add(p, p));
      EqAdds(g, u, t, g.add(p, p), g.add(p, p));
      Associates(g, t, p, p);
      EqTrans(g, g.add(u, g.add(p, p)), g.add(t, g.add(p, p)), g.add(g.add(t, p), p));
      assert Times(g.add, g.id, p, 2 * n - 1) == g.add(t, p);
      assert Times(g.add, g.id, p, 2 * n) == g.add(g.add(t, p), p);
    }
  }

  lemma {:induction false} TimesAdds<T(!new)>(g: Addition<T>, p: T, m: nat, n: nat)
    requires Monoid(g) && g.on(p)
    ensures Same(g, Times(g.add, g.id, p, m + n), g.add(Times(g.add, g.id, p, m), Times(g.add, g.id, p, n)))
  {
    hide Monoid, Same;
    var t := Times(g.add, g.id, p, m);
    TimesCloses(g, p, m);
    if n == 0 {
      Neutral(g, t);
    } else {
      var u := Times(g.add, g.id, p, n - 1);
      TimesAdds(g, p, m, n - 1);
      TimesCloses(g, p, n - 1);
      EqSame(g, p);
      EqAdds(g, Times(g.add, g.id, p, m + n - 1), g.add(t, u), p, p);
      Associates(g, t, u, p);
      EqTrans(g, g.add(Times(g.add, g.id, p, m + n - 1), p), g.add(g.add(t, u), p), g.add(t, g.add(u, p)));
    }
  }

  lemma {:induction false} TimesMultiplies<T(!new)>(g: Addition<T>, p: T, m: nat, n: nat)
    requires Monoid(g) && g.on(p)
    ensures Same(g, Times(g.add, g.id, p, m * n), Times(g.add, g.id, Times(g.add, g.id, p, m), n))
  {
    hide Monoid, Same;
    var t := Times(g.add, g.id, p, m);
    TimesCloses(g, p, m);
    if n == 0 {
      TimesCloses(g, p, 0);
      EqSame(g, Times(g.add, g.id, p, 0));
    } else {
      var u, v := Times(g.add, g.id, p, m * (n - 1)), Times(g.add, g.id, t, n - 1);
      assert m * n == m * (n - 1) + m;
      TimesAdds(g, p, m * (n - 1), m);
      TimesMultiplies(g, p, m, n - 1);
      EqSame(g, t);
      EqAdds(g, u, v, t, t);
      EqTrans(g, Times(g.add, g.id, p, m * n), g.add(u, t), g.add(v, t));
    }
  }

  /** For any addition that is associative with an identity up to an equivalence, the loop returns the e-fold sum up to
      it. */
  lemma {:induction false} DoubleAndAddIsTimes<T(!new)>(g: Addition<T>, q: T, p: T, e: nat)
    requires Monoid(g) && g.on(q) && g.on(p)
    ensures Same(g, DoubleAndAdd(g.add, q, p, e), g.add(q, Times(g.add, g.id, p, e)))
  {
    hide Monoid, Same;
    if e == 0 {
      Neutral(g, q);
    } else {
      var q', p', h := if e % 2 == 1 then g.add(q, p) else q, g.add(p, p), e / 2;
      var t, t' := Times(g.add, g.id, p, 2 * h), Times(g.add, g.id, p', h);
      Closed(g, q, p);
      Closed(g, p, p);
      DoubleAndAddIsTimes(g, q', p', h);
      TimesDoubles(g, p, h);
      EqSame(g, q');
      EqAdds(g, q', q', t', t);
      EqTrans(g, DoubleAndAdd(g.add, q, p, e), g.add(q', t'), g.add(q', t));
      if e % 2 == 1 {
        TimesCloses(g, p, 2 * h);
        Associates(g, q, p, t);
        TimesTurns(g, p, 2 * h);
        EqSame(g, q);
        EqAdds(g, q, q, g.add(p, t), Times(g.add, g.id, p, e));
        EqTrans(g, g.add(g.add(q, p), t), g.add(q, g.add(p, t)), g.add(q, Times(g.add, g.id, p, e)));
        EqTrans(g, DoubleAndAdd(g.add, q, p, e), g.add(q', t), g.add(q, Times(g.add, g.id, p, e)));
      }
    }
  }

  /** Whatever relation an addition preserves between two kinds of point, the loop preserves too. */
  lemma {:induction false} DoubleAndAddPreserves<T(!new)>(add: (T, T) -> T, rel: (T, T) -> bool,
                                                           q: T, q': T, p: T, p': T, e: nat)
    requires forall a, a', b, b' :: rel(a, a') && rel(b, b') ==> rel(add(a, b), add(a', b'))
    requires rel(q, q') && rel(p, p')
    ensures rel(DoubleAndAdd(add, q, p, e), DoubleAndAdd(add, q', p', e))
  {
    if e > 0 {
      DoubleAndAddPreserves(add, rel, if e % 2 == 1 then add(q, p) else q, if e % 2 == 1 then add(q', p') else q',
                            add(p, p), add(p', p'), e / 2);
    }
  }

  // ---------------------------------------------------------------- congruence

  ghost predicate Cong(p: int, a: int, b: int) {
    exists k: int :: a == b + k * p
  }

  lemma CongBy(p: int, a: int, b: int, k: int)
    requires a == b + k * p
    ensures Cong(p, a, b)
  {}

  lemma CongRefl(p: int, a: int)
    ensures Cong(p, a, a)
  {
    CongBy(p, a, a, 0);
  }

  lemma CongMod(p: int, a: int)
    requires p > 0
    ensures Cong(p, a % p, a)
  {
    CongBy(p, a % p, a, -(a / p));
  }

  lemma CongSym(p: int, a: int, b: int)
    requires Cong(p, a, b)
    ensures Cong(p, b, a)
  {
    var k :| a == b + k * p;
    CongBy(p, b, a, -k);
  }

  lemma CongTrans(p: int, a: int, b: int, c: int)
    requires Cong(p, a, b) && Cong(p, b, c)
    ensures Cong(p, a, c)
  {
    var k :| a == b + k * p;
    var l :| b == c + l * p;
    assert (k + l) * p == k * p + l * p;
    CongBy(p, a, c, k + l);
  }

  lemma Meet(p: int, a: int, b: int, c: int)
    requires Cong(p, a, c) && Cong(p, b, c)
    ensures Cong(p, a, b)
  {
    CongSym(p, b, c);
    CongTrans(p, a, c, b);
  }

  lemma CongAdd(p: int, a: int, b: int, c: int, d: int)
    requires Cong(p, a, b) && Cong(p, c, d)
    ensures Cong(p, a + c, b + d) && Cong(p, a - c, b - d)
  {
    var k :| a == b + k * p;
    var l :| c == d + l * p;
    assert (k + l) * p == k * p + l * p && (k - l) * p == k * p - l * p;
    CongBy(p, a + c, b + d, k + l);
    CongBy(p, a - c, b - d, k - l);
  }

  lemma CongMul(p: int, a: int, b: int, c: int, d: int)
    requires Cong(p, a, b) && Cong(p, c, d)
    ensures Cong(p, a * c, b * d)
  {
    var k :| a == b + k * p;
    var l :| c == d + l * p;
    Expand(p, b, k, d, l, a);
    CongBy(p, a * c, b * d, k * d + a * l);
  }

  lemma CongTimes(p: int, k: int, a: int, b: int)
    requires Cong(p, a, b)
    ensures Cong(p, k * a, k * b)
  {
    CongRefl(p, k);
    CongMul(p, k, k, a, b);
  }

  lemma Expand(p: int, b: int, k: int, d: int, l: int, a: int)
    requires a == b + k * p
    ensures a * (d + l * p) == b * d + (k * d + a * l) * p
  {
    assert a * d == b * d + (k * d) * p by { assert (k * p) * d == (k * d) * p; }
    assert a * (l * p) == (a * l) * p;
  }

  // ---------------------------------------------------------------- projective points

  datatype Point = Point(x: int, y: int, z: int, t: int)

  /** The last lines of _edwards_add: e, f, g and h are b - a, dd - c, dd + c and b + a. */
  function Combine(p: int, a: int, b: int, c: int, dd: int): Point
    requires p > 0
  {
    var e, f, g, h := b - a, dd - c, dd + c, b + a;
    Point(e * f % p, g * h % p, f * g % p, e * h % p)
  }

  /** _edwards_add, over any positive modulus p and curve constant d. */
  function EdwardsAdd(p: int, d: int, P: Point, Q: Point): Point
    requires p > 0
  {
    var a := (P.y - P.x) * (Q.y - Q.x) % p;
    var b := (P.y + P.x) * (Q.y + Q.x) % p;
    var c := P.t * 2 * d * Q.t % p;
    Combine(p, a, b, c, P.z * 2 * Q.z % p)
  }

  const ZERO := Point(0, 1, 1, 0)

  /** The extended coordinate is kept: X*Y and Z*T agree modulo p. */
  ghost predicate Extended(p: int, P: Point) {
    Cong(p, P.x * P.y, P.z * P.t)
  }

  lemma MulMod(p: int, a: int, b: int)
    requires p > 0
    ensures Cong(p, (a % p) * (b % p), a * b)
  {
    CongMod(p, a);
    CongMod(p, b);
    CongMul(p, a % p, a, b % p, b);
  }

  lemma ProductMod(p: int, u: int, u': int, v: int, v': int, want: int)
    requires p > 0 && Cong(p, u, u') && Cong(p, v, v') && u' * v' == want
    ensures Cong(p, u * v % p, want)
  {
    CongMul(p, u, u', v, v');
    CongMod(p, u * v);
    CongTrans(p, u * v % p, u * v, want);
  }

  /** The sum in full, modulo p and reduced: twice the cross products, each over the difference or the sum of z1*z2 and
      d*t1*t2. */
  lemma AdditionLaw(p: int, d: int, P: Point, Q: Point)
    requires p > 0
    ensures
      var S, m, n := EdwardsAdd(p, d, P, Q), P.z * Q.z, d * P.t * Q.t;
      && 0 <= S.x < p && 0 <= S.y < p && 0 <= S.z < p && 0 <= S.t < p
      && Cong(p, S.x, 4 * ((P.x * Q.y + P.y * Q.x) * (m - n)))
      && Cong(p, S.y, 4 * ((P.y * Q.y + P.x * Q.x) * (m + n)))
      && Cong(p, S.z, 4 * ((m - n) * (m + n)))
      && Cong(p, S.t, 4 * ((P.x * Q.y + P.y * Q.x) * (P.y * Q.y + P.x * Q.x)))
  {
    hide Cong;
    var m, n := P.z * Q.z, d * P.t * Q.t;
    var cross, straight := P.x * Q.y + P.y * Q.x, P.y * Q.y + P.x * Q.x;
    var a, b := (P.y - P.x) * (Q.y - Q.x), (P.y + P.x) * (Q.y + Q.x);
    SumAndDifference(P.x, P.y, Q.x, Q.y);
    assert P.t * 2 * d * Q.t == 2 * n && P.z * 2 * Q.z == 2 * m;
    CongMod(p, a);
    CongMod(p, b);
    CongMod(p, 2 * n);
    CongMod(p, 2 * m);
    CongAdd(p, b % p, b, a % p, a);
    CongAdd(p, 2 * m % p, 2 * m, 2 * n % p, 2 * n);
    var e, f, g, h := b % p - a % p, 2 * m % p - 2 * n % p, 2 * m % p + 2 * n % p, b % p + a % p;
    TwiceTwice(cross, m - n);
    TwiceTwice(m + n, straight);
    TwiceTwice(m - n, m + n);
    TwiceTwice(cross, straight);
    ProductMod(p, e, 2 * cross, f, 2 * (m - n), 4 * (cross * (m - n)));
    ProductMod(p, g, 2 * (m + n), h, 2 * straight, 4 * ((m + n) * straight));
    ProductMod(p, f, 2 * (m - n), g, 2 * (m + n), 4 * ((m - n) * (m + n)));
    ProductMod(p, e, 2 * cross, h, 2 * straight, 4 * (cross * straight));
    assert (m + n) * straight == straight * (m + n);
  }

  lemma SumAndDifference(x1: int, y1: int, x2: int, y2: int)
    ensures (y1 + x1) * (y2 + x2) - (y1 - x1) * (y2 - x2) == 2 * (x1 * y2 + y1 * x2)
    ensures (y1 + x1) * (y2 + x2) + (y1 - x1) * (y2 - x2) == 2 * (y1 * y2 + x1 * x2)
  {}

  lemma TwiceTwice(u: int, v: int)
    ensures (2 * u) * (2 * v) == 4 * (u * v)
  {}

  lemma Regroup(e: int, f: int, g: int, h: int)
    ensures (e * f) * (g * h) == (f * g) * (e * h)
  {
    calc { (e * f) * (g * h); e * (f * (g * h)); e * ((f * g) * h); (f * g) * (e * h); }
  }

  /** The sum of any two quadruples satisfies the invariant. */
  lemma AddIsExtended(p: int, d: int, P: Point, Q: Point)
    requires p > 0
    ensures Extended(p, EdwardsAdd(p, d, P, Q))
  {
    var a := (P.y - P.x) * (Q.y - Q.x) % p;
    var b := (P.y + P.x) * (Q.y + Q.x) % p;
    var c := P.t * 2 * d * Q.t % p;
    var dd := P.z * 2 * Q.z % p;
    ProductsAgree(p, b - a, dd - c, dd + c, b + a);
  }

  lemma ProductsAgree(p: int, e: int, f: int, g: int, h: int)
    requires p > 0
    ensures Cong(p, (e * f % p) * (g * h % p), (f * g % p) * (e * h % p))
  {
    MulMod(p, e * f, g * h);
    MulMod(p, f * g, e * h);
    Regroup(e, f, g, h);
    var l, r := (e * f % p) * (g * h % p), (f * g % p) * (e * h % p);
    CongSym(p, r, (f * g) * (e * h));
    CongTrans(p, l, (e * f) * (g * h), r);
  }

  /** Every point the loop holds on its way, accumulator and base. */
  function Held<T>(add: (T, T) -> T, q: T, p: T, e: nat): seq<T> {
    [q, p] + if e == 0 then [] else Held(add, if e % 2 == 1 then add(q, p) else q, add(p, p), e / 2)
  }

  function AddOn(p: int, d: int): (Point, Point) -> Point
    requires p > 0
  {
    (P, Q) => EdwardsAdd(p, d, P, Q)
  }

  lemma {:induction false} HeldStay<T(!new)>(add: (T, T) -> T, on: T -> bool, q: T, p: T, e: nat)
    requires forall a, b {:trigger add(a, b)} :: on(a) && on(b) ==> on(add(a, b))
    requires on(q) && on(p)
    ensures forall P :: P in Held(add, q, p, e) ==> on(P)
    decreases e
  {
    if e > 0 { HeldStay(add, on, if e % 2 == 1 then add(q, p) else q, add(p, p), e / 2); }
  }

  lemma {:induction false} ResultIsHeld<T>(add: (T, T) -> T, q: T, p: T, e: nat)
    ensures DoubleAndAdd(add, q, p, e) in Held(add, q, p, e)
    decreases e
  {
    if e > 0 { ResultIsHeld(add, if e % 2 == 1 then add(q, p) else q, add(p, p), e / 2); }
  }

  lemma ZeroIsExtended(p: int)
    ensures Extended(p, ZERO)
  {
    CongBy(p, 0 * 1, 1 * 0, 0);
  }

  /** From its own start (0, 1, 1, 0), every point _scalarmult holds on the way satisfies the invariant exactly when the
      point it was given does; its result then does too. */
  lemma ScalarMultKeepsExtended(p: int, d: int, base: Point, e: nat)
    requires p > 0
    ensures (forall P :: P in Held(AddOn(p, d), ZERO, base, e) ==> Extended(p, P)) <==> Extended(p, base)
    ensures Extended(p, base) ==> Extended(p, DoubleAndAdd(AddOn(p, d), ZERO, base, e))
  {
    ZeroIsExtended(p);
    if Extended(p, base) {
      forall A, B ensures Extended(p, EdwardsAdd(p, d, A, B)) { AddIsExtended(p, d, A, B); }
      HeldStay(AddOn(p, d), P => Extended(p, P), ZERO, base, e);
    }
    ResultIsHeld(AddOn(p, d), ZERO, base, e);
    assert Held(AddOn(p, d), ZERO, base, e)[1] == base;
  }

  /** The points it is given: _decodepoint's result, and the reduced form of the base point _B. */
  lemma AffineIsExtended(p: int, x: int, y: int)
    requires p > 0
    ensures Extended(p, Point(x, y, 1, x * y % p)) && Extended(p, Point(x % p, y % p, 1, x * y % p))
  {
    CongMod(p, x * y);
    CongSym(p, x * y % p, x * y);
    MulMod(p, x, y);
    CongTrans(p, (x % p) * (y % p), x * y, x * y % p);
  }

  // ---------------------------------------------------------------- independence of the representative

  ghost predicate Unit(p: int, s: int) {
    exists r: int :: Cong(p, s * r, 1)
  }

  lemma UnitProduct(p: int, s: int, t: int)
    requires Unit(p, s) && Unit(p, t)
    ensures Unit(p, s * t)
  {
    var r :| Cong(p, s * r, 1);
    var u :| Cong(p, t * u, 1);
    CongMul(p, s * r, 1, t * u, 1);
    Regroup(r, s, t, u);
    assert (s * r) * (t * u) == (s * t) * (r * u);
  }

  /** Q is P with every coordinate scaled by s. */
  ghost predicate ScaledBy(p: int, P: Point, Q: Point, s: int) {
    Cong(p, Q.x, s * P.x) && Cong(p, Q.y, s * P.y) && Cong(p, Q.z, s * P.z) && Cong(p, Q.t, s * P.t)
  }

  /** Two quadruples stand for the same projective point. */
  ghost predicate SamePoint(p: int, P: Point, Q: Point) {
    exists s :: Unit(p, s) && ScaledBy(p, P, Q, s)
  }

  lemma ScaleSum(p: int, u: int, u': int, v: int, v': int, s: int)
    requires Cong(p, u', s * u) && Cong(p, v', s * v)
    ensures Cong(p, u' + v', s * (u + v)) && Cong(p, u' - v', s * (u - v))
  {
    CongAdd(p, u', s * u, v', s * v);
    assert s * u + s * v == s * (u + v) && s * u - s * v == s * (u - v);
  }

  lemma ScaleProduct(p: int, u: int, u': int, s: int, v: int, v': int, t: int)
    requires p > 0 && Cong(p, u', s * u) && Cong(p, v', t * v)
    ensures Cong(p, u' * v' % p, (s * t) * (u * v % p))
  {
    CongMul(p, u', s * u, v', t * v);
    Regroup(u, s, t, v);
    assert (s * u) * (t * v) == (s * t) * (u * v);
    CongMod(p, u' * v');
    CongTrans(p, u' * v' % p, u' * v', (s * t) * (u * v));
    CongMod(p, u * v);
    CongSym(p, u * v % p, u * v);
    CongBy(p, s * t, s * t, 0);
    CongMul(p, s * t, s * t, u * v, u * v % p);
    CongTrans(p, u' * v' % p, (s * t) * (u * v), (s * t) * (u * v % p));
  }

  lemma ScaleFactor(p: int, u: int, u': int, s: int, k: int)
    requires Cong(p, u', s * u)
    ensures Cong(p, u' * k, s * (u * k))
  {
    CongBy(p, k, k, 0);
    CongMul(p, u', s * u, k, k);
    assert (s * u) * k == s * (u * k);
  }

  /** Scaling the two operands by s and t scales their sum by (s*t)^2. */
  lemma AddScales(p: int, d: int, P: Point, P': Point, s: int, Q: Point, Q': Point, t: int)
    requires p > 0 && ScaledBy(p, P, P', s) && ScaledBy(p, Q, Q', t)
    ensures ScaledBy(p, EdwardsAdd(p, d, P, Q), EdwardsAdd(p, d, P', Q'), (s * t) * (s * t))
  {
    hide Cong;
    ScaleSum(p, P.y, P'.y, P.x, P'.x, s);
    ScaleSum(p, Q.y, Q'.y, Q.x, Q'.x, t);
    ScaleProduct(p, P.y - P.x, P'.y - P'.x, s, Q.y - Q.x, Q'.y - Q'.x, t);
    ScaleProduct(p, P.y + P.x, P'.y + P'.x, s, Q.y + Q.x, Q'.y + Q'.x, t);
    ScaleFactor(p, P.t, P'.t, s, 2);
    ScaleFactor(p, P.t * 2, P'.t * 2, s, d);
    ScaleProduct(p, P.t * 2 * d, P'.t * 2 * d, s, Q.t, Q'.t, t);
    ScaleFactor(p, P.z, P'.z, s, 2);
    ScaleProduct(p, P.z * 2, P'.z * 2, s, Q.z, Q'.z, t);
    CombineScales(p, s * t,
                  (P.y - P.x) * (Q.y - Q.x) % p, (P'.y - P'.x) * (Q'.y - Q'.x) % p,
                  (P.y + P.x) * (Q.y + Q.x) % p, (P'.y + P'.x) * (Q'.y + Q'.x) % p,
                  P.t * 2 * d * Q.t % p, P'.t * 2 * d * Q'.t % p,
                  P.z * 2 * Q.z % p, P'.z * 2 * Q'.z % p);
  }

  lemma CombineScales(p: int, s: int, a: int, a': int, b: int, b': int, c: int, c': int, dd: int, dd': int)
    requires p > 0
    requires Cong(p, a', s * a) && Cong(p, b', s * b) && Cong(p, c', s * c) && Cong(p, dd', s * dd)
    ensures ScaledBy(p, Combine(p, a, b, c, dd), Combine(p, a', b', c', dd'), s * s)
  {
    hide Cong;
    ScaleSum(p, b, b', a, a', s);
    ScaleSum(p, dd, dd', c, c', s);
    ScaleProduct(p, b - a, b' - a', s, dd - c, dd' - c', s);
    ScaleProduct(p, dd + c, dd' + c', s, b + a, b' + a', s);
    ScaleProduct(p, dd - c, dd' - c', s, dd + c, dd' + c', s);
    ScaleProduct(p, b - a, b' - a', s, b + a, b' + a', s);
  }

  lemma AddRespectsSamePoint(p: int, d: int, P: Point, P': Point, Q: Point, Q': Point)
    requires p > 0 && SamePoint(p, P, P') && SamePoint(p, Q, Q')
    ensures SamePoint(p, EdwardsAdd(p, d, P, Q), EdwardsAdd(p, d, P', Q'))
  {
    var s :| Unit(p, s) && ScaledBy(p, P, P', s);
    var t :| Unit(p, t) && ScaledBy(p, Q, Q', t);
    AddScales(p, d, P, P', s, Q, Q', t);
    UnitProduct(p, s, t);
    UnitProduct(p, s * t, s * t);
  }

  /** The point _scalarmult returns does not depend on which representative of the base it was given. */
  lemma ScalarMultRespectsSamePoint(p: int, d: int, P: Point, P': Point, e: nat)
    requires p > 0 && SamePoint(p, P, P')
    ensures SamePoint(p, DoubleAndAdd(AddOn(p, d), ZERO, P, e), DoubleAndAdd(AddOn(p, d), ZERO, P', e))
  {
    var rel := (A: Point, B: Point) => SamePoint(p, A, B);
    forall A, A', B, B' | rel(A, A') && rel(B, B') ensures rel(AddOn(p, d)(A, B), AddOn(p, d)(A', B')) {
      AddRespectsSamePoint(p, d, A, A', B, B');
    }
    assert SamePoint(p, ZERO, ZERO) by {
      CongBy(p, 1 * 1, 1, 0);
      CongBy(p, 0, 1 * 0, 0);
      CongBy(p, 1, 1 * 1, 0);
      assert Unit(p, 1) && ScaledBy(p, ZERO, ZERO, 1);
    }
    DoubleAndAddPreserves(AddOn(p, d), rel, ZERO, ZERO, P, P', e);
  }

  // ---------------------------------------------------------------- the e-fold sum, projectively

  lemma SamePointReflexive(p: int, P: Point)
    ensures SamePoint(p, P, P)
  {
    CongBy(p, 1 * 1, 1, 0);
    CongBy(p, P.x, 1 * P.x, 0);
    CongBy(p, P.y, 1 * P.y, 0);
    CongBy(p, P.z, 1 * P.z, 0);
    CongBy(p, P.t, 1 * P.t, 0);
    assert Unit(p, 1) && ScaledBy(p, P, P, 1);
  }

  lemma CongInverse(p: int, s: int, r: int, u: int, v: int)
    requires Cong(p, s * r, 1) && Cong(p, v, s * u)
    ensures Cong(p, u, r * v)
  {
    CongBy(p, r, r, 0);
    CongMul(p, r, r, v, s * u);
    CongBy(p, u, u, 0);
    CongMul(p, s * r, 1, u, u);
    assert r * (s * u) == (s * r) * u;
    CongTrans(p, r * v, (s * r) * u, 1 * u);
    CongSym(p, r * v, u);
  }

  lemma SamePointSymmetric(p: int, P: Point, Q: Point)
    requires SamePoint(p, P, Q)
    ensures SamePoint(p, Q, P)
  {
    var s :| Unit(p, s) && ScaledBy(p, P, Q, s);
    var r :| Cong(p, s * r, 1);
    CongInverse(p, s, r, P.x, Q.x);
    CongInverse(p, s, r, P.y, Q.y);
    CongInverse(p, s, r, P.z, Q.z);
    CongInverse(p, s, r, P.t, Q.t);
    assert s * r == r * s;
    assert Unit(p, r) && ScaledBy(p, Q, P, r);
  }

  lemma CongScale(p: int, u: int, v: int, w: int, s: int, t: int)
    requires Cong(p, v, s * u) && Cong(p, w, t * v)
    ensures Cong(p, w, (t * s) * u)
  {
    CongBy(p, t, t, 0);
    CongMul(p, t, t, v, s * u);
    CongTrans(p, w, t * v, t * (s * u));
    assert t * (s * u) == (t * s) * u;
  }

  lemma SamePointTransitive(p: int, P: Point, Q: Point, R: Point)
    requires SamePoint(p, P, Q) && SamePoint(p, Q, R)
    ensures SamePoint(p, P, R)
  {
    var s :| Unit(p, s) && ScaledBy(p, P, Q, s);
    var t :| Unit(p, t) && ScaledBy(p, Q, R, t);
    CongScale(p, P.x, Q.x, R.x, s, t);
    CongScale(p, P.y, Q.y, R.y, s, t);
    CongScale(p, P.z, Q.z, R.z, s, t);
    CongScale(p, P.t, Q.t, R.t, s, t);
    UnitProduct(p, t, s);
    assert Unit(p, t * s) && ScaledBy(p, P, R, t * s);
  }

  /** The sum the shared last lines give, when a, b, c and dd are those of P and (0, 1, 1, 0) up to the modulus. */
  lemma CombineWithZero(p: int, P: Point, a: int, b: int, c: int, dd: int)
    requires p > 0 && Extended(p, P) && Unit(p, 4 * P.z)
    requires Cong(p, a, P.y - P.x) && Cong(p, b, P.y + P.x) && Cong(p, c, 0) && Cong(p, dd, 2 * P.z)
    ensures SamePoint(p, P, Combine(p, a, b, c, dd))
  {
    hide Cong, Unit;
    var e, f, g, h := b - a, dd - c, dd + c, b + a;
    var s := 4 * P.z;
    CongAdd(p, b, P.y + P.x, a, P.y - P.x);
    CongAdd(p, dd, 2 * P.z, c, 0);
    Twice(P.x, P.z);
    Twice(P.y, P.z);
    Twice(P.z, P.z);
    Twice(P.x, P.y);
    ProductMod(p, e, 2 * P.x, f, 2 * P.z, s * P.x);
    ProductMod(p, g, 2 * P.z, h, 2 * P.y, s * P.y);
    ProductMod(p, f, 2 * P.z, g, 2 * P.z, s * P.z);
    ProductMod(p, e, 2 * P.x, h, 2 * P.y, 4 * (P.x * P.y));
    ScaleExtended(p, P);
    CongTrans(p, e * h % p, 4 * (P.x * P.y), s * P.t);
    assert ScaledBy(p, P, Combine(p, a, b, c, dd), s);
  }

  lemma Twice(u: int, v: int)
    ensures (2 * u) * (2 * v) == (2 * v) * (2 * u) == (4 * v) * u == 4 * (u * v)
  {}

  lemma ScaleExtended(p: int, P: Point)
    requires Extended(p, P)
    ensures Cong(p, 4 * (P.x * P.y), (4 * P.z) * P.t)
  {
    CongBy(p, 4, 4, 0);
    CongMul(p, 4, 4, P.x * P.y, P.z * P.t);
    assert 4 * (P.z * P.t) == (4 * P.z) * P.t;
  }

  /** Adding (0, 1, 1, 0), on either side, scales a point by 4z: it leaves the projective point alone. */
  lemma ZeroIsIdentity(p: int, d: int, P: Point)
    requires p > 0 && Extended(p, P) && Unit(p, 4 * P.z)
    ensures SamePoint(p, P, EdwardsAdd(p, d, P, ZERO)) && SamePoint(p, P, EdwardsAdd(p, d, ZERO, P))
  {
    CongMod(p, P.y - P.x);
    CongMod(p, P.y + P.x);
    CongMod(p, 0);
    CongMod(p, 2 * P.z);
    assert P.t * 2 * d * 0 == 0 && 0 * 2 * d * P.t == 0;
    CombineWithZero(p, P, (P.y - P.x) % p, (P.y + P.x) % p, 0 % p, 2 * P.z % p);
    assert EdwardsAdd(p, d, P, ZERO) == Combine(p, (P.y - P.x) % p, (P.y + P.x) % p, 0 % p, 2 * P.z % p);
    assert EdwardsAdd(p, d, ZERO, P) == Combine(p, (P.y - P.x) % p, (P.y + P.x) % p, 0 % p, 2 * P.z % p);
  }

  /** The quadruple does move: doubling the loop's own start does not give it back, so that no law of this addition
      holds of quadruples as they stand. */
  lemma ZeroMoves(p: int, d: int)
    requires p > 4
    ensures EdwardsAdd(p, d, ZERO, ZERO) == Point(0, 4, 4, 0)
  {
    SmallRemainders(p);
    assert 0 * 2 * d * 0 == 0;
  }

  lemma SmallRemainders(p: int)
    requires p > 4
    ensures 0 % p == 0 && 1 % p == 1 && 2 % p == 2 && 4 % p == 4
  {}

  ghost predicate Proper(p: int, on: Point -> bool) {
    forall Q {:trigger on(Q)} :: on(Q) ==> Extended(p, Q) && Unit(p, 4 * Q.z)
  }

  /** A set of extended points with invertible 4z that the addition never leaves, and on which it is associative as far
      as the projective points go. */
  ghost predicate Associative(p: int, d: int, on: Point -> bool)
    requires p > 0
  {
    && on(ZERO) && Proper(p, on)
    && (forall A, B {:trigger EdwardsAdd(p, d, A, B)} :: on(A) && on(B) ==> on(EdwardsAdd(p, d, A, B)))
    && (forall A, B, C {:trigger EdwardsAdd(p, d, EdwardsAdd(p, d, A, B), C)} :: on(A) && on(B) && on(C) ==>
          SamePoint(p, EdwardsAdd(p, d, EdwardsAdd(p, d, A, B), C), EdwardsAdd(p, d, A, EdwardsAdd(p, d, B, C))))
  }

  ghost function Projectively(p: int, d: int, on: Point -> bool): Addition<Point>
    requires p > 0
  {
    Addition(AddOn(p, d), ZERO, (A, B) => SamePoint(p, A, B), on)
  }

  lemma SamePointEquivalence(p: int, d: int, on: Point -> bool)
    requires p > 0
    ensures Equivalence(Projectively(p, d, on))
  {
    hide SamePoint;
    forall A ensures SamePoint(p, A, A) { SamePointReflexive(p, A); }
    forall A, B | SamePoint(p, A, B) ensures SamePoint(p, B, A) { SamePointSymmetric(p, A, B); }
    forall A, B, C | SamePoint(p, A, B) && SamePoint(p, B, C) ensures SamePoint(p, A, C) {
      SamePointTransitive(p, A, B, C);
    }
  }

  lemma SamePointRespected(p: int, d: int, on: Point -> bool)
    requires p > 0
    ensures Respected(Projectively(p, d, on))
  {
    hide SamePoint, EdwardsAdd;
    forall A, A', B, B' | SamePoint(p, A, A') && SamePoint(p, B, B')
      ensures SamePoint(p, EdwardsAdd(p, d, A, B), EdwardsAdd(p, d, A', B'))
    {
      AddRespectsSamePoint(p, d, A, A', B, B');
    }
  }

  lemma ZeroIdentityLaw(p: int, d: int, on: Point -> bool)
    requires p > 0 && Proper(p, on)
    ensures IdentityLaw(Projectively(p, d, on))
  {
    hide SamePoint, EdwardsAdd, Extended, Unit;
    forall A | on(A) ensures SamePoint(p, EdwardsAdd(p, d, A, ZERO), A) && SamePoint(p, EdwardsAdd(p, d, ZERO, A), A) {
      ZeroIsIdentity(p, d, A);
      SamePointSymmetric(p, A, EdwardsAdd(p, d, A, ZERO));
      SamePointSymmetric(p, A, EdwardsAdd(p, d, ZERO, A));
    }
  }

  lemma SetStaysOn(p: int, d: int, on: Point -> bool)
    requires p > 0 && Associative(p, d, on)
    ensures StaysOn(Projectively(p, d, on))
  {
    hide SamePoint, EdwardsAdd, Extended, Unit;
  }

  lemma SetAssociates(p: int, d: int, on: Point -> bool)
    requires p > 0 && Associative(p, d, on)
    ensures AssociativeLaw(Projectively(p, d, on))
  {
    hide SamePoint, EdwardsAdd, Extended, Unit;
  }

  lemma SetIsProper(p: int, d: int, on: Point -> bool)
    requires p > 0 && Associative(p, d, on)
    ensures on(ZERO) && Proper(p, on)
  {}

  lemma EdwardsMonoid(p: int, d: int, on: Point -> bool)
    requires p > 0 && Associative(p, d, on)
    ensures Monoid(Projectively(p, d, on))
  {
    hide Associative, Proper, Projectively, StaysOn, Equivalence, Respected, AssociativeLaw, IdentityLaw;
    SetStaysOn(p, d, on);
    SamePointEquivalence(p, d, on);
    SamePointRespected(p, d, on);
    SetAssociates(p, d, on);
    SetIsProper(p, d, on);
    ZeroIdentityLaw(p, d, on);
  }

  // ---------------------------------------------------------------- packing a point into 32 bytes

  type bit = x: int | 0 <= x < 2

  /** The affine half of _encodepoint: 255 bits of y, then the low bit of x. */
  function YBits(y: nat, k: nat): (b: seq<bit>)
    ensures |b| == k
  {
    seq(k, i requires 0 <= i < k => PowPositive(2, i); y / Pow(2, i) % 2)
  }

  function PointBits(x: nat, y: nat): (b: seq<bit>)
    ensures |b| == 256
  {
    YBits(y, 255) + [x % 2]
  }

  /** Eight bits, least significant first; they fit a byte, so Python's bytes(..) never raises on them. */
  function ByteOf(b: seq<bit>): byte
    requires |b| == 8
  {
    var d: seq<int> := b;
    d[0] + 2 * d[1] + 4 * d[2] + 8 * d[3] + 16 * d[4] + 32 * d[5] + 64 * d[6] + 128 * d[7]
  }

  function BytesOf(bits: seq<bit>, n: nat): (b: bytes)
    requires |bits| == 8 * n
    ensures |b| == n
  {
    seq(n, i requires 0 <= i < n => ByteOf(bits[8 * i..8 * i + 8]))
  }

  /** The 32 bytes of an affine point. */
  function Pack(x: nat, y: nat): (b: bytes)
    ensures |b| == 32
  {
    BytesOf(PointBits(x, y), 32)
  }

  /** int.from_bytes(b, "little"). */
  function FromLittleEndian(b: bytes): nat {
    if b == [] then 0 else b[0] + 256 * FromLittleEndian(b[1..])
  }

  function BitsValue(b: seq<bit>): nat {
    if b == [] then 0 else b[0] + 2 * BitsValue(b[1..])
  }

  lemma EightBits(b: seq<bit>)
    requires |b| >= 8
    ensures BitsValue(b) == ByteOf(b[..8]) + 256 * BitsValue(b[8..])
  {
    assert BitsValue(b) == b[0] + 2 * BitsValue(b[1..]);
    assert b[1..][1..] == b[2..] && b[2..][1..] == b[3..] && b[3..][1..] == b[4..] && b[4..][1..] == b[5..];
    assert b[5..][1..] == b[6..] && b[6..][1..] == b[7..] && b[7..][1..] == b[8..];
    assert BitsValue(b[1..]) == b[1] + 2 * BitsValue(b[2..]);
    assert BitsValue(b[2..]) == b[2] + 2 * BitsValue(b[3..]);
    assert BitsValue(b[3..]) == b[3] + 2 * BitsValue(b[4..]);
    assert BitsValue(b[4..]) == b[4] + 2 * BitsValue(b[5..]);
    assert BitsValue(b[5..]) == b[5] + 2 * BitsValue(b[6..]);
    assert BitsValue(b[6..]) == b[6] + 2 * BitsValue(b[7..]);
    assert BitsValue(b[7..]) == b[7] + 2 * BitsValue(b[8..]);
  }

  /** Reading the packed bytes back as a number gives the number the bits spell. */
  lemma {:induction false} BytesKeepValue(bits: seq<bit>, n: nat)
    requires |bits| == 8 * n
    ensures FromLittleEndian(BytesOf(bits, n)) == BitsValue(bits)
  {
    if n > 0 {
      EightBits(bits);
      BytesKeepValue(bits[8..], n - 1);
      var b, tail := BytesOf(bits, n), BytesOf(bits[8..], n - 1);
      forall i | 0 <= i < n - 1 ensures b[1..][i] == tail[i] {
        assert bits[8..][8 * i..8 * i + 8] == bits[8 * (i + 1)..8 * (i + 1) + 8];
      }
      assert b[1..] == tail;
    }
  }

  lemma AtLeastOneMore(b: int, q: int, q': int)
    requires b > 0 && q < q'
    ensures b * q' >= b * q + b
  {
    var k := q' - q - 1;
    assert q' == q + 1 + k;
    assert b * (q + 1 + k) == b * q + b + b * k;
    assert b * k >= 0;
  }

  lemma QuotientUnique(b: int, q: int, r: int, q': int, r': int)
    requires 0 <= r < b && 0 <= r' < b && b * q + r == b * q' + r'
    ensures q == q' && r == r'
  {
    if q < q' { AtLeastOneMore(b, q, q'); }
    if q' < q { AtLeastOneMore(b, q', q); }
  }

  lemma DivUnique(a: int, b: int, q: int, r: int)
    requires b > 0 && 0 <= r < b && a == b * q + r
    ensures a / b == q && a % b == r
  {
    var q', r' := a / b, a % b;
    assert a == b * q' + r';
    QuotientUnique(b, q, r, q', r');
  }

  /** Dividing by 2m is halving, then dividing by m. */
  lemma Halve(y: nat, m: nat)
    requires m > 0
    ensures y / (2 * m) == (y / 2) / m && y % (2 * m) == 2 * ((y / 2) % m) + y % 2
  {
    var q, r := (y / 2) / m, (y / 2) % m;
    assert y / 2 == m * q + r;
    assert (2 * m) * q == 2 * (m * q);
    DivUnique(y, 2 * m, q, 2 * r + y % 2);
  }

  /** The k low bits of y spell y modulo 2^k. */
  lemma {:induction false} YBitsValue(y: nat, k: nat)
    ensures Pow(2, k) > 0 && BitsValue(YBits(y, k)) == y % Pow(2, k)
  {
    PowPositive(2, k);
    if k > 0 {
      YBitsValue(y / 2, k - 1);
      YBitsTail(y, k);
      Halve(y, Pow(2, k - 1));
    }
  }

  lemma YBitsTail(y: nat, k: nat)
    requires k > 0
    ensures YBits(y, k)[0] == y % 2 && YBits(y, k)[1..] == YBits(y / 2, k - 1)
  {
    forall i | 0 <= i < k - 1 ensures YBits(y, k)[1..][i] == YBits(y / 2, k - 1)[i] {
      PowPositive(2, i);
      Halve(y, Pow(2, i));
    }
  }

  lemma {:induction false} BitsValueSnoc(b: seq<bit>, c: bit)
    ensures BitsValue(b + [c]) == BitsValue(b) + Pow(2, |b|) * c
  {
    if b == [] {
      assert b + [c] == [c] && BitsValue([c][1..]) == 0;
    } else {
      assert (b + [c])[1..] == b[1..] + [c];
      BitsValueSnoc(b[1..], c);
      assert 2 * (Pow(2, |b| - 1) * c) == Pow(2, |b|) * c;
    }
  }

  /** _decodepoint's mask and shift undo the packing: the low 255 bits are y, the top bit is the parity of x. */
  lemma PackRoundTrip(x: nat, y: nat)
    requires y < Pow(2, 255)
    ensures
      var n, m := FromLittleEndian(Pack(x, y)), Pow(2, 255);
      m > 0 && n % m == y && n / m == x % 2
  {
    var m := Pow(2, 255);
    BytesKeepValue(PointBits(x, y), 32);
    BitsValueSnoc(YBits(y, 255), x % 2);
    YBitsValue(y, 255);
    DivUnique(y, m, 0, y);
    DivUnique(y + m * (x % 2), m, x % 2, y);
  }
}
