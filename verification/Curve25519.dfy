/** The curve check against Curve25519 itself: acceptance said of the Montgomery curve, without the Edwards constant. */
module Curve25519 {
  import opened Wrappers
  import opened Bytes
  import opened Arithmetic
  import opened Modular
  import opened Residues
  import opened Montgomery

  // ---- congruences ----

  /** The residue that congruent numbers share. */
  function Res(p: nat, a: int): nat
    requires p > 0
  {
    a % p
  }

  lemma ResSum(p: nat, a: int, b: int, c: int, e: int)
    requires p > 0 && Res(p, a) == Res(p, b) && Res(p, c) == Res(p, e)
    ensures Res(p, a + c) == Res(p, b + e) && Res(p, a - c) == Res(p, b - e)
  {
    EqualMods(a, b, p);
    EqualMods(c, e, p);
    DividesSub(p, a - b, c - e);
    DividesMul(p, c - e, -1);
    DividesSub(p, a - b, -1 * (c - e));
    ModSub(a + c, b + e, p);
    ModSub(a - c, b - e, p);
  }

  lemma ResProduct(p: nat, a: int, b: int, c: int, e: int)
    requires p > 0 && Res(p, a) == Res(p, b) && Res(p, c) == Res(p, e)
    ensures Res(p, a * c) == Res(p, b * e)
  {
    ModMul(a, c, p);
    ModMul(b, c, p);
    ModMul(b, e, p);
  }

  lemma ResIdempotent(p: nat, a: int)
    requires p > 0
    ensures Res(p, a % p) == Res(p, a)
  {
    ModUnique(a % p, p, 0, a % p);
  }

  // ---- the constant ----

  /** The code's constant is -121665 / 121666. */
  lemma EdwardsDSolves(p: nat)
    requires Prime(p) && p > 121666
    ensures (EdwardsD(p) * 121666 + 121665) % p == 0
  {
    hide PowMod;
    var inv: int := PowMod(121666, p - 2, p);
    SmallIsNotDivided(p, 121666);
    Inverse(p, 121666);
    ModMul(-121665 * inv, 121666, p);
    MulAssoc(-121665, inv, 121666);
    assert inv * 121666 == 121666 * inv;
    ModMul(-121665, 121666 * inv, p);
    ModSub(EdwardsD(p) * 121666, -121665, p);
  }

  // ---- from one curve to the other ----

  /** The right-hand side of Curve25519's equation, `u^3 + 486662 u^2 + u` (section 4.1 of RFC 7748). */
  function CurveSide(u: int): int {
    u * u * u + 486662 * (u * u) + u
  }

  function Quadratic(u: int): int {
    u * u + 486662 * u + 1
  }

  lemma Squares(u: int)
    ensures (u + 1) * (u + 1) == u * u + 2 * u + 1
    ensures (u - 1) * (u - 1) == u * u - 2 * u + 1
  {
    MulDistr(u, 1, u + 1);
    MulDistr(u, 1, u);
    MulDistr(u, 1, u - 1);
  }

  lemma SideFactors(u: int)
    ensures CurveSide(u) == u * Quadratic(u)
  {
    MulDistr(u * u, 486662 * u, u);
    MulDistr(u * u + 486662 * u, 1, u);
    MulAssoc(u, u, u);
    MulAssoc(486662, u, u);
    assert (486662 * u) * u == u * (486662 * u);
  }

  /** The square of y, scaled by the square of `u + 1`. */
  lemma ScaledY(p: nat, y: nat, u: int)
    requires p > 0 && Res(p, y * (u + 1)) == Res(p, u - 1)
    ensures Res(p, ((y * y) % p) * ((u + 1) * (u + 1))) == Res(p, (u - 1) * (u - 1))
  {
    hide Res;
    var w := u + 1;
    ResProduct(p, y * w, u - 1, y * w, u - 1);
    SquareOfProduct(y, w);
    ResIdempotent(p, y * y);
    ResProduct(p, (y * y) % p, y * y, w * w, w * w);
  }

  /** The numerator scaled alike is `-4 u`. */
  lemma ScaledNumerator(p: nat, yy: int, u: int)
    requires p > 0 && Res(p, yy * ((u + 1) * (u + 1))) == Res(p, (u - 1) * (u - 1))
    ensures Res(p, (yy - 1) * ((u + 1) * (u + 1))) == Res(p, -4 * u)
  {
    hide Res;
    var ww := (u + 1) * (u + 1);
    MulDistr(yy, 1, ww);
    ResSum(p, yy * ww, (u - 1) * (u - 1), ww, ww);
    Squares(u);
  }

  /** ... and 121666 times the denominator is the quadratic. */
  lemma ScaledDenominator(p: nat, d: int, yy: int, u: int)
    requires p > 0 && Res(p, yy * ((u + 1) * (u + 1))) == Res(p, (u - 1) * (u - 1))
    requires Res(p, d * 121666) == Res(p, -121665)
    ensures Res(p, (121666 * (d * yy + 1)) * ((u + 1) * (u + 1))) == Res(p, Quadratic(u))
  {
    hide Res;
    var ww, zz := (u + 1) * (u + 1), (u - 1) * (u - 1);
    assert (121666 * (d * yy + 1)) * ww == (d * 121666) * (yy * ww) + 121666 * ww by {
      MulDistr(d * yy, 1, 121666);
      MulDistr(121666 * (d * yy), 121666, ww);
      assert 121666 * (d * yy) == (d * 121666) * yy by { MulAssoc(d, 121666, yy); MulAssoc(121666, d, yy); }
      MulAssoc(d * 121666, yy, ww);
    }
    ResProduct(p, d * 121666, -121665, yy * ww, zz);
    ResSum(p, (d * 121666) * (yy * ww), -121665 * zz, 121666 * ww, 121666 * ww);
    Squares(u);
  }

  lemma Gather(n: int, m: int, ww: int)
    ensures 121666 * ((n * ww) * ((121666 * m) * ww)) == ((121666 * ww) * (121666 * ww)) * (n * m)
  {
    var a := 121666;
    calc {
      a * ((n * ww) * ((a * m) * ww));
    == { MulAssoc(n * ww, a * m, ww); }
      a * (((n * ww) * (a * m)) * ww);
    == { assert (n * ww) * (a * m) == (a * ww) * (n * m) by { Shuffle(n, ww, a, m); } }
      a * (((a * ww) * (n * m)) * ww);
    == { assert ((a * ww) * (n * m)) * ww == ww * ((a * ww) * (n * m)); MulAssoc(ww, a * ww, n * m); }
      a * ((ww * (a * ww)) * (n * m));
    == { MulAssoc(a, ww * (a * ww), n * m); MulAssoc(a, ww, a * ww); }
      ((a * ww) * (a * ww)) * (n * m);
    }
  }

  lemma Shuffle(n: int, w: int, a: int, m: int)
    ensures (n * w) * (a * m) == (a * w) * (n * m)
  {
    MulAssoc(n, w, a * m);
    MulAssoc(w, a, m);
    MulAssoc(n, w * a, m);
    assert n * (w * a) == (w * a) * n && w * a == a * w;
    MulAssoc(a * w, n, m);
  }

  /** Curve25519's side, as it must scale to be a square, is the product of the Edwards numerator and denominator up to
      a square. */
  lemma SideIsProduct(p: nat, d: int, y: nat, u: int)
    requires p > 0 && Res(p, y * (u + 1)) == Res(p, u - 1) && Res(p, d * 121666) == Res(p, -121665)
    ensures var yy, k := (y * y) % p, 121666 * ((u + 1) * (u + 1));
      Res(p, -486664 * CurveSide(u)) == Res(p, (k * k) * ((yy - 1) * (d * yy + 1)))
  {
    hide Res, CurveSide, Quadratic;
    var yy, ww := (y * y) % p, (u + 1) * (u + 1);
    var n, m := yy - 1, d * yy + 1;
    ScaledY(p, y, u);
    ScaledNumerator(p, yy, u);
    ScaledDenominator(p, d, yy, u);
    ResProduct(p, n * ww, -4 * u, (121666 * m) * ww, Quadratic(u));
    ResProduct(p, 121666, 121666, (n * ww) * ((121666 * m) * ww), (-4 * u) * Quadratic(u));
    Gather(n, m, ww);
    SideFactors(u);
    MulAssoc(-4, u, Quadratic(u));
  }

  // ---- squares ----

  /** A number times a square is a square exactly if the number is. */
  lemma ScaledSquare(p: nat, k: int, s: nat, r: nat)
    requires Prime(p) && !Divides(p, k) && Res(p, r) == Res(p, (k * k) * s)
    ensures IsSquare(p, s) <==> IsSquare(p, r)
  {
    hide *;
    assert p >= 1 by { PrimeIsPositive(p); }
    if IsSquare(p, s) {
      var x := SquareRoot(p, s);
      ResIdempotent(p, k);
      RootTimes(p, k % p, k, x, s, r);
    }
    if IsSquare(p, r) {
      var x := SquareRoot(p, r);
      var inv := InverseOf(p, k);
      InverseScales(p, k, inv, s, r);
      RootTimes(p, inv, inv, x, r, s);
    }
  }

  lemma PrimeIsPositive(p: nat)
    requires Prime(p)
    ensures p >= 2
  {
  }

  lemma InverseOf(p: nat, k: int) returns (inv: nat)
    requires Prime(p) && !Divides(p, k)
    ensures Res(p, k * inv) == Res(p, 1)
  {
    hide PowMod;
    inv := PowMod(k % p, p - 2, p);
    ModUnique(k % p, p, 0, k % p);
    Inverse(p, k % p);
    ModMul(k, PowMod(k % p, p - 2, p), p);
    ModUnique(1, p, 0, 1);
  }

  lemma InverseScales(p: nat, k: int, inv: nat, s: nat, r: nat)
    requires p > 0 && Res(p, k * inv) == Res(p, 1) && Res(p, r) == Res(p, (k * k) * s)
    ensures Res(p, s) == Res(p, (inv * inv) * r)
  {
    hide Res;
    ResProduct(p, k * inv, 1, k * inv, 1);
    SquareOfProduct(k, inv);
    ResProduct(p, (k * k) * (inv * inv), 1, s, s);
    ResProduct(p, inv * inv, inv * inv, r, (k * k) * s);
    MulAssoc(inv * inv, k * k, s);
    assert (inv * inv) * (k * k) == (k * k) * (inv * inv);
  }

  lemma RootTimes(p: nat, h: nat, k: int, x: nat, s: nat, r: nat)
    requires p > 0 && Res(p, h) == Res(p, k) && IsRoot(p, s, x) && Res(p, r) == Res(p, (k * k) * s)
    ensures IsSquare(p, r)
  {
    var z := (h * x) % p;
    ResIdempotent(p, h * x);
    ResProduct(p, z, h * x, z, h * x);
    SquareOfProduct(h, x);
    ResProduct(p, h, k, h, k);
    ResProduct(p, h * h, k * k, x * x, s);
    assert IsRoot(p, r, z);
  }

  lemma SquareByResidue(p: nat, a: nat, b: nat)
    requires p > 0 && Res(p, a) == Res(p, b)
    ensures IsSquare(p, a) <==> IsSquare(p, b)
  {
    if IsSquare(p, a) {
      var x := SquareRoot(p, a);
      assert IsRoot(p, b, x);
    }
    if IsSquare(p, b) {
      var x := SquareRoot(p, b);
      assert IsRoot(p, a, x);
    }
  }

  // ---- the check ----

  /** The check passes exactly when its squared x is a square. */
  lemma PassesWhenSquare(p: nat, d: nat, y: nat)
    requires Prime(p) && p % 2 == 1 && p > 2
    ensures PassesCurveCheck(p, d, y) <==> IsSquare(p, XSquared(p, d, y))
  {
    hide PowMod, XSquared;
    var s := XSquared(p, d, y);
    if PassesCurveCheck(p, d, y) {
      PassingIsSquare(p, s);
    }
    if IsSquare(p, s) {
      var x := SquareRoot(p, s);
      XSquaredBelow(p, d, y);
      ModUnique(s, p, 0, s);
      SquarePasses(p, x, s);
    }
  }

  lemma XSquaredBelow(p: nat, d: nat, y: nat)
    requires p >= 2
    ensures XSquared(p, d, y) < p
  {
  }

  lemma XSquaredSolves(p: nat, d: nat, y: nat)
    requires Prime(p) && !Divides(p, d * ((y * y) % p) + 1)
    ensures Res(p, XSquared(p, d, y) * (d * ((y * y) % p) + 1)) == Res(p, (y * y) % p - 1)
  {
    hide PowMod;
    QuotientSolves(p, (y * y) % p - 1, d * ((y * y) % p) + 1);
  }

  lemma NotDividedProduct(p: nat, a: nat, b: nat)
    requires Prime(p) && !Divides(p, a) && !Divides(p, b)
    ensures !Divides(p, a * b)
  {
    if Divides(p, a * b) {
      Euclid(p, a, b);
    }
  }

  lemma ScaleByDenominator(p: nat, k: int, n: int, m: int, s: int)
    requires p > 0 && Res(p, s * m) == Res(p, n)
    ensures Res(p, (k * k) * (n * m)) == Res(p, ((k * m) * (k * m)) * s)
  {
    hide Res;
    ResProduct(p, s * m, n, m, m);
    ResProduct(p, k * k, k * k, (s * m) * m, n * m);
    SquareOfProduct(k, m);
    MulAssoc(s, m, m);
    MulAssoc(k * k, m * m, s);
    assert s * (m * m) == (m * m) * s;
  }

  lemma ZeroSide(p: nat, k: int, n: int, m: int)
    requires p > 0 && Divides(p, m)
    ensures Res(p, (k * k) * (n * m)) == 0
  {
    DividesMul(p, m, n);
    DividesMul(p, n * m, k * k);
  }

  /** With the constant fixed by its equation, a y other than 1 passes exactly when Curve25519's side at its u, scaled
      by -486664, is a square: x is then sqrt(-486664) u / v. */
  lemma PassesOnCurve25519(p: nat, d: nat, y: nat, u: nat)
    requires Prime(p) && p % 2 == 1 && p > 121666 && y < p && (d * 121666 + 121665) % p == 0
    requires IsU(p, y, u)
    ensures PassesCurveCheck(p, d, y) <==> IsSquare(p, (-486664 * CurveSide(u)) % p)
  {
    hide PowMod, PassesCurveCheck, XSquared, CurveSide, IsU, Prime;
    assert p >= 2 && p > 2;
    var yy, w := (y * y) % p, u + 1;
    var k, m := 121666 * (w * w), d * yy + 1;
    var s, r := XSquared(p, d, y), (-486664 * CurveSide(u)) % p;
    PassesWhenSquare(p, d, y);
    FromU(p, y, u);
    ConstantResidue(p, d);
    SideIsProduct(p, d, y, u);
    ResIdempotent(p, -486664 * CurveSide(u));
    SideDecides(p, d, y, u, k, s, r);
  }

  lemma FromU(p: nat, y: nat, u: nat)
    requires p > 1 && Prime(p) && IsU(p, y, u)
    ensures Res(p, y * (u + 1)) == Res(p, u - 1)
  {
    InverseEquation(p, y, u);
    ModSub(y * (u + 1), u - 1, p);
  }

  lemma ConstantResidue(p: nat, d: nat)
    requires p > 0 && (d * 121666 + 121665) % p == 0
    ensures Res(p, d * 121666) == Res(p, -121665)
  {
    ModSub(d * 121666, -121665, p);
  }

  lemma SideDecides(p: nat, d: nat, y: nat, u: nat, k: nat, s: nat, r: nat)
    requires p > 121666 && Prime(p) && IsU(p, y, u)
    requires s == XSquared(p, d, y) && k == 121666 * ((u + 1) * (u + 1))
    requires Res(p, r) == Res(p, (k * k) * (((y * y) % p - 1) * (d * ((y * y) % p) + 1)))
    ensures IsSquare(p, s) <==> IsSquare(p, r)
  {
    hide XSquared, IsSquare, Res, PowMod;
    var n, m := (y * y) % p - 1, d * ((y * y) % p) + 1;
    if Divides(p, m) {
      ZeroDenominator(p, d, y);
      ZeroSide(p, k, n, m);
      ZeroResidue(p);
      SquareByResidue(p, s, r);
    } else {
      XSquaredSolves(p, d, y);
      ScaleByDenominator(p, k, n, m, s);
      SuccessorInvertible(p, y, u);
      SmallIsNotDivided(p, 121666);
      NotDividedProduct(p, u + 1, u + 1);
      NotDividedProduct(p, 121666, (u + 1) * (u + 1));
      NotDividedProduct(p, k, m);
      ScaledSquare(p, k * m, s, r);
    }
  }

  lemma ZeroResidue(p: nat)
    requires p > 0
    ensures Res(p, 0) == 0
  {
    ModUnique(0, p, 0, 0);
  }

  /** `montgomery_u` at its own constants: a canonical y other than 1, with u the solution of `u (1 - y) = 1 + y`, is
      accepted exactly when `-486664 (u^3 + 486662 u^2 + u)` is a square below 2^255 - 19. */
  lemma AcceptsCurve25519(point: bytes, u: nat)
    requires Prime(P25519) && YOf(point) < P25519 && IsU(P25519, YOf(point), u)
    ensures MontgomeryU(point).Ok? <==> IsSquare(P25519, (-486664 * CurveSide(u)) % P25519)
  {
    hide Prime, IsU, IsSquare, EdwardsD, PassesCurveCheck, CurveSide, MapY, FromLittle, ToLittle;
    EdwardsDSolves(P25519);
    PassesOnCurve25519(P25519, EdwardsD(P25519), YOf(point), u);
  }

  /** Which refusal: one for a y that is no canonical number, the other for one that is on no point. */
  lemma RefusedPoints(point: bytes)
    ensures MontgomeryU(point) == Err(NonCanonical) <==> YOf(point) >= P25519
    ensures MontgomeryU(point) == Err(OffCurve) <==> YOf(point) < P25519 && MontgomeryU(point).Err?
  {
    hide YOf, EdwardsD, PassesCurveCheck, MapY, ToLittle;
  }

  /** d is -121665 / 121666. */
  ghost predicate IsEdwardsConstant(p: nat, d: nat)
    requires p > 0
  {
    d < p && (d * 121666 + 121665) % p == 0
  }

  /** The equation leaves only one constant. */
  lemma OneConstant(p: nat, d: nat)
    requires Prime(p) && p > 121666 && IsEdwardsConstant(p, d)
    ensures d == EdwardsD(p)
  {
    hide PowMod;
    EdwardsDSolves(p);
    ModSub(d * 121666, -121665, p);
    ModSub(EdwardsD(p) * 121666, -121665, p);
    assert 121666 * d == d * 121666 && 121666 * EdwardsD(p) == EdwardsD(p) * 121666;
    OneMate(p, 121666, d, EdwardsD(p));
  }

  /** On the Edwards side: with `d` the solution of `121666 d = -121665`, and no square, exactly the points whose y is
      canonical and has an x on `-x^2 + y^2 = 1 + d x^2 y^2` are accepted. */
  lemma MontgomeryUAcceptsPoints(point: bytes, d: nat)
    requires Prime(P25519) && IsEdwardsConstant(P25519, d) && !IsSquare(P25519, d)
    ensures MontgomeryU(point).Ok?
       <==> YOf(point) < P25519 && exists x: nat :: x < P25519 && OnCurve(P25519, d, x, YOf(point))
  {
    hide *;
    ByConstant(point);
    ModulusOf25519();
    AcceptsEdwards(P25519, d, YOf(point));
  }

  lemma ModulusOf25519()
    ensures P25519 > 121666 && P25519 % 4 == 1
  {
  }

  lemma AcceptsEdwards(p: nat, d: nat, y: nat)
    requires p > 121666 && p % 4 == 1 && Prime(p) && IsEdwardsConstant(p, d) && !IsSquare(p, d)
    ensures y < p ==> (UOfY(p, EdwardsD(p), y).Ok? <==> exists x: nat :: x < p && OnCurve(p, d, x, y))
  {
    hide *;
    OneConstant(p, d);
    if y < p {
      AcceptedExactlyOnCurve(p, d, y);
    }
  }

  lemma ByConstant(point: bytes)
    ensures MontgomeryU(point).Ok? <==> UOfY(P25519, EdwardsD(P25519), YOf(point)).Ok?
    ensures MontgomeryU(point).Ok? ==> YOf(point) < P25519
  {
    hide YOf, EdwardsD, PassesCurveCheck, MapY, ToLittle;
  }

  // ---- the bytes of a point ----

  function Reversed(b: bytes): (r: bytes)
    ensures |r| == |b|
  {
    if b == [] then [] else Reversed(b[1..]) + [b[0]]
  }

  /** The bytes of a point are a number least significant byte first. */
  lemma {:induction false} LittleIsReversed(b: bytes)
    ensures FromLittle(b) == FromBytes(Reversed(b))
  {
    if b != [] {
      LittleIsReversed(b[1..]);
      assert Reversed(b)[..|b| - 1] == Reversed(b[1..]);
    }
  }

  lemma {:induction false} LittleTop(a: bytes, top: byte)
    ensures FromLittle(a + [top]) == FromLittle(a) + top * Pow256(|a|)
  {
    if a == [] {
      assert [top][1..] == a;
    } else {
      assert (a + [top])[1..] == a[1..] + [top];
      LittleTop(a[1..], top);
      MulAssoc(256, top, Pow256(|a| - 1));
      MulAssoc(top, 256, Pow256(|a| - 1));
    }
  }

  /** The modulus is 2^255 - 19, and the sign bit is the top one of 32 bytes. */
  lemma SizesOf25519()
    ensures P25519 + 19 == SIGN_BIT && 2 * SIGN_BIT == Pow256(32) && SIGN_BIT == 128 * Pow256(31)
  {
    assert Pow256(4) == 0x1_0000_0000;
    assert Pow256(8) == 0x1_0000_0000_0000_0000 by { assert Pow256(6) == 0x1_0000_0000_0000; }
    MorePow256(8, 0x1_0000_0000_0000_0000);
    MorePow256(16, 0x1_0000_0000_0000_0000_0000_0000_0000_0000);
    MorePow256(24, 0x1_0000_0000_0000_0000_0000_0000_0000_0000_0000_0000_0000_0000);
    assert Pow256(32) == 256 * Pow256(31);
  }

  /** Of 32 bytes the sign bit of x is not read: y is what the others spell. */
  lemma SignIsNotRead(rest: bytes, top: byte)
    requires |rest| == 31 && top < 128
    ensures YOf(rest + [top]) == FromLittle(rest + [top])
    ensures MontgomeryU(rest + [top + 128]) == MontgomeryU(rest + [top])
  {
    hide *;
    LittleTop(rest, top);
    LittleTop(rest, top + 128);
    SizesOf25519();
    LittleBelow(rest);
    TopBit(FromLittle(rest), top, Pow256(31), SIGN_BIT);
    YOfLittle(rest + [top]);
    YOfLittle(rest + [top + 128]);
    SameY(rest + [top + 128], rest + [top]);
  }

  lemma YOfLittle(point: bytes)
    ensures YOf(point) == FromLittle(point) % SIGN_BIT
  {
  }

  lemma SameY(a: bytes, b: bytes)
    requires YOf(a) == YOf(b)
    ensures MontgomeryU(a) == MontgomeryU(b)
  {
    hide YOf, UOfY, EdwardsD, ToLittle;
  }

  lemma TopBit(low: nat, top: nat, unit: nat, sign: nat)
    requires low < unit && top < 128 && sign == 128 * unit
    ensures sign > 0 && (low + top * unit) % sign == low + top * unit == (low + (top + 128) * unit) % sign
  {
    var y := low + top * unit;
    MulDistr(top, 128, unit);
    MulLe(top + 1, 128, unit);
    MulDistr(top, 1, unit);
    ModUnique(y, sign, 0, y);
    ModUnique(y + sign, sign, 1, y);
  }

  lemma {:induction false} LittleBelow(b: bytes)
    ensures FromLittle(b) < Pow256(|b|)
  {
    if b != [] {
      LittleBelow(b[1..]);
    }
  }
}
