/** `montgomery_u`: an Edwards point's u-coordinate on the Montgomery curve, over a prime field. */
module Montgomery {
  import opened Wrappers
  import opened Bytes
  import opened Modular
  import opened Residues
  import opened Arithmetic

  /** 2^255 - 19 */
  const P25519: nat := 0x7fff_ffff_ffff_ffff_ffff_ffff_ffff_ffff_ffff_ffff_ffff_ffff_ffff_ffff_ffff_ffed

  datatype PointError = NonCanonical | OffCurve

  /** `int.from_bytes(b, "little")`. */
  function FromLittle(b: bytes): nat {
    if b == [] then 0 else b[0] + 256 * FromLittle(b[1..])
  }

  /** The low `n` bytes of a number, least significant first. */
  function ToLittle(v: nat, n: nat): (r: bytes)
    ensures |r| == n
  {
    if n == 0 then [] else [v % 256] + ToLittle(v / 256, n - 1)
  }

  /** The squared x-coordinate that the curve equation gives `y`, with division as multiplication by a power. */
  function XSquared(p: nat, d: nat, y: nat): nat
    requires p >= 2
  {
    var yy := (y * y) % p;
    ((yy - 1) * PowMod((d * yy + 1) % p, p - 2, p)) % p
  }

  /** The check that `y` belongs to a point: its squared x is zero or a square. */
  predicate PassesCurveCheck(p: nat, d: nat, y: nat)
    requires p >= 2
  {
    PowMod(XSquared(p, d, y), (p - 1) / 2, p) <= 1
  }

  /** `u = (1 + y) / (1 - y)`. */
  function MapY(p: nat, y: nat): nat
    requires p >= 2
  {
    if (1 - y) % p == 0 then 0 else ((1 + y) * PowMod((1 - y) % p, p - 2, p)) % p
  }

  function UOfY(p: nat, d: nat, y: nat): Result<nat, PointError>
    requires p >= 2
  {
    if y >= p then Err(NonCanonical)
    else if !PassesCurveCheck(p, d, y) then Err(OffCurve)
    else Ok(MapY(p, y))
  }

  /** -121665 / 121666 in the field of `p`. */
  function EdwardsD(p: nat): nat
    requires p >= 2
  {
    (-121665 * PowMod(121666, p - 2, p)) % p
  }

  /** 2^255: the bit above y is the sign of x. */
  const SIGN_BIT: nat := 0x8000_0000_0000_0000_0000_0000_0000_0000_0000_0000_0000_0000_0000_0000_0000_0000

  function YOf(point: bytes): nat {
    FromLittle(point) % SIGN_BIT
  }

  /** `montgomery_u`: the sign bit of x is dropped, the rest is y. */
  function MontgomeryU(point: bytes): Result<bytes, PointError> {
    match UOfY(P25519, EdwardsD(P25519), YOf(point))
    case Err(e) => Err(e)
    case Ok(u) => Ok(ToLittle(u, 32))
  }

  lemma OnlyOneIsOne(p: nat, y: nat)
    requires p >= 2 && y < p
    ensures (1 - y) % p == 0 <==> y == 1
  {
    if y == 0 {
      ModUnique(1, p, 0, 1);
    } else if y > 1 {
      ModUnique(1 - y, p, -1, p + 1 - y);
    }
  }

  /** The defining equation of u. */
  ghost predicate IsU(p: nat, y: nat, u: nat)
    requires p >= 2
  {
    u < p && (u * (1 - y)) % p == (1 + y) % p
  }

  lemma QuotientSolves(p: nat, num: int, den: int)
    requires Prime(p) && !Divides(p, den)
    ensures (((num * PowMod(den % p, p - 2, p)) % p) * den) % p == num % p
  {
    hide PowMod;
    var w := den % p;
    var inv := PowMod(w, p - 2, p);
    ModUnique(w, p, 0, w);
    Inverse(p, w);
    ModMul(num * inv, den, p);
    MulAssoc(num, inv, den);
    ModMul(inv, den, p);
    assert inv * w == w * inv;
    ModMul(num, inv * den, p);
    assert num * 1 == num;
  }

  /** An accepted `y` other than 1 gets the solution of `u (1 - y) = 1 + y`. */
  lemma MapSolves(p: nat, y: nat)
    requires Prime(p) && y < p && y != 1
    ensures IsU(p, y, MapY(p, y))
  {
    OnlyOneIsOne(p, y);
    QuotientSolves(p, 1 + y, 1 - y);
  }

  lemma SmallMultiple(p: nat, x: int)
    requires p > 0 && -(p as int) < x < p && Divides(p, x)
    ensures x == 0
  {
    if x > 0 {
      ModUnique(x, p, 0, x);
    } else if x < 0 {
      ModUnique(x, p, -1, x + p);
    }
  }

  lemma Cancel(p: nat, x: nat, y: nat, c: int)
    requires Prime(p) && x < p && y < p && !Divides(p, c) && Divides(p, (x - y) * c)
    ensures x == y
  {
    if x >= y {
      assert (x - y) * c == c * (x - y);
      Euclid(p, c, x - y);
    } else {
      MulDistr(x, y, c);
      assert c * (y - x) == -((x - y) * c);
      DividesMul(p, (x - y) * c, -1);
      Euclid(p, c, y - x);
      SmallMultiple(p, y - x);
    }
    SmallMultiple(p, x - y);
  }

  /** Only one number below `p` solves the equation. */
  lemma UIsUnique(p: nat, y: nat, u: nat, v: nat)
    requires Prime(p) && y < p && y != 1 && IsU(p, y, u) && IsU(p, y, v)
    ensures u == v
  {
    OnlyOneIsOne(p, y);
    EqualMods(u * (1 - y), v * (1 - y), p);
    MulDistr(u, v, 1 - y);
    Cancel(p, u, v, 1 - y);
  }

  /** The equation turned round: `y (u + 1) = u - 1`. */
  lemma InverseEquation(p: nat, y: nat, u: nat)
    requires Prime(p) && IsU(p, y, u)
    ensures Divides(p, y * (u + 1) - (u - 1))
  {
    EqualMods(u * (1 - y), 1 + y, p);
    MulDistr(1, y, u);
    MulDistr(u, 1, y);
    assert y * (u + 1) - (u - 1) == -1 * (u * (1 - y) - (1 + y));
    DividesMul(p, u * (1 - y) - (1 + y), -1);
  }

  /** ... and `u + 1` can be divided by. */
  lemma SuccessorInvertible(p: nat, y: nat, u: nat)
    requires Prime(p) && p > 2 && IsU(p, y, u)
    ensures !Divides(p, u + 1)
  {
    if Divides(p, u + 1) {
      InverseEquation(p, y, u);
      DividesMul(p, u + 1, y);
      DividesSub(p, y * (u + 1), y * (u + 1) - (u - 1));
      DividesSub(p, u + 1, u - 1);
      SmallMultiple(p, 2);
      assert false;
    }
  }

  /** `y` is recovered from its u. */
  lemma YIsRecovered(p: nat, y: nat, z: nat, u: nat)
    requires Prime(p) && p > 2 && y < p && z < p && IsU(p, y, u) && IsU(p, z, u)
    ensures y == z
  {
    InverseEquation(p, y, u);
    InverseEquation(p, z, u);
    SuccessorInvertible(p, y, u);
    DividesSub(p, y * (u + 1) - (u - 1), z * (u + 1) - (u - 1));
    MulDistr(y, z, u + 1);
    Cancel(p, y, z, u + 1);
  }

  /** Zero is the u of `y = -1` alone. */
  lemma ZeroIsMinusOne(p: nat, y: nat)
    requires Prime(p) && p > 2 && y < p
    ensures IsU(p, y, 0) <==> y == p - 1
  {
    ModUnique(0, p, 0, 0);
    if y == p - 1 {
      ModUnique(1 + y, p, 1, 0);
    } else {
      ModUnique(1 + y, p, 0, 1 + y);
    }
  }

  /** Two field elements share a u exactly when they are equal or are 1 and -1: the code gives the point with no
      Montgomery image the u of the point of order two. */
  lemma MapCollides(p: nat, y: nat, z: nat)
    requires Prime(p) && p > 2 && y < p && z < p
    ensures MapY(p, y) == MapY(p, z) <==> y == z || (y == 1 && z == p - 1) || (y == p - 1 && z == 1)
  {
    hide MapY, IsU;
    MapOfOne(p);
    ZeroIsMinusOne(p, y);
    ZeroIsMinusOne(p, z);
    if y != 1 {
      MapSolves(p, y);
    }
    if z != 1 {
      MapSolves(p, z);
    }
    if y != 1 && z != 1 && MapY(p, y) == MapY(p, z) {
      YIsRecovered(p, y, z, MapY(p, y));
    }
    if y == 1 && z == p - 1 {
      UIsUnique(p, z, MapY(p, z), 0);
    }
    if z == 1 && y == p - 1 {
      UIsUnique(p, y, MapY(p, y), 0);
    }
  }

  lemma MapOfOne(p: nat)
    requires p >= 2
    ensures MapY(p, 1) == 0
  {
  }

  lemma {:induction false} PowOfZero(p: nat, e: nat)
    requires p >= 2 && e > 0
    ensures PowMod(0, e, p) == 0
  {
  }

  /** Both ends of that collision pass the curve check, whatever the curve constant. */
  lemma BothOnesAreAccepted(p: nat, d: nat)
    requires p > 2
    ensures UOfY(p, d, 1) == Ok(0)
    ensures PassesCurveCheck(p, d, p - 1)
  {
    hide PowMod;
    ModUnique(1, p, 0, 1);
    assert (p - 1) * (p - 1) == (p - 2) * p + 1 by {
      MulDistr(p, 1, p - 1);
      MulDistr(p, 2, p);
      MulDistr(p, 1, p);
    }
    ModUnique((p - 1) * (p - 1), p, p - 2, 1);
    ModUnique(0, p, 0, 0);
    PowOfZero(p, (p - 1) / 2);
    assert 0 * PowMod((d * 1 + 1) % p, p - 2, p) == 0;
    MapOfOne(p);
  }

  // ---- points of the curve are accepted ----

  lemma {:induction false} PowOfMod(a: int, e: nat, p: nat)
    requires p > 0
    ensures PowMod(a % p, e, p) == PowMod(a, e, p)
  {
    if e > 0 {
      PowOfMod(a, e - 1, p);
      ModMul(a, PowMod(a, e - 1, p), p);
    }
  }

  /** Powers of a square are even powers. */
  lemma {:induction false} PowOfSquare(x: int, e: nat, p: nat)
    requires p > 0
    ensures PowMod(x * x, e, p) == PowMod(x, 2 * e, p)
  {
    if e > 0 {
      PowOfSquare(x, e - 1, p);
      var r := PowMod(x, 2 * e - 2, p);
      assert PowMod(x, 2 * e - 1, p) == (x * r) % p;
      ModMul(x, x * r, p);
      MulAssoc(x, x, r);
    }
  }

  /** A square passes Euler's test. */
  lemma SquarePasses(p: nat, x: nat, s: nat)
    requires Prime(p) && p % 2 == 1 && s < p && s == (x * x) % p
    ensures PowMod(s, (p - 1) / 2, p) <= 1
  {
    PowOfMod(x * x, (p - 1) / 2, p);
    PowOfSquare(x, (p - 1) / 2, p);
    if Divides(p, x) {
      PowOfMod(x, p - 1, p);
      PowOfZero(p, p - 1);
    } else {
      Fermat(p, x);
    }
  }

  /** `(x, y)` satisfies the Edwards equation `-x^2 + y^2 = 1 + d x^2 y^2`. */
  ghost predicate OnCurve(p: nat, d: nat, x: nat, y: nat)
    requires p >= 2
  {
    ((x * x) * (d * ((y * y) % p) + 1)) % p == ((y * y) % p - 1) % p
  }

  lemma ZeroDenominator(p: nat, d: nat, y: nat)
    requires Prime(p) && p > 2 && Divides(p, d * ((y * y) % p) + 1)
    ensures XSquared(p, d, y) == 0
  {
    PowOfZero(p, p - 2);
    ModUnique(0, p, 0, 0);
    TimesZero((y * y) % p - 1);
    hide PowMod;
  }

  lemma TimesZero(x: int)
    ensures x * 0 == 0
  {
  }

  lemma XSquaredIsSquare(p: nat, d: nat, x: nat, y: nat)
    requires Prime(p) && OnCurve(p, d, x, y) && !Divides(p, d * ((y * y) % p) + 1)
    ensures XSquared(p, d, y) == (x * x) % p
  {
    XSquaredOf(p, (x * x), (y * y) % p - 1, d * ((y * y) % p) + 1, XSquared(p, d, y));
  }

  lemma XSquaredOf(p: nat, q: nat, num: int, den: nat, s: nat)
    requires Prime(p) && !Divides(p, den) && (q * den) % p == num % p
    requires s == (num * PowMod(den % p, p - 2, p)) % p
    ensures s == q % p
  {
    hide PowMod;
    QuotientSolves(p, num, den);
    EqualMods(q * den, s * den, p);
    MulDistr(q, s, den);
    SameSquare(p, q, s, den);
  }

  /** Every point of the curve is accepted: the check never refuses a real key. */
  lemma CurvePointsAreAccepted(p: nat, d: nat, x: nat, y: nat)
    requires Prime(p) && p % 2 == 1 && y < p && OnCurve(p, d, x, y)
    ensures UOfY(p, d, y) == Ok(MapY(p, y))
  {
    hide MapY, PowMod, XSquared, OnCurve;
    if Divides(p, d * ((y * y) % p) + 1) {
      ZeroDenominator(p, d, y);
      ModUnique(0, p, 0, 0);
      SquarePasses(p, 0, 0);
    } else {
      XSquaredIsSquare(p, d, x, y);
      SquarePasses(p, x, XSquared(p, d, y));
    }
  }

  lemma SameSquare(p: nat, q: nat, s: nat, den: int)
    requires Prime(p) && s < p && !Divides(p, den) && Divides(p, (q - s) * den)
    ensures s == q % p
  {
    var r, k := q % p, q / p;
    MulDistr(k * p, r - s, den);
    assert q - s == k * p + (r - s);
    MulAssoc(k, p, den);
    MulAssoc(k, den, p);
    assert k * (p * den) == (k * den) * p;
    ModUnique((k * den) * p, p, k * den, 0);
    DividesSub(p, (q - s) * den, (k * den) * p);
    Cancel(p, r, s, den);
  }

  // ---- and nothing else is ----

  lemma RootIsOnCurve(p: nat, d: nat, x: nat, y: nat)
    requires Prime(p) && !Divides(p, d * ((y * y) % p) + 1) && IsRoot(p, XSquared(p, d, y), x)
    ensures OnCurve(p, d, x, y)
  {
    RootSolves(p, x, (y * y) % p - 1, d * ((y * y) % p) + 1);
  }

  lemma RootSolves(p: nat, x: nat, num: int, den: nat)
    requires Prime(p) && !Divides(p, den)
    requires IsRoot(p, (num * PowMod(den % p, p - 2, p)) % p, x)
    ensures ((x * x) * den) % p == num % p
  {
    hide PowMod;
    var s := (num * PowMod(den % p, p - 2, p)) % p;
    QuotientSolves(p, num, den);
    ModUnique(s, p, 0, s);
    ModMul(x * x, den, p);
  }

  /** -1 is a square below a prime that is 1 modulo 4. */
  lemma MinusOneIsSquare(p: nat)
    requires Prime(p) && p % 4 == 1
    ensures IsSquare(p, p - 1)
  {
    hide PowMod;
    var k := (p - 1) / 4;
    PowOfSquare(p - 1, k, p);
    assert (p - 1) * (p - 1) == (p - 2) * p + 1 by {
      MulDistr(p, 1, p - 1);
      MulDistr(p, 2, p);
      MulDistr(p, 1, p);
    }
    ModUnique((p - 1) * (p - 1), p, p - 2, 1);
    PowOfMod((p - 1) * (p - 1), k, p);
    PowerOfOne(p, k);
    assert (p - 1) / 2 == 2 * k;
    PassingIsSquare(p, p - 1);
  }

  lemma ZeroGivesOne(p: nat, d: nat, y: nat)
    requires p > 1 && Divides(p, y)
    ensures !Divides(p, d * ((y * y) % p) + 1)
  {
    ModMul(y, y, p);
    assert 0 * y == 0 && d * 0 == 0;
    ModUnique(0, p, 0, 0);
    ModUnique(1, p, 0, 1);
  }

  /** A number whose product with a square is -1 is a square: the root of -1 over the root. */
  lemma MinusOneOver(p: nat, d: nat, y: nat)
    requires Prime(p) && p % 4 == 1 && Divides(p, d * ((y * y) % p) + 1)
    ensures IsSquare(p, d)
  {
    hide PowMod, Divides, IsSquare;
    MinusOneIsSquare(p);
    var i := SquareRoot(p, p - 1);
    ModUnique(p - 1, p, 0, p - 1);
    if Divides(p, y) {
      ZeroGivesOne(p, d, y);
    }
    Inverse(p, y);
    RootOfQuotient(p, d, y, PowMod(y, p - 2, p), i);
  }

  lemma SquareRoot(p: nat, a: nat) returns (x: nat)
    requires p > 0 && IsSquare(p, a)
    ensures IsRoot(p, a, x)
  {
    x :| IsRoot(p, a, x);
  }

  lemma RootOfQuotient(p: nat, d: nat, y: nat, z: nat, i: nat)
    requires p > 1 && (y * z) % p == 1 && (i * i) % p == p - 1
    requires Divides(p, d * ((y * y) % p) + 1)
    ensures IsSquare(p, d)
  {
    var w := (i * z) % p;
    // d y^2 = -1 = i^2
    ModSub(d * ((y * y) % p), -1, p);
    ModUnique(-1, p, -1, p - 1);
    ModMul(d, y * y, p);
    assert (d * (y * y)) % p == (i * i) % p;
    // d = d (y z)^2 = (i z)^2
    SquareOfProduct(i, z);
    SquareOfProduct(y, z);
    ModMul(i * z, i * z, p);
    ModMul(w, i * z, p);
    ModMul(y * z, y * z, p);
    assert 1 * (y * z) == y * z;
    MulAssoc(d, y * y, z * z);
    ModMul(d * (y * y), z * z, p);
    ModMul(i * i, z * z, p);
    ModMul(d, (y * z) * (y * z), p);
    assert d * 1 == d;
    assert IsRoot(p, d, w);
  }

  lemma SquareOfProduct(a: int, b: int)
    ensures (a * b) * (a * b) == (a * a) * (b * b)
  {
    MulAssoc(a, b, a * b);
    MulAssoc(b, a, b);
    MulAssoc(a, a, b * b);
    MulAssoc(a, b, b);
  }

  /** The check accepts exactly the points of the curve: with a curve constant that is no square the denominator never
      vanishes, and Euler's test finds the x-coordinate. */
  lemma AcceptedExactlyOnCurve(p: nat, d: nat, y: nat)
    requires Prime(p) && p % 4 == 1 && !IsSquare(p, d) && y < p
    ensures UOfY(p, d, y).Ok? <==> exists x: nat :: x < p && OnCurve(p, d, x, y)
  {
    hide MapY, PowMod, XSquared, OnCurve, IsSquare, IsRoot;
    if Divides(p, d * ((y * y) % p) + 1) {
      MinusOneOver(p, d, y);
    }
    if UOfY(p, d, y).Ok? {
      PassingIsSquare(p, XSquared(p, d, y));
      RootOfPassing(p, d, y);
    }
    if x: nat :| x < p && OnCurve(p, d, x, y) {
      CurvePointsAreAccepted(p, d, x, y);
    }
  }

  lemma RootOfPassing(p: nat, d: nat, y: nat)
    requires Prime(p) && !Divides(p, d * ((y * y) % p) + 1) && IsSquare(p, XSquared(p, d, y))
    ensures exists x: nat :: x < p && OnCurve(p, d, x, y)
  {
    hide XSquared, OnCurve;
    var x := SquareRoot(p, XSquared(p, d, y));
    RootIsOnCurve(p, d, x, y);
  }

  // ---- bytes ----

  lemma {:induction false} FromToLittle(v: nat, n: nat)
    requires v < Pow256(n)
    ensures FromLittle(ToLittle(v, n)) == v
  {
    if n > 0 {
      FromToLittle(v / 256, n - 1);
      assert ToLittle(v, n)[1..] == ToLittle(v / 256, n - 1);
    }
  }

  lemma ThirtyTwoBytes()
    ensures P25519 < Pow256(32)
  {
    assert Pow256(4) == 0x1_0000_0000;
    assert Pow256(8) == 0x1_0000_0000_0000_0000 by { assert Pow256(6) == 0x1_0000_0000_0000; }
    MorePow256(8, 0x1_0000_0000_0000_0000);
    MorePow256(16, 0x1_0000_0000_0000_0000_0000_0000_0000_0000);
    MorePow256(24, 0x1_0000_0000_0000_0000_0000_0000_0000_0000_0000_0000_0000_0000);
  }

  lemma MorePow256(n: nat, v: nat)
    requires Pow256(n) == v
    ensures Pow256(n + 8) == v * 0x1_0000_0000_0000_0000
  {
    assert Pow256(n + 2) == v * 0x1_0000;
    assert Pow256(n + 4) == v * 0x1_0000_0000;
    assert Pow256(n + 6) == v * 0x1_0000_0000_0000;
  }

  /** What the function returns for a point, as numbers: 32 bytes of the one solution below the prime, or of zero when
      y is 1; and two accepted points share an image exactly when their y are equal or are 1 and -1. */
  lemma MontgomeryUOfPoints(point: bytes, other: bytes)
    requires Prime(P25519) && MontgomeryU(point).Ok? && MontgomeryU(other).Ok?
    ensures YOf(point) < P25519 && |MontgomeryU(point).value| == 32
    ensures if YOf(point) == 1 then FromLittle(MontgomeryU(point).value) == 0
            else IsU(P25519, YOf(point), FromLittle(MontgomeryU(point).value))
    ensures MontgomeryU(point) == MontgomeryU(other) <==>
      var (y, z) := (YOf(point), YOf(other)); y == z || (y == 1 && z == P25519 - 1) || (y == P25519 - 1 && z == 1)
  {
    hide MapY, PassesCurveCheck, IsU, EdwardsD, FromLittle, ToLittle, Pow256;
    var p, y, z := P25519, YOf(point), YOf(other);
    ThirtyTwoBytes();
    MapBelow(p, y);
    MapBelow(p, z);
    FromToLittle(MapY(p, y), 32);
    FromToLittle(MapY(p, z), 32);
    MapCollides(p, y, z);
    MapOfOne(p);
    if y != 1 {
      MapSolves(p, y);
    }
  }

  lemma MapBelow(p: nat, y: nat)
    requires p >= 2
    ensures MapY(p, y) < p
  {
  }
}
