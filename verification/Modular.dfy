/** Arithmetic modulo a prime, up to Fermat's little theorem. */
module Modular {
  import opened Arithmetic
  import opened Sequences

  ghost predicate Prime(p: nat) {
    p >= 2 && forall d :: 1 < d < p ==> p % d != 0
  }

  ghost predicate Divides(p: nat, x: int)
    requires p > 0
  {
    x % p == 0
  }

  /** The remainder is the one number in range that differs by a multiple. */
  lemma ModUnique(x: int, p: nat, q: int, r: int)
    requires p > 0 && 0 <= r < p && x == q * p + r
    ensures x % p == r && x / p == q
  {
    var q', r' := x / p, x % p;
    assert x == q' * p + r';
    MulDistr(q, q', p);
    var k := q - q';
    assert k * p == r' - r;
    if k >= 1 {
      MulLe(1, k, p);
    } else if k <= -1 {
      MulLe(k, -1, p);
    }
  }

  /** Multiples of the modulus do not count. */
  lemma ModShift(x: int, k: int, p: nat)
    requires p > 0
    ensures (x + k * p) % p == x % p
  {
    MulDistr(x / p, k, p);
    ModUnique(x + k * p, p, x / p + k, x % p);
  }

  lemma Shifted(x: int, y: int, k: int, p: nat)
    requires p > 0 && x == y + k * p
    ensures x % p == y % p
  {
    ModShift(y, k, p);
  }

  lemma ModMulLeft(a: int, b: int, p: nat)
    requires p > 0
    ensures (a * b) % p == ((a % p) * b) % p
  {
    ModMulParts(a, a / p, a % p, b, p);
  }

  lemma ModMulParts(a: int, q: int, r: int, b: int, p: nat)
    requires p > 0 && a == q * p + r
    ensures (a * b) % p == (r * b) % p
  {
    ProductShift(q, p, r, b);
    Shifted(a * b, r * b, q * b, p);
  }

  lemma ProductShift(q: int, p: int, r: int, b: int)
    ensures (q * p + r) * b == r * b + (q * b) * p
  {
    MulDistr(q * p, r, b);
    MulAssoc(q, p, b);
    MulAssoc(q, b, p);
    assert p * b == b * p;
  }

  lemma ModMul(a: int, b: int, p: nat)
    requires p > 0
    ensures (a * b) % p == ((a % p) * b) % p == (a * (b % p)) % p
  {
    ModMulLeft(a, b, p);
    ModMulLeft(b, a, p);
    assert a * b == b * a && a * (b % p) == (b % p) * a;
  }

  lemma EqualMods(a: int, b: int, p: nat)
    requires p > 0 && a % p == b % p
    ensures Divides(p, a - b)
  {
    MulDistr(a / p, b / p, p);
    ModUnique(a - b, p, a / p - b / p, 0);
  }

  lemma DividedDifference(a: int, b: int, p: nat)
    requires p > 0 && Divides(p, a - b)
    ensures a % p == b % p
  {
    ModShift(b, (a - b) / p, p);
  }

  lemma ModSub(a: int, b: int, p: nat)
    requires p > 0
    ensures a % p == b % p <==> Divides(p, a - b)
  {
    if a % p == b % p {
      EqualMods(a, b, p);
    }
    if Divides(p, a - b) {
      DividedDifference(a, b, p);
    }
  }

  // ---- Euclid's lemma ----

  lemma DividesMul(p: nat, x: int, k: int)
    requires p > 0 && Divides(p, x)
    ensures Divides(p, k * x) && Divides(p, x * k)
  {
    var q := x / p;
    MulAssoc(k, q, p);
    ModUnique(k * x, p, k * q, 0);
  }

  lemma DividesSub(p: nat, x: int, y: int)
    requires p > 0 && Divides(p, x) && Divides(p, y)
    ensures Divides(p, x - y)
  {
    MulDistr(x / p, y / p, p);
    ModUnique(x - y, p, x / p - y / p, 0);
  }

  ghost predicate IsMultiplier(p: nat, a: int, m: nat)
    requires p > 0
  {
    Divides(p, a * m)
  }

  /** The least positive `m` with `p | a * m`, by searching up. */
  lemma LeastMultiplier(p: nat, a: int, from: nat, bound: nat) returns (m: nat)
    requires p > 0 && 0 < from <= bound && IsMultiplier(p, a, bound)
    requires forall k :: 0 < k < from ==> !IsMultiplier(p, a, k)
    ensures 0 < m <= bound && IsMultiplier(p, a, m)
    ensures forall k :: 0 < k < m ==> !IsMultiplier(p, a, k)
    decreases bound - from
  {
    if IsMultiplier(p, a, from) {
      m := from;
    } else {
      m := LeastMultiplier(p, a, from + 1, bound);
    }
  }

  lemma Remainder(a: int, q: int, m: int, r: int)
    ensures a * r == a * (q * m + r) - q * (a * m)
  {
    MulDistr(q * m, r, a);
    MulAssoc(a, q, m);
    MulAssoc(q, a, m);
    assert a * q == q * a;
  }

  lemma DividesRest(p: nat, x: int, y: int, q: int, z: int)
    requires p > 0 && Divides(p, x) && Divides(p, y) && z == y - q * x
    ensures Divides(p, z)
  {
    DividesMul(p, x, q);
    DividesSub(p, y, q * x);
  }

  lemma MultiplierRemainder(p: nat, a: int, m: nat, b: nat)
    requires p > 0 && m > 0 && IsMultiplier(p, a, m) && IsMultiplier(p, a, b)
    ensures IsMultiplier(p, a, b % m)
  {
    var q, r := b / m, b % m;
    var x, y, z := a * m, a * b, a * r;
    assert z == y - q * x by {
      Remainder(a, q, m, r);
    }
    DividesRest(p, x, y, q, z);
  }

  /** The least multiplier divides every other one. */
  lemma LeastDividesAll(p: nat, a: int, m: nat, b: nat)
    requires p > 0 && m > 0 && IsMultiplier(p, a, m) && IsMultiplier(p, a, b)
    requires forall k :: 0 < k < m ==> !IsMultiplier(p, a, k)
    ensures b % m == 0
  {
    MultiplierRemainder(p, a, m, b);
    hide IsMultiplier;
  }

  /** A prime that divides a product divides a factor. */
  lemma Euclid(p: nat, a: int, b: nat)
    requires Prime(p) && Divides(p, a * b)
    ensures Divides(p, a) || Divides(p, b)
  {
    ModUnique(a * p, p, a, 0);
    assert IsMultiplier(p, a, p) && IsMultiplier(p, a, b);
    var m := LeastMultiplier(p, a, 1, p);
    LeastDividesAll(p, a, m, p);
    LeastDividesAll(p, a, m, b);
    assert m == 1 || m == p;
    assert m == 1 ==> a * m == a;
  }

  // ---- Fermat ----

  /** `pow(a, e, p)` as what it computes. */
  function PowMod(a: int, e: nat, p: nat): (r: nat)
    requires p > 0
    ensures r < p
  {
    if e == 0 then 1 % p else (a * PowMod(a, e - 1, p)) % p
  }

  function Product(s: seq<nat>): nat {
    if s == [] then 1 else s[0] * Product(s[1..])
  }

  function Factorial(n: nat): nat {
    if n == 0 then 1 else n * Factorial(n - 1)
  }

  lemma {:induction false} ProductSplit(a: seq<nat>, x: nat, b: seq<nat>)
    ensures Product(a + [x] + b) == x * Product(a + b)
  {
    var all := a + [x] + b;
    if a == [] {
      assert all[0] == x && all[1..] == b && a + b == b;
    } else {
      assert all[0] == a[0] && all[1..] == a[1..] + [x] + b && (a + b)[0] == a[0] && (a + b)[1..] == a[1..] + b;
      ProductSplit(a[1..], x, b);
      var y, rest := a[0], Product(a[1..] + b);
      MulAssoc(y, x, rest);
      MulAssoc(x, y, rest);
    }
  }

  /** Taking one element out leaves the others, still different from it and each other. */
  lemma TakeOut(s: seq<nat>, k: nat)
    requires Distinct(s) && k < |s|
    ensures var rest := s[..k] + s[k + 1..];
      Distinct(rest) && forall x :: x in rest ==> x in s && x != s[k]
  {
    var rest := s[..k] + s[k + 1..];
    assert forall j :: 0 <= j < |rest| ==> rest[j] == if j < k then s[j] else s[j + 1];
    forall x | x in rest ensures x in s && x != s[k] {
      var j :| 0 <= j < |rest| && rest[j] == x;
      assert x == s[if j < k then j else j + 1];
    }
  }

  /** There is no room for more than `m` different numbers from 1 to `m`. */
  lemma {:induction false} Crowded(s: seq<nat>, m: nat)
    requires Distinct(s) && forall x :: x in s ==> 1 <= x <= m
    ensures |s| <= m
  {
    if s == [] {
      return;
    }
    assert s[0] in s;
    if m in s {
      var k :| 0 <= k < |s| && s[k] == m;
      TakeOut(s, k);
      Crowded(s[..k] + s[k + 1..], m - 1);
    } else {
      Crowded(s, m - 1);
    }
  }

  /** Pigeonhole: `n` different numbers from 1 to `n` include `n`. */
  lemma Pigeonhole(s: seq<nat>, n: nat)
    requires Distinct(s) && |s| == n && n > 0 && forall x :: x in s ==> 1 <= x <= n
    ensures n in s
  {
    if n !in s {
      Crowded(s, n - 1);
    }
  }

  /** Any arrangement of 1 to `n` multiplies to the factorial. */
  lemma {:induction false} ArrangementProduct(s: seq<nat>, n: nat)
    requires Distinct(s) && |s| == n && forall x :: x in s ==> 1 <= x <= n
    ensures Product(s) == Factorial(n)
  {
    hide Distinct;
    if n > 0 {
      Pigeonhole(s, n);
      var k :| 0 <= k < |s| && s[k] == n;
      TakeOut(s, k);
      ArrangementProduct(s[..k] + s[k + 1..], n - 1);
      assert s == s[..k] + [n] + s[k + 1..];
      ProductSplit(s[..k], n, s[k + 1..]);
    }
  }

  /** The residues `a * 1, ..., a * n` modulo `p`. */
  function Multiples(a: nat, n: nat, p: nat): (s: seq<nat>)
    requires p > 0
    ensures |s| == n
  {
    if n == 0 then [] else Multiples(a, n - 1, p) + [(a * n) % p]
  }

  lemma {:induction false} MultipleAt(a: nat, n: nat, p: nat, i: nat)
    requires p > 0 && i < n
    ensures Multiples(a, n, p)[i] == (a * (i + 1)) % p
  {
    if i < n - 1 {
      MultipleAt(a, n - 1, p, i);
    }
  }

  /** Below a prime that does not divide `a`, no two multiples agree and none is zero. */
  lemma MultiplesDiffer(a: nat, p: nat, i: nat, j: nat)
    requires Prime(p) && !Divides(p, a) && 0 < j < p && i < j
    ensures (a * i) % p != (a * j) % p
  {
    if (a * i) % p == (a * j) % p {
      ModSub(a * j, a * i, p);
      MulDistr(j, i, a);
      assert a * (j - i) == a * j - a * i;
      Euclid(p, a, j - i);
      SmallIsNotDivided(p, j - i);
    }
  }

  lemma SmallIsNotDivided(p: nat, x: nat)
    requires 0 < x < p
    ensures !Divides(p, x)
  {
    ModUnique(x, p, 0, x);
  }

  lemma MultipleInRange(a: nat, p: nat, j: nat)
    requires Prime(p) && !Divides(p, a) && 0 < j < p
    ensures 1 <= (a * j) % p <= p - 1
  {
    MultiplesDiffer(a, p, 0, j);
    assert a * 0 == 0;
  }

  lemma MultiplesAreArrangement(a: nat, p: nat)
    requires Prime(p) && !Divides(p, a)
    ensures var s := Multiples(a, p - 1, p); Distinct(s) && forall x :: x in s ==> 1 <= x <= p - 1
  {
    hide Divides, Multiples;
    var s := Multiples(a, p - 1, p);
    forall i, j | 0 <= i < j < |s| ensures s[i] != s[j] {
      MultipleAt(a, p - 1, p, i);
      MultipleAt(a, p - 1, p, j);
      MultiplesDiffer(a, p, i + 1, j + 1);
    }
    forall i | 0 <= i < |s| ensures 1 <= s[i] <= p - 1 {
      MultipleAt(a, p - 1, p, i);
      MultipleInRange(a, p, i + 1);
    }
  }

  /** The multiples' product is the factorial times a power. */
  lemma {:induction false} MultiplesProduct(a: nat, n: nat, p: nat)
    requires p > 0
    ensures Product(Multiples(a, n, p)) % p == (PowMod(a, n, p) * Factorial(n)) % p
  {
    if n == 0 {
      ModMul(1, 1, p);
    } else {
      var s, x := Multiples(a, n - 1, p), (a * n) % p;
      ProductSplit(s, x, []);
      assert s + [x] + [] == s + [x] && s + [] == s;
      MultiplesProduct(a, n - 1, p);
      NextMultiple(a, n, p, Product(s), PowMod(a, n - 1, p), Factorial(n - 1));
    }
  }

  lemma NextMultiple(a: nat, n: nat, p: nat, product: nat, power: nat, f: nat)
    requires p > 0 && product % p == (power * f) % p
    ensures (((a * n) % p) * product) % p == (((a * power) % p) * (n * f)) % p
  {
    ModMul(a * n, product, p);
    ModMul(a * n, power * f, p);
    ModMul(a * power, n * f, p);
    MulAssoc(a, n, power * f);
    MulAssoc(n, power, f);
    MulAssoc(power, n, f);
    MulAssoc(a, power, n * f);
  }

  lemma {:induction false} FactorialIsNotDivided(p: nat, n: nat)
    requires Prime(p) && n < p
    ensures !Divides(p, Factorial(n))
  {
    if n == 0 {
      SmallIsNotDivided(p, 1);
    } else {
      FactorialIsNotDivided(p, n - 1);
      SmallIsNotDivided(p, n);
      if Divides(p, n * Factorial(n - 1)) {
        Euclid(p, n, Factorial(n - 1));
      }
    }
  }

  /** Fermat's little theorem. */
  lemma Fermat(p: nat, a: nat)
    requires Prime(p) && !Divides(p, a)
    ensures PowMod(a, p - 1, p) == 1
  {
    hide PowMod, Factorial, Product, Multiples;
    var n := p - 1;
    var f, power := Factorial(n), PowMod(a, n, p);
    MultiplesAreArrangement(a, p);
    ArrangementProduct(Multiples(a, n, p), n);
    MultiplesProduct(a, n, p);
    assert f % p == (power * f) % p;
    ModSub(power * f, f, p);
    MulDistr(power, 1, f);
    assert (power - 1) * f == power * f - f;
    Euclid(p, power - 1, f);
    FactorialIsNotDivided(p, n);
    ModSub(power, 1, p);
    ModUnique(power, p, 0, power);
    ModUnique(1, p, 0, 1);
  }

  /** `pow(a, p - 2, p)` inverts `a`. */
  lemma Inverse(p: nat, a: nat)
    requires Prime(p) && !Divides(p, a)
    ensures (a * PowMod(a, p - 2, p)) % p == 1
  {
    Fermat(p, a);
  }
}
