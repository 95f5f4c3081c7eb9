/** Squares modulo a prime: Wilson's theorem, and Euler's test in the direction that finds a root. */
module Residues {
  import opened Modular
  import opened Sequences
  import opened Arithmetic

  /** The number below `p` that `i` is multiplied by to give `a`. */
  function Mate(p: nat, a: nat, i: nat): (j: nat)
    requires p >= 2
    ensures j < p
  {
    (a * PowMod(i, p - 2, p)) % p
  }

  lemma MateCompletes(p: nat, a: nat, i: nat)
    requires Prime(p) && !Divides(p, a) && 0 < i < p
    ensures (i * Mate(p, a, i)) % p == a % p && 0 < Mate(p, a, i) < p
  {
    hide PowMod;
    var inv := PowMod(i, p - 2, p);
    SmallIsNotDivided(p, i);
    Inverse(p, i);
    ModMul(i, a * inv, p);
    assert i * (a * inv) == a * (i * inv) by {
      MulAssoc(i, a, inv);
      MulAssoc(a, i, inv);
    }
    ModMul(a, i * inv, p);
    assert a * 1 == a;
    assert i * 0 == 0;
    ModUnique(0, p, 0, 0);
  }

  lemma OneMate(p: nat, i: nat, j: nat, k: nat)
    requires Prime(p) && 0 < i < p && j < p && k < p && (i * j) % p == (i * k) % p
    ensures j == k
  {
    SmallIsNotDivided(p, i);
    if j < k {
      MultiplesDiffer(i, p, j, k);
    } else if k < j {
      MultiplesDiffer(i, p, k, j);
    }
  }

  lemma MateOfMate(p: nat, a: nat, i: nat)
    requires Prime(p) && !Divides(p, a) && 0 < i < p
    ensures Mate(p, a, Mate(p, a, i)) == i
  {
    hide Mate;
    MateCompletes(p, a, i);
    var j := Mate(p, a, i);
    MateCompletes(p, a, j);
    assert j * i == i * j;
    OneMate(p, j, i, Mate(p, a, j));
  }

  /** A set of residues that falls into pairs of mates. */
  ghost predicate Pairs(p: nat, a: nat, s: set<nat>)
    requires p >= 2
  {
    forall i :: i in s ==> 0 < i < p && Mate(p, a, i) in s && Mate(p, a, i) != i
  }

  lemma WithoutPair(p: nat, a: nat, s: set<nat>, i: nat)
    requires p >= 2 && Prime(p) && !Divides(p, a) && Pairs(p, a, s) && i in s
    ensures Pairs(p, a, s - {i, Mate(p, a, i)})
    ensures 0 < i < p && Mate(p, a, i) in s && Mate(p, a, i) != i
  {
    hide Mate;
    MateOfMate(p, a, i);
    forall k | k in s - {i, Mate(p, a, i)} ensures Mate(p, a, k) in s - {i, Mate(p, a, i)} {
      MateOfMate(p, a, k);
    }
  }

  lemma PairProduct(p: nat, a: nat, i: nat, j: nat, rest: nat, e: nat)
    requires p > 0 && (i * j) % p == a % p && rest % p == PowMod(a, e, p)
    ensures (i * (j * rest)) % p == PowMod(a, e + 1, p)
  {
    MulAssoc(i, j, rest);
    ModMul(i * j, rest, p);
    ModMul(a, rest, p);
  }

  lemma ProductOfPair(i: nat, j: nat, more: seq<nat>)
    ensures Product([i, j] + more) == i * (j * Product(more))
  {
    var list := [i, j] + more;
    assert list[1..] == [j] + more && list[1..][1..] == more;
  }

  ghost predicate Lists(list: seq<nat>, s: set<nat>) {
    Distinct(list) && |list| == |s| && forall x :: x in list <==> x in s
  }

  lemma PairAdded(s: set<nat>, i: nat, j: nat, more: seq<nat>)
    requires i != j && i !in s && j !in s && Lists(more, s)
    ensures Lists([i, j] + more, s + {i, j}) && |s + {i, j}| == |s| + 2
  {
    assert |s + {i, j}| == |s| + 2 by {
      assert s + {i, j} == s + {i} + {j};
    }
  }

  /** The members of such a set, listed: they multiply to one `a` for each pair. */
  lemma {:induction false} PairsMultiply(p: nat, a: nat, s: set<nat>) returns (list: seq<nat>, n: nat)
    requires p >= 2 && Prime(p) && !Divides(p, a) && Pairs(p, a, s)
    ensures Lists(list, s) && |s| == 2 * n && Multiplies(p, a, list, n)
    decreases |s|
  {
    hide *;
    if s == {} {
      NoPairs(p, a);
      return [], 0;
    }
    var i :| i in s;
    var j := Mate(p, a, i);
    var rest := s - {i, j};
    WithoutPair(p, a, s, i);
    assert s == rest + {i, j};
    var more, m := PairsMultiply(p, a, rest);
    PairAdded(rest, i, j, more);
    OnePairMore(p, a, i, j, more, m);
    list, n := [i, j] + more, m + 1;
  }

  /** The listed numbers multiply to the `e`-th power of `a`. */
  ghost predicate Multiplies(p: nat, a: nat, list: seq<nat>, e: nat)
    requires p > 0
  {
    Product(list) % p == PowMod(a, e, p)
  }

  lemma OnePairMore(p: nat, a: nat, i: nat, j: nat, more: seq<nat>, e: nat)
    requires p >= 2 && Prime(p) && !Divides(p, a) && 0 < i < p && j == Mate(p, a, i)
    requires Multiplies(p, a, more, e)
    ensures Multiplies(p, a, [i, j] + more, e + 1)
  {
    hide Mate, PowMod, Product;
    MateCompletes(p, a, i);
    ProductOfPair(i, j, more);
    PairProduct(p, a, i, j, Product(more), e);
  }

  lemma NoPairs(p: nat, a: nat)
    requires p >= 2
    ensures Lists([], {}) && Multiplies(p, a, [], 0)
  {
  }

  function Range(lo: nat, hi: nat): (s: set<nat>)
    requires lo <= hi
    ensures forall i :: i in s <==> lo <= i < hi
    ensures |s| == hi - lo
  {
    if lo == hi then {} else Range(lo, hi - 1) + {hi - 1}
  }

  // ---- Wilson ----

  /** Only 1 and -1 are their own inverses. */
  lemma SelfInverse(p: nat, i: nat)
    requires Prime(p) && 0 < i < p && (i * i) % p == 1
    ensures i == 1 || i == p - 1
  {
    ModUnique(1, p, 0, 1);
    ModSub(i * i, 1, p);
    MulDistr(i, 1, i + 1);
    assert (i - 1) * (i + 1) == i * i - 1;
    Euclid(p, i - 1, i + 1);
    if 1 < i < p - 1 {
      SmallIsNotDivided(p, i - 1);
      SmallIsNotDivided(p, i + 1);
    }
  }

  lemma LastTimes(p: nat, i: nat)
    requires p >= 2 && 0 < i < p
    ensures (i * (p - 1)) % p == p - i
  {
    MulDistr(p, 1, i);
    MulDistr(i, 1, p);
    ModUnique(i * (p - 1), p, i - 1, p - i);
  }

  lemma InversesPair(p: nat)
    requires Prime(p) && p > 2
    ensures !Divides(p, 1) && Pairs(p, 1, Range(2, p - 1))
  {
    SmallIsNotDivided(p, 1);
    ModUnique(1, p, 0, 1);
    hide Mate;
    forall i | i in Range(2, p - 1) ensures Mate(p, 1, i) in Range(2, p - 1) && Mate(p, 1, i) != i {
      MateCompletes(p, 1, i);
      var j := Mate(p, 1, i);
      if j == 1 {
        ModUnique(i, p, 0, i);
      } else if j == p - 1 {
        LastTimes(p, i);
      } else if j == i {
        SelfInverse(p, i);
      }
    }
  }

  /** Wilson's theorem. */
  lemma Wilson(p: nat)
    requires Prime(p) && p > 2
    ensures Factorial(p - 1) % p == p - 1
  {
    hide *;
    InversesPair(p);
    assert p >= 2;
    var middle, n := PairsMultiply(p, 1, Range(2, p - 1));
    PairAdded(Range(2, p - 1), 1, p - 1, middle);
    ListedProduct(p, [1, p - 1] + middle);
    OnesMultiply(p, middle, n);
  }

  lemma OnesMultiply(p: nat, middle: seq<nat>, n: nat)
    requires p > 2 && Multiplies(p, 1, middle, n)
    ensures Product([1, p - 1] + middle) % p == p - 1
  {
    hide Product, PowMod;
    ProductOfPair(1, p - 1, middle);
    PowerOfOne(p, n);
    ModMul(p - 1, Product(middle), p);
    ModUnique(p - 1, p, 0, p - 1);
  }

  lemma ListedProduct(p: nat, list: seq<nat>)
    requires p > 2 && Lists(list, Range(2, p - 1) + {1, p - 1})
    ensures Product(list) == Factorial(p - 1)
  {
    hide Product, Factorial;
    var s := Range(2, p - 1);
    assert |s + {1, p - 1}| == p - 1 by {
      assert s + {1, p - 1} == s + {1} + {p - 1};
    }
    ArrangementProduct(list, p - 1);
  }

  lemma {:induction false} PowerOfOne(p: nat, e: nat)
    requires p >= 2
    ensures PowMod(1, e, p) == 1
  {
    ModUnique(1, p, 0, 1);
    if e > 0 {
      PowerOfOne(p, e - 1);
    }
  }

  // ---- Euler ----

  ghost predicate IsRoot(p: nat, a: nat, x: nat)
    requires p > 0
  {
    x < p && (x * x) % p == a % p
  }

  ghost predicate IsSquare(p: nat, a: nat)
    requires p > 0
  {
    exists x: nat :: IsRoot(p, a, x)
  }

  lemma NonSquarePairs(p: nat, a: nat)
    requires Prime(p) && !Divides(p, a) && !IsSquare(p, a)
    ensures Pairs(p, a, Range(1, p))
  {
    hide Mate;
    forall i | i in Range(1, p) ensures Mate(p, a, i) in Range(1, p) && Mate(p, a, i) != i {
      MateCompletes(p, a, i);
      assert !IsRoot(p, a, i);
    }
  }

  /** A number that is no square has -1 as its power to half of `p - 1`. */
  lemma NonSquareFails(p: nat, a: nat)
    requires Prime(p) && p > 2 && !Divides(p, a) && !IsSquare(p, a)
    ensures PowMod(a, (p - 1) / 2, p) == p - 1
  {
    NonSquarePairs(p, a);
    var list, n := PairsMultiply(p, a, Range(1, p));
    assert n == (p - 1) / 2;
    hide Pairs, Divides, IsSquare, Factorial, Product, PowMod;
    ArrangementProduct(list, p - 1);
    Wilson(p);
  }

  /** Euler's test finds squares: what passes has a root. */
  lemma PassingIsSquare(p: nat, a: nat)
    requires Prime(p) && p > 2 && PowMod(a, (p - 1) / 2, p) <= 1
    ensures IsSquare(p, a)
  {
    hide PowMod;
    if Divides(p, a) {
      ModUnique(0, p, 0, 0);
      assert IsRoot(p, a, 0);
    } else if !IsSquare(p, a) {
      NonSquareFails(p, a);
    }
  }
}
