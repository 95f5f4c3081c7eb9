/** Digit sequences, most significant first, and the powers of two their regrouping needs. */
module Digits {
  import opened Arithmetic

  function Pow2(n: nat): (p: nat)
    ensures p >= 1
  {
    if n == 0 then 1 else 2 * Pow2(n - 1)
  }

  lemma {:induction false} Pow2Adds(m: nat, n: nat)
    ensures Pow2(m + n) == Pow2(m) * Pow2(n)
  {
    if m > 0 {
      Pow2Adds(m - 1, n);
      assert 2 * (Pow2(m - 1) * Pow2(n)) == (2 * Pow2(m - 1)) * Pow2(n);
    }
  }

  /** The number that digits spell in a base. */
  function ValueOf(digits: seq<nat>, base: nat): nat {
    if digits == [] then 0 else ValueOf(digits[..|digits| - 1], base) * base + digits[|digits| - 1]
  }

  ghost predicate AreDigits(digits: seq<nat>, base: nat) {
    forall d :: d in digits ==> d < base
  }

  lemma SmallMultiple(k: int, m: nat)
    requires -(m as int) < k * m < m
    ensures k == 0
  {
    if k >= 1 {
      MulLe(1, k, m);
    } else if k <= -1 {
      MulLe(k, -1, m);
    }
  }

  lemma DivUnique(x: nat, m: nat, q: nat, r: nat)
    requires m > 0 && r < m && x == q * m + r
    ensures x / m == q && x % m == r
  {
    var q', r' := x / m, x % m;
    assert q' * m + r' == x;
    MulDistr(q', q, m);
    SmallMultiple(q' - q, m);
  }

  lemma DivDiv(x: nat, m: nat, n: nat)
    requires m > 0 && n > 0
    ensures m * n > 0 && (x / m) / n == x / (m * n)
  {
    var y, r := x / m, x % m;
    var q, s := y / n, y % n;
    SplitTwice(x, m, n, y, r, q, s);
    DivUnique(x, m * n, q, s * m + r);
  }

  lemma SplitTwice(x: nat, m: nat, n: nat, y: nat, r: nat, q: nat, s: nat)
    requires m > 0 && n > 0 && x == y * m + r && r < m && y == q * n + s && s < n
    ensures m * n > 0 && x == q * (m * n) + (s * m + r) && s * m + r < m * n
  {
    MulDistr(q * n, s, m);
    MulAssoc(q, n, m);
    assert n * m == m * n;
    MulLe(s + 1, n, m);
    MulDistr(s, 1, m);
    MulLe(1, n, m);
  }

  lemma ValueOfAppend(digits: seq<nat>, d: nat, base: nat)
    ensures ValueOf(digits + [d], base) == ValueOf(digits, base) * base + d
  {
    assert (digits + [d])[..|digits|] == digits;
  }

  lemma LastDigit(x: nat, c: nat, y: nat, d: nat, base: nat)
    requires c < base && d < base && x * base + c == y * base + d
    ensures x == y && c == d
  {
    DivUnique(x * base + c, base, x, c);
    DivUnique(y * base + d, base, y, d);
  }

  /** Digit sequences of one length that spell one number are equal. */
  lemma {:induction false} ValueOfInjective(a: seq<nat>, b: seq<nat>, base: nat)
    requires base > 0 && AreDigits(a, base) && AreDigits(b, base)
    requires |a| == |b| && ValueOf(a, base) == ValueOf(b, base)
    ensures a == b
  {
    if a != [] {
      var n := |a| - 1;
      assert a[n] in a && b[n] in b;
      assert a == a[..n] + [a[n]] && b == b[..n] + [b[n]];
      var x, y := ValueOf(a[..n], base), ValueOf(b[..n], base);
      assert AreDigits(a[..n], base) && AreDigits(b[..n], base) by {
        assert forall d :: d in a[..n] ==> d in a;
        assert forall d :: d in b[..n] ==> d in b;
      }
      LastDigit(x, a[n], y, b[n], base);
      ValueOfInjective(a[..n], b[..n], base);
    }
  }

  // ---- regrouping bits ----

  /** `words` are the bits of `data`, `to` at a time, with fewer than `to` zeros at the end. */
  ghost predicate IsRegrouping(data: seq<nat>, from: nat, to: nat, words: seq<nat>) {
    && AreDigits(words, Pow2(to))
    && from * |data| <= to * |words| < from * |data| + to
    && ValueOf(words, Pow2(to)) == ValueOf(data, Pow2(from)) * Pow2(to * |words| - from * |data|)
  }

  lemma WordCount(to: nat, m: nat, n: nat, size: nat)
    requires to > 0 && size <= to * m < size + to && size <= to * n < size + to
    ensures m == n
  {
    MulDistr(m, n, to);
    SmallMultiple(m - n, to);
  }

  /** Bringing in `f` more bits leaves the bits above them as they were. */
  lemma BringIn(acc: nat, v: nat, bits: nat, f: nat)
    requires v < Pow2(f)
    ensures (acc * Pow2(f) + v) / Pow2(bits + f) == acc / Pow2(bits)
  {
    var x := acc * Pow2(f) + v;
    DivUnique(x, Pow2(f), acc, v);
    DivDiv(x, Pow2(f), Pow2(bits));
    Pow2Adds(f, bits);
  }

  /** Taking `t` bits off splits the number above `bits` into what was above and the word. */
  lemma TakeOut(acc: nat, bits: nat, t: nat)
    ensures acc / Pow2(bits) == acc / Pow2(bits + t) * Pow2(t) + (acc / Pow2(bits)) % Pow2(t)
    ensures (acc / Pow2(bits)) % Pow2(t) < Pow2(t)
  {
    DivDiv(acc, Pow2(bits), Pow2(t));
    Pow2Adds(bits, t);
  }

  /** The last short word carries its bits at the top. */
  lemma PadOut(acc: nat, bits: nat, t: nat)
    requires bits <= t
    ensures acc * Pow2(t - bits) == acc / Pow2(bits) * Pow2(t) + (acc * Pow2(t - bits)) % Pow2(t)
    ensures (acc * Pow2(t - bits)) % Pow2(t) < Pow2(t)
  {
    Pow2Adds(bits, t - bits);
    PadSplit(acc, Pow2(bits), Pow2(t - bits));
  }

  lemma PadSplit(acc: nat, b: nat, p: nat)
    requires b > 0 && p > 0
    ensures b * p > 0 && acc * p == acc / b * (b * p) + (acc * p) % (b * p)
  {
    var q, r := acc / b, acc % b;
    MulDistr(q * b, r, p);
    MulAssoc(q, b, p);
    MulLe(r + 1, b, p);
    MulDistr(r, 1, p);
    DivUnique(acc * p, b * p, q, r * p);
  }

  /** The words so far are the bits of `acc` above the last `bits`, which are too few for one more. */
  ghost predicate Emitted(acc: nat, bits: nat, words: seq<nat>, to: nat) {
    AreDigits(words, Pow2(to)) && ValueOf(words, Pow2(to)) == acc / Pow2(bits)
  }

  lemma EmitWord(acc: nat, bits: nat, words: seq<nat>, to: nat)
    requires bits >= to && Emitted(acc, bits, words, to)
    ensures Emitted(acc, bits - to, words + [(acc / Pow2(bits - to)) % Pow2(to)], to)
  {
    TakeOut(acc, bits - to, to);
    ValueOfAppend(words, (acc / Pow2(bits - to)) % Pow2(to), Pow2(to));
  }

  lemma EmitLast(acc: nat, bits: nat, words: seq<nat>, to: nat)
    requires bits <= to && Emitted(acc, bits, words, to)
    ensures var more := words + [(acc * Pow2(to - bits)) % Pow2(to)];
            AreDigits(more, Pow2(to)) && ValueOf(more, Pow2(to)) == acc * Pow2(to - bits)
  {
    PadOut(acc, bits, to);
    ValueOfAppend(words, (acc * Pow2(to - bits)) % Pow2(to), Pow2(to));
  }

  /** The inner loop: whole words leave from the top. */
  method Drain(acc: nat, bits: nat, words: seq<nat>, to: nat) returns (left: nat, more: seq<nat>)
    requires to > 0 && Emitted(acc, bits, words, to)
    ensures left < to && Emitted(acc, left, more, to)
    ensures to * |more| + left == to * |words| + bits
  {
    hide Emitted;
    left, more := bits, words;
    while left >= to
      invariant Emitted(acc, left, more, to)
      invariant to * |more| + left == to * |words| + bits
    {
      EmitWord(acc, left, more, to);
      MulDistr(|more|, 1, to);
      left := left - to;
      more := more + [(acc / Pow2(left)) % Pow2(to)];
    }
  }

  /** `convertbits`. */
  method ConvertBits(data: seq<nat>, from: nat, to: nat) returns (words: seq<nat>)
    requires from > 0 && to > 0 && AreDigits(data, Pow2(from))
    ensures IsRegrouping(data, from, to, words)
  {
    hide Pow2, ValueOf, IsRegrouping;
    var acc: nat, bits: nat := 0, 0;
    words := [];
    assert Emitted(0, 0, [], to) by { NothingEmitted(to); }
    assert ValueOf(data[..0], Pow2(from)) == 0 by { EmptyValue(Pow2(from)); }
    for i := 0 to |data|
      invariant acc == ValueOf(data[..i], Pow2(from)) && Emitted(acc, bits, words, to)
      invariant bits < to && to * |words| + bits == from * i
    {
      var value := data[i];
      assert value in data && data[..i + 1] == data[..i] + [value];
      ValueOfAppend(data[..i], value, Pow2(from));
      BringIn(acc, value, bits, from);
      MulLe(0, acc, Pow2(from));
      MulDistr(i, 1, from);
      acc := acc * Pow2(from) + value;
      bits, words := Drain(acc, bits + from, words, to);
    }
    assert data[..|data|] == data;
    if bits > 0 {
      FinishPadded(data, from, to, acc, bits, words);
      words := words + [(acc * Pow2(to - bits)) % Pow2(to)];
    } else {
      FinishWhole(data, from, to, acc, words);
    }
  }

  lemma FinishPadded(data: seq<nat>, from: nat, to: nat, acc: nat, bits: nat, words: seq<nat>)
    requires acc == ValueOf(data, Pow2(from)) && Emitted(acc, bits, words, to)
    requires 0 < bits < to && to * |words| + bits == from * |data|
    ensures IsRegrouping(data, from, to, words + [(acc * Pow2(to - bits)) % Pow2(to)])
  {
    EmitLast(acc, bits, words, to);
    MulDistr(|words|, 1, to);
    hide Pow2, ValueOf, Emitted;
    var more := words + [(acc * Pow2(to - bits)) % Pow2(to)];
    assert to * |more| - from * |data| == to - bits;
  }

  lemma FinishWhole(data: seq<nat>, from: nat, to: nat, acc: nat, words: seq<nat>)
    requires to > 0
    requires acc == ValueOf(data, Pow2(from)) && Emitted(acc, 0, words, to)
    requires to * |words| == from * |data|
    ensures IsRegrouping(data, from, to, words)
  {
    Whole(acc);
    hide ValueOf;
    assert to * |words| - from * |data| == 0;
  }

  lemma NothingEmitted(to: nat)
    ensures Emitted(0, 0, [], to)
  {
  }

  lemma EmptyValue(base: nat)
    ensures ValueOf([], base) == 0
  {
  }

  lemma Whole(acc: nat)
    ensures acc / Pow2(0) == acc * Pow2(0) == acc
  {
  }

  /** Data of one length is recovered from its words. */
  lemma RegroupingInjective(a: seq<nat>, b: seq<nat>, from: nat, to: nat, words: seq<nat>)
    requires AreDigits(a, Pow2(from)) && AreDigits(b, Pow2(from)) && |a| == |b|
    requires IsRegrouping(a, from, to, words) && IsRegrouping(b, from, to, words)
    ensures a == b
  {
    var p := Pow2(to * |words| - from * |a|);
    var x, y := ValueOf(a, Pow2(from)), ValueOf(b, Pow2(from));
    assert x * p == y * p;
    DivUnique(x * p, p, x, 0);
    DivUnique(y * p, p, y, 0);
    ValueOfInjective(a, b, Pow2(from));
  }

  /** Data has only one regrouping. */
  lemma RegroupingUnique(data: seq<nat>, from: nat, to: nat, u: seq<nat>, v: seq<nat>)
    requires to > 0
    requires IsRegrouping(data, from, to, u) && IsRegrouping(data, from, to, v)
    ensures u == v
  {
    WordCount(to, |u|, |v|, from * |data|);
    ValueOfInjective(u, v, Pow2(to));
  }
}
