/** `encode_bech32`: bytes as a bech32 string under a human-readable part. */
module Bech32Text {
  import opened Bech32
  import opened Digits

  const BECH32_CHARSET: string := "qpzry9x8gf2tvdw0s3jn54khce6mua7l"

  lemma CharsetIsInjective(i: nat, j: nat)
    requires i < j < |BECH32_CHARSET|
    ensures BECH32_CHARSET[i] != BECH32_CHARSET[j]
  {
  }

  lemma CharsetSize()
    ensures |BECH32_CHARSET| == 32
  {
  }

  /** One bit on the right. */
  function PushBit(x: Acc, bit: nat): Acc {
    (x << 1) ^ (if bit == 1 then 1 else 0)
  }

  /** The accumulator value of a small number. */
  function FromNat(n: nat): Acc {
    if n == 0 then 0 else PushBit(FromNat(n / 2), n % 2)
  }

  function Codes(hrp: string): seq<Acc> {
    if hrp == [] then [] else [FromNat(hrp[0] as int)] + Codes(hrp[1..])
  }

  function ToAcc(words: seq<nat>): seq<Acc>
    requires AreDigits(words, 32)
  {
    if words == [] then []
    else
      assert words[0] in words && forall w :: w in words[1..] ==> w in words;
      [FromNat(words[0])] + ToAcc(words[1..])
  }

  function Char(w: Acc): char
    requires w < 32
  {
    CharsetSize();
    BECH32_CHARSET[w as int]
  }

  function Chars(words: seq<Acc>): string
    requires Below(words, 32)
  {
    if words == [] then ""
    else
      assert words[0] in words && forall w :: w in words[1..] ==> w in words;
      [Char(words[0])] + Chars(words[1..])
  }

  /** `limit` is the power of two `m`. */
  ghost predicate IsPower(m: nat, limit: Acc) {
    if m <= 1 then m == 1 && limit == 1
    else m % 2 == 0 && limit & 1 == 0 && limit <= STATE && IsPower(m / 2, limit >> 1)
  }

  lemma PushBitBelow(x: Acc, bit: nat, limit: Acc)
    requires x < (limit >> 1) && limit & 1 == 0 && limit <= STATE
    ensures PushBit(x, bit) < limit
  {
  }

  lemma {:induction false} FromNatBelow(n: nat, m: nat, limit: Acc)
    requires n < m && IsPower(m, limit)
    ensures FromNat(n) < limit && limit <= STATE
    decreases m
  {
    if m <= 1 {
      assert FromNat(0) == 0;
    } else {
      FromNatUnfold(n);
      hide PushBit, FromNat;
      FromNatBelow(n / 2, m / 2, limit >> 1);
      PushBitBelow(FromNat(n / 2), n % 2, limit);
    }
  }

  lemma PushBitInjective(x: Acc, b: nat, y: Acc, c: nat)
    requires x < STATE && y < STATE && b < 2 && c < 2 && PushBit(x, b) == PushBit(y, c)
    ensures x == y && b == c
  {
  }

  lemma {:induction false} FromNatInjective(a: nat, b: nat, m: nat, limit: Acc)
    requires a < m && b < m && IsPower(m, limit) && FromNat(a) == FromNat(b)
    ensures a == b
    decreases m
  {
    hide PushBit;
    if m > 1 {
      FromNatBelow(a / 2, m / 2, limit >> 1);
      FromNatBelow(b / 2, m / 2, limit >> 1);
      FromNatUnfold(a);
      FromNatUnfold(b);
      PushBitInjective(FromNat(a / 2), a % 2, FromNat(b / 2), b % 2);
      FromNatInjective(a / 2, b / 2, m / 2, limit >> 1);
    }
  }

  lemma FromNatUnfold(n: nat)
    ensures FromNat(n) == PushBit(FromNat(n / 2), n % 2)
  {
    if n == 0 {
      assert (0 as Acc) << 1 == 0;
    }
  }

  lemma ThirtyTwo()
    ensures IsPower(32, 32)
  {
    assert IsPower(4, 4);
  }

  lemma TwentyOneBits()
    ensures IsPower(0x20_0000, CODE_POINTS)
  {
    assert IsPower(4, 4);
    assert IsPower(16, 16);
    assert IsPower(0x40, 0x40);
    assert IsPower(0x100, 0x100);
    assert IsPower(0x400, 0x400);
    assert IsPower(0x1000, 0x1000);
    assert IsPower(0x4000, 0x4000);
    assert IsPower(0x1_0000, 0x1_0000);
    assert IsPower(0x4_0000, 0x4_0000);
    assert IsPower(0x10_0000, 0x10_0000);
  }

  lemma {:induction false} CodesAreCodePoints(hrp: string)
    ensures Below(Codes(hrp), CODE_POINTS)
  {
    hide FromNat;
    if hrp != [] {
      CodesAreCodePoints(hrp[1..]);
      TwentyOneBits();
      FromNatBelow(hrp[0] as int, 0x20_0000, CODE_POINTS);
    }
  }

  lemma {:induction false} ToAccWords(words: seq<nat>)
    requires AreDigits(words, 32)
    ensures |ToAcc(words)| == |words| && Below(ToAcc(words), 32)
  {
    hide FromNat;
    if words != [] {
      assert words[0] in words && forall w :: w in words[1..] ==> w in words;
      ToAccWords(words[1..]);
      ThirtyTwo();
      FromNatBelow(words[0], 32, 32);
    }
  }

  lemma {:induction false} ToAccInjective(a: seq<nat>, b: seq<nat>)
    requires AreDigits(a, 32) && AreDigits(b, 32) && ToAcc(a) == ToAcc(b)
    ensures a == b
  {
    hide FromNat;
    ToAccWords(a);
    ToAccWords(b);
    if a != [] {
      assert a[0] in a && b[0] in b;
      assert AreDigits(a[1..], 32) by { assert forall w :: w in a[1..] ==> w in a; }
      assert AreDigits(b[1..], 32) by { assert forall w :: w in b[1..] ==> w in b; }
      assert ToAcc(a)[0] == FromNat(a[0]) && ToAcc(b)[0] == FromNat(b[0]);
      assert ToAcc(a)[1..] == ToAcc(a[1..]) && ToAcc(b)[1..] == ToAcc(b[1..]);
      ThirtyTwo();
      FromNatInjective(a[0], b[0], 32, 32);
      ToAccInjective(a[1..], b[1..]);
      assert a == [a[0]] + a[1..] && b == [b[0]] + b[1..];
    }
  }

  lemma CharInjective(u: Acc, v: Acc)
    requires u < 32 && v < 32 && Char(u) == Char(v)
    ensures u == v
  {
    CharsetSize();
    var i, j := u as int, v as int;
    if i < j {
      CharsetIsInjective(i, j);
    } else if j < i {
      CharsetIsInjective(j, i);
    }
  }

  lemma {:induction false} CharsInjective(u: seq<Acc>, v: seq<Acc>)
    requires Below(u, 32) && Below(v, 32) && Chars(u) == Chars(v)
    ensures u == v
  {
    hide Char;
    if u == [] || v == [] {
      assert u == v;
    } else {
      assert u[0] in u && v[0] in v;
      assert Below(u[1..], 32) by { assert forall w :: w in u[1..] ==> w in u; }
      assert Below(v[1..], 32) by { assert forall w :: w in v[1..] ==> w in v; }
      assert Chars(u)[0] == Char(u[0]) && Chars(v)[0] == Char(v[0]);
      assert Chars(u)[1..] == Chars(u[1..]) && Chars(v)[1..] == Chars(v[1..]);
      CharInjective(u[0], v[0]);
      CharsInjective(u[1..], v[1..]);
      assert u == [u[0]] + u[1..] && v == [v[0]] + v[1..];
    }
  }

  /** The string's words: the regrouped data, then its checksum. */
  ghost predicate AreWordsOf(hrp: string, data: seq<nat>, words: seq<Acc>) {
    exists five: seq<nat> :: IsFive(data, five) && words == ToAcc(five) + Checksum(Codes(hrp), ToAcc(five))
  }

  ghost predicate IsFive(data: seq<nat>, five: seq<nat>) {
    AreDigits(five, 32) && IsRegrouping(data, 8, 5, five)
  }

  ghost predicate IsBytes(data: seq<nat>) {
    AreDigits(data, 256)
  }

  ghost predicate IsBech32(hrp: string, data: seq<nat>, text: string) {
    exists words: seq<Acc> :: Below(words, 32) && AreWordsOf(hrp, data, words) && text == hrp + "1" + Chars(words)
  }

  lemma Powers()
    ensures Pow2(8) == 256 && Pow2(5) == 32
  {
    assert Pow2(4) == 16;
    assert Pow2(6) == 64;
  }

  /** `encode_bech32`. */
  method EncodeBech32(hrp: string, data: seq<nat>) returns (text: string)
    requires IsBytes(data)
    ensures IsBech32(hrp, data, text)
  {
    hide Checksum, IsRegrouping, Chars, ToAcc, Codes;
    Powers();
    var five := ConvertBits(data, 8, 5);
    assert AreDigits(five, 32) by { RegroupedDigits(data, five); }
    ToAccWords(five);
    CodesAreCodePoints(hrp);
    var w := ToAcc(five);
    ChecksumCompletes(Codes(hrp), w);
    var words := w + Checksum(Codes(hrp), w);
    assert IsFive(data, five);
    assert AreWordsOf(hrp, data, words);
    text := hrp + "1" + Chars(words);
  }

  lemma RegroupedDigits(data: seq<nat>, five: seq<nat>)
    requires IsRegrouping(data, 8, 5, five)
    ensures AreDigits(five, 32)
  {
    Powers();
  }

  /** What a reader of the string finds after the separator passes BIP-173's check and has the right length. */
  lemma EncodingVerifies(hrp: string, data: seq<nat>, text: string) returns (words: seq<Acc>)
    requires IsBech32(hrp, data, text)
    ensures Below(words, 32) && text == hrp + "1" + Chars(words) && Verifies(Codes(hrp), words)
    ensures 8 * |data| <= 5 * (|words| - 6) < 8 * |data| + 5
  {
    hide Checksum, Verifies, Chars, ToAcc, Codes;
    words :| Below(words, 32) && AreWordsOf(hrp, data, words) && text == hrp + "1" + Chars(words);
    var five :| IsFive(data, five) && words == ToAcc(five) + Checksum(Codes(hrp), ToAcc(five));
    ToAccWords(five);
    CodesAreCodePoints(hrp);
    ChecksumCompletes(Codes(hrp), ToAcc(five));
  }

  /** Under one human-readable part no two byte strings, of any lengths, share an encoding. */
  lemma EncodingInjective(hrp: string, a: seq<nat>, b: seq<nat>, text: string)
    requires IsBytes(a) && IsBytes(b)
    requires IsBech32(hrp, a, text) && IsBech32(hrp, b, text)
    ensures a == b
  {
    hide Checksum, Chars, ToAcc, Codes, IsRegrouping;
    Powers();
    var u :| Below(u, 32) && AreWordsOf(hrp, a, u) && text == hrp + "1" + Chars(u);
    var v :| Below(v, 32) && AreWordsOf(hrp, b, v) && text == hrp + "1" + Chars(v);
    assert Chars(u) == text[|hrp| + 1..] == Chars(v);
    CharsInjective(u, v);
    var f :| IsFive(a, f) && u == ToAcc(f) + Checksum(Codes(hrp), ToAcc(f));
    var g :| IsFive(b, g) && v == ToAcc(g) + Checksum(Codes(hrp), ToAcc(g));
    CodesAreCodePoints(hrp);
    ToAccWords(f);
    ToAccWords(g);
    ChecksumCompletes(Codes(hrp), ToAcc(f));
    ChecksumCompletes(Codes(hrp), ToAcc(g));
    assert ToAcc(f) == u[..|u| - 6] == ToAcc(g);
    ToAccInjective(f, g);
    SameLength(a, b, f);
    RegroupingInjective(a, b, 8, 5, f);
  }

  lemma SameLength(a: seq<nat>, b: seq<nat>, five: seq<nat>)
    requires IsRegrouping(a, 8, 5, five) && IsRegrouping(b, 8, 5, five)
    ensures |a| == |b|
  {
  }
}
