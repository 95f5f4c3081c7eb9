/** The header's base64: standard alphabet, no padding on the wire, padding restored by length on the way in. */
module Base64 {
  import opened Wrappers
  import opened Bytes

  const PAD: nat := 61

  function Letter(d: nat): (c: nat)
    requires d < 64
  {
    if d < 26 then 65 + d else if d < 52 then 71 + d else if d < 62 then d - 4 else if d == 62 then 43 else 47
  }

  /** A letter's value; None outside the alphabet. */
  function Digit(c: nat): Option<nat> {
    if 65 <= c <= 90 then Some(c - 65)
    else if 97 <= c <= 122 then Some(c - 71)
    else if 48 <= c <= 57 then Some(c + 4)
    else if c == 43 then Some(62)
    else if c == 47 then Some(63)
    else None
  }

  predicate IsLetter(c: nat) {
    Digit(c).Some?
  }

  lemma LetterDigit(d: nat)
    requires d < 64
    ensures Digit(Letter(d)) == Some(d)
  {
  }

  lemma DigitLetter(c: nat)
    requires IsLetter(c)
    ensures Digit(c).value < 64 && Letter(Digit(c).value) == c
  {
  }

  function Quad(a: byte, b: byte, c: byte): Text {
    [Letter(a / 4), Letter(a % 4 * 16 + b / 16), Letter(b % 16 * 4 + c / 64), Letter(c % 64)]
  }

  function Triple(a: byte, b: byte): Text {
    [Letter(a / 4), Letter(a % 4 * 16 + b / 16), Letter(b % 16 * 4)]
  }

  function Pair(a: byte): Text {
    [Letter(a / 4), Letter(a % 4 * 16)]
  }

  /** The last one or two bytes: their letters without padding. */
  function Tail(data: bytes): Text
    requires |data| < 3
  {
    if data == [] then [] else if |data| == 1 then Pair(data[0]) else Triple(data[0], data[1])
  }

  /** `b64e`. */
  function B64e(data: bytes): Text {
    if |data| < 3 then Tail(data) else Quad(data[0], data[1], data[2]) + B64e(data[3..])
  }

  /** The bytes of four letters, or of the first two or three when the rest is padding. */
  function Unquad(q: Text, last: bool): Option<bytes>
    requires |q| == 4
  {
    match (Digit(q[0]), Digit(q[1]), Digit(q[2]), Digit(q[3]))
    case (Some(x), Some(y), Some(z), Some(w)) => Some([Byte1(x, y), Byte2(y, z), Byte3(z, w)])
    case (Some(x), Some(y), Some(z), None) => if last && q[3] == PAD then Some([Byte1(x, y), Byte2(y, z)]) else None
    case (Some(x), Some(y), None, None) => if last && q[2] == PAD && q[3] == PAD then Some([Byte1(x, y)]) else None
    case _ => None
  }

  function Byte1(x: nat, y: nat): byte {
    (x * 4 + y / 16) % 256
  }

  function Byte2(y: nat, z: nat): byte {
    (y % 16 * 16 + z / 4) % 256
  }

  function Byte3(z: nat, w: nat): byte {
    (z % 4 * 64 + w) % 256
  }

  /** `base64.b64decode(text, validate=True)`: whole quads, padding only in the last. */
  function Decode(text: Text): Option<bytes> {
    if text == [] then Some([])
    else if |text| < 4 then None
    else
      match Unquad(text[..4], |text| == 4)
      case None => None
      case Some(head) =>
        match Decode(text[4..])
        case None => None
        case Some(rest) => Some(head + rest)
  }

  /** `"=" * (-len(text) % 4)`. */
  function Padding(n: nat): Text {
    seq((4 - n % 4) % 4, _ => PAD)
  }

  /** `b64d`. */
  function B64d(text: Text): Option<bytes> {
    Decode(text + Padding(|text|))
  }

  // ---- decoding what was encoded ----

  lemma Split16(q: nat, r: nat)
    requires r < 16
    ensures (q * 16 + r) / 16 == q && (q * 16 + r) % 16 == r
  {
  }

  lemma Split4(q: nat, r: nat)
    requires r < 4
    ensures (q * 4 + r) / 4 == q && (q * 4 + r) % 4 == r
  {
  }

  lemma Regroup(a: byte, b: byte, c: byte)
    ensures a / 4 < 64 && a % 4 * 16 + b / 16 < 64 && b % 16 * 4 + c / 64 < 64 && c % 64 < 64
    ensures Byte1(a / 4, a % 4 * 16 + b / 16) == a
    ensures Byte2(a % 4 * 16 + b / 16, b % 16 * 4 + c / 64) == b
    ensures Byte3(b % 16 * 4 + c / 64, c % 64) == c
  {
    Split16(a % 4, b / 16);
    Split4(b % 16, c / 64);
    assert a / 4 * 4 + a % 4 == a && b / 16 * 16 + b % 16 == b && c / 64 * 64 + c % 64 == c;
  }

  lemma UnquadQuad(a: byte, b: byte, c: byte, last: bool)
    ensures Unquad(Quad(a, b, c), last) == Some([a, b, c])
  {
    LetterDigit(a / 4);
    LetterDigit(a % 4 * 16 + b / 16);
    LetterDigit(b % 16 * 4 + c / 64);
    LetterDigit(c % 64);
    Regroup(a, b, c);
    hide Letter, Digit, Byte1, Byte2, Byte3;
  }

  lemma UnquadTriple(a: byte, b: byte)
    ensures Unquad(Triple(a, b) + [PAD], true) == Some([a, b])
  {
    hide Letter, Digit, Byte1, Byte2, Byte3;
    RegroupTriple(a, b);
    LetterDigit(a / 4);
    LetterDigit(a % 4 * 16 + b / 16);
    LetterDigit(b % 16 * 4);
    PadIsNoLetter();
  }

  lemma RegroupTriple(a: byte, b: byte)
    ensures a / 4 < 64 && a % 4 * 16 + b / 16 < 64 && b % 16 * 4 < 64
    ensures Byte1(a / 4, a % 4 * 16 + b / 16) == a
    ensures Byte2(a % 4 * 16 + b / 16, b % 16 * 4) == b
  {
  }

  lemma RegroupPair(a: byte)
    ensures a / 4 < 64 && a % 4 * 16 < 64
    ensures Byte1(a / 4, a % 4 * 16) == a
  {
  }

  lemma PadIsNoLetter()
    ensures Digit(PAD) == None
  {
  }

  lemma UnquadPair(a: byte)
    ensures Unquad(Pair(a) + [PAD, PAD], true) == Some([a])
  {
    hide Letter, Digit, Byte1, Byte2, Byte3;
    RegroupPair(a);
    LetterDigit(a / 4);
    LetterDigit(a % 4 * 16);
    PadIsNoLetter();
  }

  /** Letters an encoding has: four for each three bytes, two or three for the rest. */
  lemma {:induction false} B64eLength(data: bytes)
    ensures |B64e(data)| == |data| / 3 * 4 + (if |data| % 3 == 0 then 0 else |data| % 3 + 1)
  {
    hide Letter;
    if |data| >= 3 {
      B64eLength(data[3..]);
    }
  }

  lemma {:induction false} B64eLetters(data: bytes)
    ensures forall c :: c in B64e(data) ==> IsLetter(c)
  {
    hide Letter, IsLetter;
    if |data| == 1 {
      QuadLetters(data[0], 0, 0);
    } else if |data| == 2 {
      QuadLetters(data[0], data[1], 0);
    } else if |data| >= 3 {
      QuadLetters(data[0], data[1], data[2]);
      B64eLetters(data[3..]);
    }
  }

  lemma QuadLetters(a: byte, b: byte, c: byte)
    ensures forall l :: l in Quad(a, b, c) || l in Triple(a, b) || l in Pair(a) ==> IsLetter(l)
  {
    LetterDigit(a / 4);
    LetterDigit(a % 4 * 16 + b / 16);
    LetterDigit(b % 16 * 4 + c / 64);
    LetterDigit(b % 16 * 4);
    LetterDigit(a % 4 * 16);
    LetterDigit(c % 64);
    hide Letter, Digit;
  }

  /** The padding an encoding's length asks for is the one its bytes left out. */
  lemma PaddingOf(data: bytes)
    ensures Padding(|B64e(data)|) == if |data| % 3 == 1 then [PAD, PAD] else if |data| % 3 == 2 then [PAD] else []
  {
    B64eLength(data);
    hide B64e;
    PaddingByLength(|data|, |B64e(data)|);
  }

  lemma PaddingByLength(n: nat, l: nat)
    requires l == n / 3 * 4 + (if n % 3 == 0 then 0 else n % 3 + 1)
    ensures Padding(l) == if n % 3 == 1 then [PAD, PAD] else if n % 3 == 2 then [PAD] else []
  {
  }

  lemma DecodeShort(data: bytes)
    requires 0 < |data| < 3
    ensures Decode(Tail(data) + (if |data| == 1 then [PAD, PAD] else [PAD])) == Some(data)
  {
    hide Unquad, Decode;
    if |data| == 2 {
      UnquadTriple(data[0], data[1]);
      hide Letter;
      DecodeOneQuad(Triple(data[0], data[1]) + [PAD]);
      assert data == [data[0], data[1]];
    } else {
      UnquadPair(data[0]);
      hide Letter;
      DecodeOneQuad(Pair(data[0]) + [PAD, PAD]);
      assert data == [data[0]];
    }
  }

  lemma {:induction false} DecodeEncoded(data: bytes)
    ensures Decode(B64e(data) + Padding(|B64e(data)|)) == Some(data)
  {
    hide Decode, Quad, Padding, Tail, B64e;
    PaddingOf(data);
    Unfolded(data);
    if |data| >= 3 {
      PaddingOf(data[3..]);
      DecodeEncoded(data[3..]);
      var quad, letters, pads := Quad(data[0], data[1], data[2]), B64e(data[3..]), Padding(|B64e(data)|);
      assert (quad + letters) + pads == quad + (letters + pads);
      DecodeFullQuad(data[0], data[1], data[2], letters + pads);
      assert data == [data[0], data[1], data[2]] + data[3..];
    } else if |data| > 0 {
      DecodeShort(data);
    } else {
      DecodeNothing();
    }
  }

  lemma Unfolded(data: bytes)
    ensures B64e(data) == if |data| < 3 then Tail(data) else Quad(data[0], data[1], data[2]) + B64e(data[3..])
  {
  }

  lemma DecodeNothing()
    ensures Decode(Tail([]) + []) == Some([])
  {
  }

  lemma DecodeFullQuad(a: byte, b: byte, c: byte, more: Text)
    ensures Decode(Quad(a, b, c) + more) == if Decode(more).None? then None else Some([a, b, c] + Decode(more).value)
  {
    hide Unquad;
    var text := Quad(a, b, c) + more;
    assert text[..4] == Quad(a, b, c) && text[4..] == more;
    UnquadQuad(a, b, c, |text| == 4);
    hide Quad;
  }

  lemma DecodeOneQuad(q: Text)
    requires |q| == 4
    ensures Decode(q) == Unquad(q, true)
  {
    hide Unquad;
    assert q[..4] == q && q[4..] == [];
    if Unquad(q, true).Some? {
      assert Unquad(q, true).value + [] == Unquad(q, true).value;
    }
  }

  /** Round trip: every byte string, whatever its length. */
  lemma B64RoundTrip(data: bytes)
    ensures B64d(B64e(data)) == Some(data)
  {
    DecodeEncoded(data);
  }

  /** Cutting bytes at a multiple of three cuts the letters. */
  lemma {:induction false} B64eConcat(a: bytes, b: bytes)
    requires |a| % 3 == 0
    ensures B64e(a + b) == B64e(a) + B64e(b)
  {
    if a == [] {
      assert a + b == b;
    } else {
      assert (a + b)[3..] == a[3..] + b;
      B64eConcat(a[3..], b);
    }
  }

  /** A 64-column slice of base64 is the base64 of a 48-byte slice. */
  lemma LineOf48(data: bytes)
    ensures |B64e(data)| >= 64 <==> |data| >= 48
    ensures |data| >= 48 ==> B64e(data)[..64] == B64e(data[..48]) && B64e(data)[64..] == B64e(data[48..])
  {
    B64eLength(data);
    if |data| >= 48 {
      assert data == data[..48] + data[48..];
      B64eConcat(data[..48], data[48..]);
      B64eLength(data[..48]);
    }
  }

  // ---- which encodings are accepted: the spare bits are not checked ----

  ghost predicate AllLetters(text: Text) {
    forall c :: c in text ==> IsLetter(c)
  }

  /** The bits of the last letter that no byte uses are zero. */
  predicate SpareBitsClear(text: Text) {
    var n := |text| % 4;
    && (n == 2 ==> Digit(text[|text| - 1]).Some? && Digit(text[|text| - 1]).value % 16 == 0)
    && (n == 3 ==> Digit(text[|text| - 1]).Some? && Digit(text[|text| - 1]).value % 4 == 0)
  }

  lemma Byte1Parts(x: nat, y: nat)
    requires x < 64 && y < 64
    ensures Byte1(x, y) / 4 == x && Byte1(x, y) % 4 == y / 16
  {
    assert Byte1(x, y) == x * 4 + y / 16;
  }

  lemma Byte2Parts(y: nat, z: nat)
    requires y < 64 && z < 64
    ensures Byte2(y, z) / 16 == y % 16 && Byte2(y, z) % 16 == z / 4
  {
    assert Byte2(y, z) == y % 16 * 16 + z / 4;
  }

  lemma Byte3Parts(z: nat, w: nat)
    requires z < 64 && w < 64
    ensures Byte3(z, w) / 64 == z % 4 && Byte3(z, w) % 64 == w
  {
    assert Byte3(z, w) == z % 4 * 64 + w;
  }

  lemma QuadUnquad(x: nat, y: nat, z: nat, w: nat)
    requires x < 64 && y < 64 && z < 64 && w < 64
    ensures Quad(Byte1(x, y), Byte2(y, z), Byte3(z, w)) == [Letter(x), Letter(y), Letter(z), Letter(w)]
  {
    hide Letter, Byte1, Byte2, Byte3;
    Byte1Parts(x, y);
    Byte2Parts(y, z);
    Byte3Parts(z, w);
    assert y / 16 * 16 + y % 16 == y && z / 4 * 4 + z % 4 == z;
  }

  lemma LetterInjective(d: nat, e: nat)
    requires d < 64 && e < 64
    ensures Letter(d) == Letter(e) <==> d == e
  {
    LetterDigit(d);
    LetterDigit(e);
    hide Letter, Digit;
  }

  lemma PairUnquad(x: nat, y: nat)
    requires x < 64 && y < 64
    ensures Pair(Byte1(x, y)) == [Letter(x), Letter(y)] <==> y % 16 == 0
  {
    hide Letter, Byte1;
    Byte1Parts(x, y);
    LetterInjective(y / 16 * 16, y);
  }

  lemma TripleUnquad(x: nat, y: nat, z: nat)
    requires x < 64 && y < 64 && z < 64
    ensures Triple(Byte1(x, y), Byte2(y, z)) == [Letter(x), Letter(y), Letter(z)] <==> z % 4 == 0
  {
    hide Letter, Byte1, Byte2;
    Byte1Parts(x, y);
    Byte2Parts(y, z);
    assert y / 16 * 16 + y % 16 == y;
    LetterInjective(z / 4 * 4, z);
  }

  /** Four letters of one quad, read and written back. */
  lemma OneQuad(text: Text)
    requires |text| == 4 && AllLetters(text)
    ensures forall last :: Unquad(text, last).Some? && |Unquad(text, last).value| == 3
    ensures var b := Unquad(text, false).value; Unquad(text, true).value == b && Quad(b[0], b[1], b[2]) == text
  {
    assert text[0] in text && text[1] in text && text[2] in text && text[3] in text;
    DigitLetter(text[0]);
    DigitLetter(text[1]);
    DigitLetter(text[2]);
    DigitLetter(text[3]);
    hide Letter, Digit, Byte1, Byte2, Byte3, Quad;
    QuadUnquad(Digit(text[0]).value, Digit(text[1]).value, Digit(text[2]).value, Digit(text[3]).value);
    assert text == [text[0], text[1], text[2], text[3]];
  }

  lemma UnquadPadded(c0: nat, c1: nat, c2: nat, x: nat, y: nat, z: nat)
    requires Digit(c0) == Some(x) && Digit(c1) == Some(y)
    ensures Unquad([c0, c1, PAD, PAD], true) == Some([Byte1(x, y)])
    ensures Digit(c2) == Some(z) ==> Unquad([c0, c1, c2, PAD], true) == Some([Byte1(x, y), Byte2(y, z)])
  {
    hide Digit, Byte1, Byte2, Byte3;
    PadIsNoLetter();
  }

  lemma LetterAt(text: Text, i: nat)
    requires AllLetters(text) && i < |text|
    ensures Digit(text[i]).Some? && Digit(text[i]).value < 64 && Letter(Digit(text[i]).value) == text[i]
  {
    assert text[i] in text;
    DigitLetter(text[i]);
  }

  lemma LastTwo(text: Text)
    requires |text| == 2 && AllLetters(text)
    ensures var r := Decode(text + [PAD, PAD]); r.Some? && (B64e(r.value) == text <==> SpareBitsClear(text))
  {
    hide Letter, Digit, Byte1, Decode, Unquad, AllLetters, Pair;
    LetterAt(text, 0);
    LetterAt(text, 1);
    var x, y := Digit(text[0]).value, Digit(text[1]).value;
    UnquadPadded(text[0], text[1], PAD, x, y, 0);
    PairUnquad(x, y);
    assert text == [text[0], text[1]] && text + [PAD, PAD] == [text[0], text[1], PAD, PAD];
    DecodeOneQuad(text + [PAD, PAD]);
  }

  lemma LastThree(text: Text)
    requires |text| == 3 && AllLetters(text)
    ensures var r := Decode(text + [PAD]); r.Some? && (B64e(r.value) == text <==> SpareBitsClear(text))
  {
    hide Letter, Digit, Byte1, Byte2, Decode, Unquad, AllLetters, Triple;
    LetterAt(text, 0);
    LetterAt(text, 1);
    LetterAt(text, 2);
    var x, y, z := Digit(text[0]).value, Digit(text[1]).value, Digit(text[2]).value;
    UnquadPadded(text[0], text[1], text[2], x, y, z);
    TripleUnquad(x, y, z);
    assert text == [text[0], text[1], text[2]] && text + [PAD] == [text[0], text[1], text[2], PAD];
    DecodeOneQuad(text + [PAD]);
  }

  lemma LoneLetter(text: Text)
    requires |text| == 1
    ensures Decode(text + [PAD, PAD, PAD]) == None
  {
    PadIsNoLetter();
    DecodeOneQuad(text + [PAD, PAD, PAD]);
  }

  /** A text of letters alone is accepted unless one letter is left over, and is the encoding of what it decodes to
      exactly when its spare bits are clear. */
  lemma {:induction false} LettersWhenSpareBitsClear(text: Text)
    requires AllLetters(text)
    ensures B64d(text).Some? <==> |text| % 4 != 1
    ensures B64d(text).Some? ==> (B64e(B64d(text).value) == text <==> SpareBitsClear(text))
  {
    hide B64d, B64e, SpareBitsClear, AllLetters;
    if |text| >= 4 {
      LettersSplit(text);
      LettersWhenSpareBitsClear(text[4..]);
      CanonicalQuad(text);
    } else {
      CanonicalShort(text);
    }
  }

  lemma LettersSplit(text: Text)
    requires AllLetters(text) && |text| >= 4
    ensures AllLetters(text[..4]) && AllLetters(text[4..])
  {
    assert forall c :: c in text[..4] || c in text[4..] ==> c in text;
  }

  lemma CanonicalShort(text: Text)
    requires AllLetters(text) && |text| < 4
    ensures B64d(text).Some? <==> |text| % 4 != 1
    ensures B64d(text).Some? ==> (B64e(B64d(text).value) == text <==> SpareBitsClear(text))
  {
    PaddingShort();
    hide B64e, SpareBitsClear, Padding, Decode, AllLetters;
    if |text| == 3 {
      LastThree(text);
    } else if |text| == 2 {
      LastTwo(text);
    } else if |text| == 1 {
      LoneLetter(text);
    } else {
      CanonicalEmpty(text);
    }
  }

  lemma PaddingShort()
    ensures Padding(1) == [PAD, PAD, PAD] && Padding(2) == [PAD, PAD] && Padding(3) == [PAD] && Padding(0) == []
  {
  }

  lemma CanonicalEmpty(text: Text)
    requires text == []
    ensures Decode(text + []) == Some([]) && B64e([]) == text && SpareBitsClear(text)
  {
  }

  /** The first quad of an unpadded text neither fails nor loses anything. */
  lemma CanonicalQuad(text: Text)
    requires AllLetters(text) && |text| >= 4
    ensures B64d(text).Some? <==> B64d(text[4..]).Some?
    ensures B64d(text).Some? ==>
      (B64e(B64d(text).value) == text <==> B64e(B64d(text[4..]).value) == text[4..])
    ensures SpareBitsClear(text) <==> SpareBitsClear(text[4..])
  {
    hide Unquad, Quad, AllLetters, Digit, Tail, Decode, B64e, Padding;
    FirstQuad(text);
    var q, rest := text[..4], text[4..];
    if B64d(rest).Some? {
      var more := B64d(rest).value;
      assert (q + B64e(more))[4..] == B64e(more) && text == q + rest;
    }
  }

  lemma FirstQuad(text: Text)
    requires AllLetters(text) && |text| >= 4
    ensures B64d(text).Some? <==> B64d(text[4..]).Some?
    ensures B64d(text).Some? ==> B64e(B64d(text).value) == text[..4] + B64e(B64d(text[4..]).value)
  {
    var q, rest := text[..4], text[4..];
    LettersSplit(text);
    OneQuad(q);
    hide Unquad, Quad, AllLetters, Digit, Tail, Decode, B64e, Padding;
    var b := Unquad(q, false).value;
    SamePadding(|rest|);
    var padded := rest + Padding(|rest|);
    assert text + Padding(|text|) == q + padded;
    DecodeFirst(q, padded);
    if Decode(padded).Some? {
      EncodeQuad(b, Decode(padded).value);
    }
  }

  lemma SamePadding(n: nat)
    ensures Padding(n + 4) == Padding(n)
  {
    assert (n + 4) % 4 == n % 4;
  }

  lemma DecodeFirst(q: Text, more: Text)
    requires |q| == 4 && Unquad(q, false).Some? && Unquad(q, true) == Unquad(q, false)
    ensures Decode(q + more) == if Decode(more).None? then None else Some(Unquad(q, false).value + Decode(more).value)
  {
    hide Unquad;
    assert (q + more)[..4] == q && (q + more)[4..] == more;
  }

  lemma EncodeQuad(b: bytes, more: bytes)
    requires |b| == 3
    ensures B64e(b + more) == Quad(b[0], b[1], b[2]) + B64e(more)
  {
    assert (b + more)[3..] == more;
  }

  // ---- every text ----

  /** How many letters a text starts with. */
  function LetterRun(text: Text): (n: nat)
    ensures n <= |text|
    ensures AllLetters(text[..n]) && (n < |text| ==> !IsLetter(text[n]))
  {
    if text == [] || !IsLetter(text[0]) then 0
    else
      var n := LetterRun(text[1..]);
      assert text[..n + 1] == [text[0]] + text[1..][..n];
      n + 1
  }

  ghost predicate AllPads(text: Text) {
    forall c :: c in text ==> c == PAD
  }

  /** Letters that leave no single one over, then at most the padding that these letters need. */
  ghost predicate IsAcceptable(text: Text) {
    var n := LetterRun(text);
    n % 4 != 1 && AllPads(text[n..]) && |text| - n <= |Padding(n)|
  }

  lemma {:induction false} RunIs(text: Text, n: nat)
    requires n <= |text| && AllLetters(text[..n]) && (n < |text| ==> !IsLetter(text[n]))
    ensures LetterRun(text) == n
  {
    hide IsLetter;
    if n > 0 {
      var run, rest := text[..n], text[1..];
      assert run[0] in run && forall c :: c in run[1..] ==> c in run;
      assert rest[..n - 1] == run[1..];
      RunIs(rest, n - 1);
    }
  }

  lemma PadEndsRun(text: Text, pads: Text)
    requires AllPads(pads)
    ensures LetterRun(text + pads) == LetterRun(text)
  {
    PadIsNoLetter();
    hide Digit, LetterRun, AllLetters;
    var n, all := LetterRun(text), text + pads;
    assert all[..n] == text[..n];
    if n < |all| {
      assert all[n] == (if n < |text| then text[n] else pads[0]);
      assert pads != [] ==> pads[0] in pads;
    }
    RunIs(all, n);
  }

  lemma LastQuad(q: Text)
    requires |q| == 4 && Unquad(q, true).Some?
    ensures LetterRun(q) >= 2 && AllPads(q[LetterRun(q)..]) && |Unquad(q, true).value| == LetterRun(q) - 1
  {
    PadIsNoLetter();
    hide Byte1, Byte2, Byte3, LetterRun;
    var n := if IsLetter(q[3]) then 4 else if IsLetter(q[2]) then 3 else 2;
    assert forall i :: 0 <= i < n ==> IsLetter(q[i]);
    assert forall i :: n <= i < 4 ==> q[i] == PAD;
    RunIs(q, n);
  }

  lemma FullQuad(q: Text, rest: Text)
    requires |q| == 4 && Unquad(q, false).Some?
    ensures Unquad(q, false).value == Unquad(q, true).value && |Unquad(q, false).value| == 3
    ensures LetterRun(q + rest) == LetterRun(rest) + 4
  {
    hide Byte1, Byte2, Byte3, LetterRun;
    var n := LetterRun(rest);
    var t := q + rest;
    assert t[..n + 4] == q + rest[..n];
    assert forall i :: 0 <= i < 4 ==> IsLetter(q[i]);
    RunIs(t, n + 4);
  }

  /** Whole quads of letters with at most two pads at the end, three bytes a quad less the pads. */
  ghost predicate HasShape(t: Text, size: nat) {
    var pads := |t| - LetterRun(t);
    |t| % 4 == 0 && pads <= 2 && AllPads(t[LetterRun(t)..]) && size == |t| / 4 * 3 - pads
  }

  lemma OneMoreQuad(q: Text, rest: Text, size: nat)
    requires |q| == 4 && Unquad(q, false).Some? && HasShape(rest, size)
    ensures HasShape(q + rest, size + 3)
  {
    FullQuad(q, rest);
    hide Unquad, LetterRun;
    var t := q + rest;
    assert t[LetterRun(t)..] == rest[LetterRun(rest)..];
    assert |t| / 4 == |rest| / 4 + 1;
  }

  lemma {:induction false} DecodedShape(t: Text)
    requires Decode(t).Some?
    ensures HasShape(t, |Decode(t).value|)
  {
    hide Unquad, IsLetter, LetterRun, HasShape;
    if t == [] {
      NothingHasShape();
    } else {
      var q, rest := t[..4], t[4..];
      assert t == q + rest;
      if rest == [] {
        LastQuad(q);
        QuadHasShape(q);
        assert Decode(rest) == Some([]);
        assert t == q;
      } else {
        DecodedShape(rest);
        FullQuad(q, rest);
        OneMoreQuad(q, rest, |Decode(rest).value|);
      }
    }
  }

  lemma NothingHasShape()
    ensures HasShape([], 0)
  {
  }

  lemma QuadHasShape(q: Text)
    requires |q| == 4 && LetterRun(q) >= 2 && AllPads(q[LetterRun(q)..])
    ensures HasShape(q, LetterRun(q) - 1)
  {
    hide LetterRun;
  }

  lemma PadsOf(n: nat, size: nat)
    requires n <= size && (n % 4 != 1 && size - n <= |Padding(n)|)
    ensures size - n + |Padding(size)| == |Padding(n)| && AllPads(Padding(size)) && AllPads(Padding(n))
  {
  }

  /** An acceptable text stands for its letters. */
  lemma PadsAreImplied(text: Text)
    requires IsAcceptable(text)
    ensures text + Padding(|text|) == text[..LetterRun(text)] + Padding(LetterRun(text))
  {
    var n := LetterRun(text);
    PadsOf(n, |text|);
    hide *;
    OnlyPads(text[n..], Padding(|text|), Padding(n));
    assert text == text[..n] + text[n..];
  }

  lemma OnlyPads(own: Text, added: Text, all: Text)
    requires AllPads(own) && AllPads(added) && AllPads(all) && |own| + |added| == |all|
    ensures own + added == all
  {
    forall i | 0 <= i < |all| ensures (own + added)[i] == all[i] {
      assert all[i] in all;
      assert if i < |own| then own[i] in own else added[i - |own|] in added;
    }
  }

  lemma AcceptedIsAcceptable(text: Text)
    requires B64d(text).Some?
    ensures IsAcceptable(text)
    ensures var n := LetterRun(text); |B64d(text).value| == n / 4 * 3 + (if n % 4 == 0 then 0 else n % 4 - 1)
  {
    hide Decode, LetterRun;
    var pads := Padding(|text|);
    var t := text + pads;
    DecodedShape(t);
    PadEndsRun(text, pads);
    var n := LetterRun(text);
    assert t[n..] == text[n..] + pads;
    assert forall c :: c in text[n..] ==> c in t[n..];
    QuadCount(n, |t|);
  }

  lemma QuadCount(n: nat, size: nat)
    requires n <= size && size % 4 == 0 && size - n <= 2
    ensures n % 4 != 1 && |Padding(n)| == size - n
    ensures size / 4 * 3 - (size - n) == n / 4 * 3 + (if n % 4 == 0 then 0 else n % 4 - 1)
  {
  }

  /** Of all texts exactly the acceptable ones are accepted, each decodes as its letters do, and one is the encoding of
      what it decodes to exactly when it is letters alone and its spare bits are clear. */
  lemma CanonicalWhenSpareBitsClear(text: Text)
    ensures B64d(text).Some? <==> IsAcceptable(text)
    ensures B64d(text).Some? ==> B64d(text) == B64d(text[..LetterRun(text)])
    ensures B64d(text).Some? ==> (B64e(B64d(text).value) == text <==> AllLetters(text) && SpareBitsClear(text))
  {
    hide LetterRun, Decode, SpareBitsClear, B64e, Padding;
    if IsAcceptable(text) {
      PadsAreImplied(text);
      LettersWhenSpareBitsClear(text[..LetterRun(text)]);
    }
    if B64d(text).Some? {
      AcceptedIsAcceptable(text);
      if AllLetters(text) {
        LettersWhenSpareBitsClear(text);
      } else {
        B64eLetters(B64d(text).value);
      }
    }
  }

  /** Two different texts decode to one byte: strictness does not reach the spare bits. */
  lemma NonCanonicalIsAccepted()
    ensures var (q, r) := ([81, 81], [81, 82]); B64d(q) == Some([65]) && B64d(r) == Some([65])
  {
    DecodeOneQuad([81, 81, PAD, PAD]);
    DecodeOneQuad([81, 82, PAD, PAD]);
    assert [81, 81] + Padding(2) == [81, 81, PAD, PAD];
    assert [81, 82] + Padding(2) == [81, 82, PAD, PAD];
  }

  /** Nor to padding: texts that carry some or all of their own decode to that byte too. */
  lemma PaddedIsAccepted()
    ensures B64d([81, 81, PAD]) == Some([65]) && B64d([81, 81, PAD, PAD]) == Some([65]) && B64e([65]) == [81, 81]
  {
    NonCanonicalIsAccepted();
    DecodeOneQuad([81, 81, PAD, PAD]);
    assert [81, 81] + Padding(2) == [81, 81, PAD, PAD];
    assert [81, 81, PAD] + Padding(3) == [81, 81, PAD, PAD];
    assert [81, 81, PAD, PAD] + Padding(4) == [81, 81, PAD, PAD];
  }
}
