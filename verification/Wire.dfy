/** The ssh wire format: length-prefixed strings and big integers, in the crypto leaf and in the agent. */
module Wire {
  import opened Wrappers
  import opened Digits
  import opened Bytes
  import opened Arithmetic

  // ---- strings ----

  /** `wire_string`; None is the OverflowError of a length over four bytes. */
  function WireString(data: bytes): Option<bytes> {
    match ToBytes(|data|, 4)
    case None => None
    case Some(length) => Some(length + data)
  }

  /** One string off the front: the string and what follows it. */
  function TakeString(blob: bytes): Option<(bytes, bytes)> {
    if |blob| < 4 then None
    else
      var size := FromBytes(blob[..4]);
      if size > |blob| - 4 then None else Some((blob[4..4 + size], blob[4 + size..]))
  }

  /** Every string of a blob; None is the truncation error. */
  function WireStringsOf(blob: bytes): Option<seq<bytes>>
    decreases |blob|
  {
    if blob == [] then Some([])
    else
      match TakeString(blob)
      case None => None
      case Some((s, rest)) =>
        match WireStringsOf(rest)
        case None => None
        case Some(more) => Some([s] + more)
  }

  function PrependAll(out: seq<bytes>, r: Option<seq<bytes>>): Option<seq<bytes>> {
    match r
    case None => None
    case Some(more) => Some(out + more)
  }

  /** `wire_strings`. */
  method WireStrings(blob: bytes) returns (r: Option<seq<bytes>>)
    ensures r == WireStringsOf(blob)
  {
    var out: seq<bytes> := [];
    var pos := 0;
    Unprepended(WireStringsOf(blob));
    assert blob[0..] == blob;
    while pos < |blob|
      invariant 0 <= pos <= |blob|
      invariant PrependAll(out, WireStringsOf(blob[pos..])) == WireStringsOf(blob)
    {
      ghost var rest := blob[pos..];
      if pos + 4 > |blob| {
        return None;
      }
      var size := FromBytes(blob[pos..pos + 4]);
      assert rest[..4] == blob[pos..pos + 4];
      pos := pos + 4;
      if size > |blob| - pos {
        return None;
      }
      assert rest[4..4 + size] == blob[pos..pos + size] && rest[4 + size..] == blob[pos + size..];
      NextString(rest, out);
      out := out + [blob[pos..pos + size]];
      pos := pos + size;
    }
    assert out + [] == out;
    r := Some(out);
  }

  lemma Unprepended(r: Option<seq<bytes>>)
    ensures PrependAll([], r) == r
  {
    assert r.Some? ==> [] + r.value == r.value;
  }

  lemma NextString(rest: bytes, out: seq<bytes>)
    requires TakeString(rest).Some?
    ensures PrependAll(out, WireStringsOf(rest))
         == PrependAll(out + [TakeString(rest).value.0], WireStringsOf(TakeString(rest).value.1))
  {
    var (s, more) := TakeString(rest).value;
    if WireStringsOf(more).Some? {
      assert out + ([s] + WireStringsOf(more).value) == out + [s] + WireStringsOf(more).value;
    }
  }

  /** A string short enough for its length to have four bytes. */
  predicate Fits(data: bytes) {
    |data| < Pow256(4)
  }

  /** Strings one after the other. */
  function Joined(strings: seq<bytes>): bytes {
    if strings == [] then [] else BigEndian(|strings[0]|, 4) + strings[0] + Joined(strings[1..])
  }

  lemma TakeWritten(s: bytes, rest: bytes)
    requires Fits(s)
    ensures TakeString(BigEndian(|s|, 4) + s + rest) == Some((s, rest))
  {
    hide Pow256, BigEndian, FromBytes;
    var length := BigEndian(|s|, 4);
    var blob := length + s + rest;
    FromToBytes(|s|, 4);
    assert blob[..4] == length && blob[4..4 + |s|] == s && blob[4 + |s|..] == rest;
  }

  lemma TakenWasWritten(blob: bytes)
    requires TakeString(blob).Some?
    ensures var (s, rest) := TakeString(blob).value; Fits(s) && blob == BigEndian(|s|, 4) + s + rest
  {
    hide BigEndian, FromBytes;
    ToFromBytes(blob[..4]);
  }

  /** Reading and writing are inverse both ways: a blob reads as some strings exactly when it is those strings written
      one after the other, each of a length that four bytes hold. */
  lemma {:induction false} WireStringsInverse(blob: bytes, strings: seq<bytes>)
    ensures WireStringsOf(blob) == Some(strings) <==> (forall s :: s in strings ==> Fits(s)) && blob == Joined(strings)
    decreases |blob| + |strings|
  {
    hide TakeString, BigEndian, Fits;
    if blob == [] {
      if strings != [] {
        assert |BigEndian(|strings[0]|, 4)| == 4;
      }
    } else if strings == [] {
      if TakeString(blob).Some? {
        TakenIsShorter(blob);
      }
    } else {
      var s, more := strings[0], strings[1..];
      assert s in strings && strings == [s] + more && forall x :: x in more ==> x in strings;
      if TakeString(blob).Some? {
        TakenIsShorter(blob);
        TakenWasWritten(blob);
        WireStringsInverse(TakeString(blob).value.1, more);
      }
      if Fits(s) {
        TakeWritten(s, Joined(more));
      }
    }
  }

  lemma TakenIsShorter(blob: bytes)
    requires TakeString(blob).Some?
    ensures |TakeString(blob).value.1| < |blob|
  {
  }

  // ---- big integers ----

  /** `value.bit_length()`. */
  function BitLength(v: nat): nat {
    if v == 0 then 0 else 1 + BitLength(v / 2)
  }

  /** The crypto leaf's `mpint` body: minimal bytes, a zero in front when the high bit is set. */
  function MpintBody(v: nat): bytes {
    var n := (BitLength(v) + 7) / 8;
    var raw := BigEndian(v, if n < 1 then 1 else n);
    if raw[0] >= 0x80 then [0] + raw else raw
  }

  /** The agent's `mpint` body: one bit more than the value needs, rounded up to bytes. */
  function AgentMpintBody(v: nat): bytes {
    BigEndian(v, (BitLength(v) + 8) / 8)
  }

  function Mpint(v: nat): Option<bytes> {
    WireString(MpintBody(v))
  }

  function AgentMpint(v: nat): Option<bytes> {
    WireString(AgentMpintBody(v))
  }

  lemma {:induction false} BitLengthBounds(v: nat)
    ensures v < Pow2(BitLength(v))
    ensures v > 0 ==> Pow2(BitLength(v) - 1) <= v
  {
    if v > 0 {
      BitLengthBounds(v / 2);
      if v / 2 == 0 {
        assert BitLength(v) == 1 && Pow2(0) == 1;
      }
    }
  }

  lemma {:induction false} Pow256IsPow2(n: nat)
    ensures Pow256(n) == Pow2(8 * n)
  {
    if n > 0 {
      Pow256IsPow2(n - 1);
      Pow2Adds(8, 8 * (n - 1));
      EightBits();
    }
  }

  lemma EightBits()
    ensures Pow2(8) == 256 && Pow2(7) == 128
  {
    assert Pow2(4) == 16;
    assert Pow2(6) == 64;
  }

  lemma {:induction false} Pow2Monotone(m: nat, n: nat)
    requires m <= n
    ensures Pow2(m) <= Pow2(n)
  {
    if m < n {
      Pow2Monotone(m, n - 1);
    }
  }

  /** The first byte holds the top eight bits. */
  lemma {:induction false} TopByte(v: nat, n: nat)
    requires n > 0 && v < Pow256(n)
    ensures BigEndian(v, n)[0] == v / Pow256(n - 1)
  {
    if n > 1 {
      TopByte(v / 256, n - 1);
      DivDiv(v, 256, Pow256(n - 2));
    } else {
      assert BigEndian(v / 256, 0) == [];
    }
  }

  /** A byte more than needed is a zero in front. */
  lemma {:induction false} LeadingZero(v: nat, n: nat)
    requires v < Pow256(n)
    ensures BigEndian(v, n + 1) == [0] + BigEndian(v, n)
  {
    if n > 0 {
      LeadingZero(v / 256, n - 1);
    } else {
      assert BigEndian(v / 256, 0) == [];
    }
  }

  lemma AtLeast128(v: nat, m: nat)
    requires m > 0
    ensures v / m >= 128 <==> v >= 128 * m
  {
    var q, r := v / m, v % m;
    assert v == q * m + r;
    if q >= 128 {
      MulLe(128, q, m);
    } else {
      MulLe(q + 1, 128, m);
      MulDistr(q, 1, m);
    }
  }

  lemma SevenMoreBits(k: nat)
    ensures Pow2(8 * k + 7) == 128 * Pow256(k)
  {
    Pow256IsPow2(k);
    Pow2Adds(7, 8 * k);
    EightBits();
  }

  /** A value needs `n` bits or more exactly when it reaches the power of the bit before. */
  lemma BitLengthAtLeast(v: nat, n: nat)
    requires n > 0
    ensures BitLength(v) >= n <==> v >= Pow2(n - 1)
  {
    hide BitLength, Pow2;
    BitLengthBounds(v);
    if BitLength(v) >= n {
      BitLengthOfZero(v);
      Pow2Monotone(n - 1, BitLength(v) - 1);
    } else {
      Pow2Monotone(BitLength(v), n - 1);
    }
  }

  lemma BitLengthOfZero(v: nat)
    ensures BitLength(v) > 0 ==> v > 0
  {
  }

  /** The high bit of the first of `n` bytes is set exactly when the value needs all `8n` bits. */
  lemma HighBit(v: nat, n: nat)
    requires n > 0 && v < Pow256(n)
    ensures BigEndian(v, n)[0] >= 0x80 <==> BitLength(v) >= 8 * n
  {
    hide BigEndian, BitLength, Pow256, Pow2;
    TopByte(v, n);
    AtLeast128(v, Pow256(n - 1));
    BitLengthAtLeast(v, 8 * n);
    SevenMoreBits(n - 1);
  }

  lemma NeededBytes(v: nat, n: nat)
    requires BitLength(v) <= 8 * n
    ensures v < Pow256(n)
  {
    BitLengthBounds(v);
    Pow2Monotone(BitLength(v), 8 * n);
    Pow256IsPow2(n);
  }

  /** The two codecs write one integer alike. */
  lemma MpintsAgree(v: nat)
    ensures MpintBody(v) == AgentMpintBody(v) && Mpint(v) == AgentMpint(v)
  {
    hide BitLength, BigEndian, Pow256;
    var bits := BitLength(v);
    var n := if bits == 0 then 1 else (bits + 7) / 8;
    NeededBytes(v, n);
    HighBit(v, n);
    LeadingZero(v, n);
    if bits >= 8 * n {
      assert (bits + 8) / 8 == n + 1;
    } else {
      assert (bits + 8) / 8 == n;
    }
  }

  /** What is written reads back as the value, never as a negative one, and in the fewest bytes that allow it
      (section 5 of RFC 4251; zero takes one byte here, where that section gives it none). */
  lemma MpintReadsBack(v: nat)
    ensures FromBytes(AgentMpintBody(v)) == v
    ensures AgentMpintBody(v) != [] && AgentMpintBody(v)[0] < 0x80
    ensures |AgentMpintBody(v)| > 1 ==> v >= 128 * Pow256(|AgentMpintBody(v)| - 2)
  {
    hide BitLength, BigEndian, Pow256, Pow2, FromBytes;
    var bits := BitLength(v);
    var n := (bits + 8) / 8;
    NeededBytes(v, n);
    HighBit(v, n);
    FromToBytes(v, n);
    if n > 1 {
      SevenMoreBits(n - 2);
      BitLengthAtLeast(v, 8 * n - 8);
    }
  }

  /** A public key's numbers come back out of its wire blob. */
  lemma MpintsThroughWire(name: bytes, e: nat, n: nat)
    requires Fits(name) && Mpint(e).Some? && Mpint(n).Some?
    ensures var blob := WireString(name).value + Mpint(e).value + Mpint(n).value;
      var parts: seq<bytes> := [name, MpintBody(e), MpintBody(n)];
      && WireStringsOf(blob) == Some(parts) && FromBytes(parts[1]) == e && FromBytes(parts[2]) == n
  {
    hide BitLength, BigEndian, Pow256, FromBytes, MpintBody;
    var parts: seq<bytes> := [name, MpintBody(e), MpintBody(n)];
    MpintsAgree(e);
    MpintReadsBack(e);
    MpintsAgree(n);
    MpintReadsBack(n);
    var blob := WireString(name).value + Mpint(e).value + Mpint(n).value;
    assert parts[1..] == [MpintBody(e), MpintBody(n)] && parts[1..][1..] == [MpintBody(n)];
    assert |parts[1..][1..][1..]| == 0;
    assert Joined(parts) == blob by {
      assert Joined(parts[1..][1..]) == Mpint(n).value + [];
      assert Joined(parts[1..]) == Mpint(e).value + Joined(parts[1..][1..]);
      assert Joined(parts) == WireString(name).value + Joined(parts[1..]);
    }
    WireStringsInverse(blob, parts);
  }

  // ---- section 5 of RFC 4251 ----

  /** What the section reads some bytes as: two's complement, most significant byte first, nothing being zero. */
  function TwosComplement(b: bytes): int {
    if b == [] || b[0] < 0x80 then FromBytes(b) else FromBytes(b) - Pow256(|b|)
  }

  /** The section's encoding of a number: bytes that read as it, without one to spare. */
  ghost predicate IsMpintOf(b: bytes, v: int) {
    TwosComplement(b) == v && forall c: bytes :: TwosComplement(c) == v ==> |b| <= |c|
  }

  lemma {:induction false} TopBelow128(b: bytes)
    requires b != [] && b[0] < 0x80
    ensures FromBytes(b) < 128 * Pow256(|b| - 1)
  {
    var init := b[..|b| - 1];
    if init == [] {
      assert FromBytes(init) == 0;
    } else {
      TopBelow128(init);
    }
  }

  lemma {:induction false} Pow256Monotone(m: nat, n: nat)
    requires m <= n
    ensures Pow256(m) <= Pow256(n)
  {
    if m < n {
      Pow256Monotone(m, n - 1);
    }
  }

  /** Bytes that read as a positive number start below 128. */
  lemma PositiveTop(c: bytes)
    requires TwosComplement(c) > 0
    ensures c != [] && c[0] < 0x80
  {
    ToFromBytes(c);
  }

  lemma NoShorterMpint(v: nat, b: bytes, c: bytes)
    requires b != [] && (|b| > 1 ==> v >= 128 * Pow256(|b| - 2))
    requires v > 0 && TwosComplement(c) == v
    ensures |b| <= |c|
  {
    PositiveTop(c);
    hide FromBytes;
    TopBelow128(c);
    hide Pow256;
    if |c| < |b| {
      Pow256Monotone(|c| - 1, |b| - 2);
    }
  }

  /** Both codecs meet the section exactly for the positive numbers: they write zero as one zero byte, and the section
      as none. */
  lemma MpintMeetsSection5(v: nat)
    ensures IsMpintOf(MpintBody(v), v) <==> v > 0
    ensures MpintBody(0) == AgentMpintBody(0) == [0]
  {
    ZeroIsOneByte();
    MpintsAgree(v);
    MpintReadsBack(v);
    hide MpintBody, AgentMpintBody, FromBytes, Pow256;
    var b := MpintBody(v);
    if v > 0 {
      forall c: bytes | TwosComplement(c) == v ensures |b| <= |c| {
        NoShorterMpint(v, b, c);
      }
    } else {
      var none: bytes := [];
      assert TwosComplement(none) == 0 by { ZeroIsOneByte(); }
      assert |b| > |none|;
    }
  }

  lemma ZeroIsOneByte()
    ensures MpintBody(0) == AgentMpintBody(0) == [0] && FromBytes([]) == 0
  {
  }
}
