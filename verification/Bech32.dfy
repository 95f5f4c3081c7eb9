/** The bech32 checksum of agecrypto: a 30-bit polynomial remainder over GF(2). */
module Bech32 {

  /** The accumulator lives in 30 bits; 32 are kept so that nothing the code computes is cut off. */
  type Acc = bv32

  const STATE: Acc := 0x4000_0000

  /** Code points have at most 21 bits. */
  const CODE_POINTS: Acc := 0x20_0000

  function Xor(a: Acc, b: Acc): Acc {
    a ^ b
  }

  /** The part of the state that one word pushes out. */
  function Top(chk: Acc): Acc {
    chk >> 25
  }

  /** The rest of the state, moved up by one word. */
  function Shifted(chk: Acc): Acc {
    (chk & 0x1FF_FFFF) << 5
  }

  /** `(top >> i) & 1`. */
  function Bit(top: Acc, i: nat): Acc {
    if i == 0 then Low(top) else Bit(Half(top), i - 1)
  }

  /** `gen[i] if (top >> i) & 1 else 0`. */
  function Row(bit: Acc, gen: Acc): Acc {
    if bit == 1 then gen else 0
  }

  function Generator(i: nat): Acc {
    match i
    case 0 => 0x3B6A57B2
    case 1 => 0x26508E6D
    case 2 => 0x1EA119FA
    case 3 => 0x3D4233DD
    case _ => 0x2A1462B3
  }

  /** `acc` plus the generator rows `i..5` that `top`'s bits select. */
  function Feedback(acc: Acc, top: Acc, i: nat): Acc
    decreases 5 - i
  {
    if i >= 5 then acc else Feedback(Xor(acc, Row(Bit(top, i), Generator(i))), top, i + 1)
  }

  /** One word into the accumulator. */
  function Step(chk: Acc, value: Acc): Acc {
    Feedback(Xor(Shifted(chk), value), Top(chk), 0)
  }

  function PolymodFrom(chk: Acc, values: seq<Acc>): Acc
    decreases |values|
  {
    if values == [] then chk else PolymodFrom(Step(chk, values[0]), values[1..])
  }

  function Polymod(values: seq<Acc>): Acc {
    PolymodFrom(1, values)
  }

  ghost predicate Below(values: seq<Acc>, bound: Acc) {
    forall v :: v in values ==> v < bound
  }

  /** `bech32_polymod`. */
  method Bech32Polymod(values: seq<Acc>) returns (chk: Acc)
    requires Below(values, STATE)
    ensures chk == Polymod(values) && chk < STATE
  {
    chk := 1;
    for n := 0 to |values|
      invariant chk < STATE && PolymodFrom(chk, values[n..]) == Polymod(values)
    {
      var value := values[n];
      assert values[n..][0] == value && values[n..][1..] == values[n + 1..] && value in values;
      ghost var before := chk;
      var top := Top(chk);
      chk := Xor(Shifted(chk), value);
      for i := 0 to 5
        invariant Feedback(chk, top, i) == Step(before, value)
      {
        chk := Xor(chk, Row(Bit(top, i), Generator(i)));
      }
      StepStaysInState(before, value);
    }
  }

  // ---- the algebra of one step ----

  lemma RowStaysInState(acc: Acc, bit: Acc, i: nat)
    requires acc < STATE
    ensures Xor(acc, Row(bit, Generator(i))) < STATE
  {
  }

  lemma FeedbackStaysInState(acc: Acc, top: Acc, i: nat)
    requires acc < STATE
    ensures Feedback(acc, top, i) < STATE
    decreases 5 - i
  {
    hide Bit, Row, Xor, Generator;
    if i < 5 {
      RowStaysInState(acc, Bit(top, i), i);
      FeedbackStaysInState(Xor(acc, Row(Bit(top, i), Generator(i))), top, i + 1);
    }
  }

  /** The state never outgrows 30 bits. */
  lemma StepStaysInState(chk: Acc, value: Acc)
    requires value < STATE
    ensures Step(chk, value) < STATE
  {
    FeedbackStaysInState(Xor(Shifted(chk), value), Top(chk), 0);
  }

  lemma XorLaws(a: Acc, b: Acc, c: Acc)
    ensures a ^ b == b ^ a
    ensures (a ^ b) ^ c == a ^ (b ^ c)
    ensures a ^ 0 == a && a ^ a == 0
  {
  }

  lemma XorAssociates(a: Acc, b: Acc, c: Acc)
    ensures Xor(Xor(a, b), c) == Xor(a, Xor(b, c))
  {
    XorLaws(a, b, c);
  }

  lemma XorSwap(a: Acc, b: Acc, c: Acc, d: Acc)
    ensures Xor(Xor(a, b), Xor(c, d)) == Xor(Xor(a, c), Xor(b, d))
  {
    assert Xor(b, c) == Xor(c, b) by { XorLaws(b, c, 0); }
    hide Xor;
    XorAssociates(a, b, Xor(c, d));
    XorAssociates(b, c, d);
    XorAssociates(c, b, d);
    XorAssociates(a, c, Xor(b, d));
  }

  lemma ShiftLinear(a: Acc, b: Acc)
    ensures (a ^ b) >> 1 == (a >> 1) ^ (b >> 1)
    ensures (a ^ b) & 1 == (a & 1) ^ (b & 1)
  {
  }

  function Half(x: Acc): Acc {
    x >> 1
  }

  function Low(x: Acc): Acc {
    x & 1
  }

  lemma HalfLinear(a: Acc, b: Acc)
    ensures Half(Xor(a, b)) == Xor(Half(a), Half(b)) && Low(Xor(a, b)) == Xor(Low(a), Low(b))
  {
    ShiftLinear(a, b);
  }

  lemma {:induction false} BitLinear(a: Acc, b: Acc, i: nat)
    ensures Bit(Xor(a, b), i) == Xor(Bit(a, i), Bit(b, i))
    decreases i
  {
    hide Xor, Half, Low;
    HalfLinear(a, b);
    if i > 0 {
      BitLinear(Half(a), Half(b), i - 1);
    }
  }

  lemma BitIsBit(a: Acc, i: nat)
    ensures Bit(a, i) < 2
  {
  }

  lemma RowLinear(x: Acc, y: Acc, gen: Acc)
    requires x < 2 && y < 2
    ensures Row(Xor(x, y), gen) == Xor(Row(x, gen), Row(y, gen))
  {
    assert (x == 0 || x == 1) && (y == 0 || y == 1);
  }

  lemma {:induction false} FeedbackLinear(a: Acc, b: Acc, s: Acc, t: Acc, i: nat)
    ensures Feedback(Xor(a, b), Xor(s, t), i) == Xor(Feedback(a, s, i), Feedback(b, t, i))
    decreases 5 - i
  {
    hide Xor, Row, Bit, Generator;
    if i < 5 {
      var r, q := Row(Bit(s, i), Generator(i)), Row(Bit(t, i), Generator(i));
      BitLinear(s, t, i);
      BitIsBit(s, i);
      BitIsBit(t, i);
      RowLinear(Bit(s, i), Bit(t, i), Generator(i));
      XorSwap(a, b, r, q);
      FeedbackLinear(Xor(a, r), Xor(b, q), s, t, i + 1);
    }
  }

  lemma StateLinear(a: Acc, b: Acc)
    ensures Top(Xor(a, b)) == Xor(Top(a), Top(b))
    ensures Shifted(Xor(a, b)) == Xor(Shifted(a), Shifted(b))
  {
  }

  /** The step is linear over GF(2) in the state and the word together. */
  lemma StepLinear(a: Acc, b: Acc, u: Acc, v: Acc)
    ensures Step(Xor(a, b), Xor(u, v)) == Xor(Step(a, u), Step(b, v))
  {
    hide Xor, Top, Shifted, Feedback;
    StateLinear(a, b);
    XorSwap(Shifted(a), Shifted(b), u, v);
    FeedbackLinear(Xor(Shifted(a), u), Xor(Shifted(b), v), Top(a), Top(b), 0);
  }

  lemma {:induction false} FeedbackOfZero(acc: Acc, i: nat)
    ensures Feedback(acc, 0, i) == acc
    decreases 5 - i
  {
    if i < 5 {
      assert Row(Bit(0, i), Generator(i)) == 0;
      FeedbackOfZero(acc, i + 1);
    }
  }

  lemma NothingPushedOut(d: Acc)
    requires d < 0x200_0000
    ensures d >> 25 == 0 && (d & 0x1FF_FFFF) << 5 == d << 5
  {
  }

  /** Words pass unchanged while the pushed-out part is zero. */
  lemma StepShifts(d: Acc, c: Acc)
    requires d < 0x200_0000
    ensures Step(d, c) == Xor(d << 5, c)
  {
    NothingPushedOut(d);
    hide Feedback, Xor;
    FeedbackOfZero(Xor(d << 5, c), 0);
  }

  // ---- the checksum ----

  function Zeros(n: nat): seq<Acc> {
    seq(n, _ => 0)
  }

  function HighBits(hrp: seq<Acc>): seq<Acc> {
    if hrp == [] then [] else [hrp[0] >> 5] + HighBits(hrp[1..])
  }

  function LowBits(hrp: seq<Acc>): seq<Acc> {
    if hrp == [] then [] else [hrp[0] & 31] + LowBits(hrp[1..])
  }

  /** The code points of the human-readable part spread over words: high bits, a zero, low five bits. */
  function Expanded(hrp: seq<Acc>): seq<Acc> {
    HighBits(hrp) + [0] + LowBits(hrp)
  }

  /** The six words of a 30-bit value, most significant first. */
  function Unpack(p: Acc): seq<Acc> {
    [(p >> 25) & 31, (p >> 20) & 31, (p >> 15) & 31, (p >> 10) & 31, (p >> 5) & 31, p & 31]
  }

  /** `bech32_checksum`. */
  function Checksum(hrp: seq<Acc>, data: seq<Acc>): seq<Acc> {
    Unpack(Xor(Polymod(Expanded(hrp) + data + Zeros(6)), 1))
  }

  /** BIP-173: the whole string's words have remainder 1. */
  ghost predicate Verifies(hrp: seq<Acc>, words: seq<Acc>) {
    Polymod(Expanded(hrp) + words) == 1
  }

  lemma {:induction false} PolymodConcat(s: Acc, a: seq<Acc>, b: seq<Acc>)
    ensures PolymodFrom(s, a + b) == PolymodFrom(PolymodFrom(s, a), b)
    decreases |a|
  {
    if a == [] {
      assert a + b == b;
    } else {
      assert (a + b)[0] == a[0] && (a + b)[1..] == a[1..] + b;
      PolymodConcat(Step(s, a[0]), a[1..], b);
    }
  }

  lemma {:induction false} PolymodStaysInState(s: Acc, values: seq<Acc>)
    requires s < STATE && Below(values, STATE)
    ensures PolymodFrom(s, values) < STATE
    decreases |values|
  {
    if values != [] {
      assert values[0] in values && forall v :: v in values[1..] ==> v in values;
      StepStaysInState(s, values[0]);
      PolymodStaysInState(Step(s, values[0]), values[1..]);
    }
  }

  /** Words that follow a state add their own remainder to what zeros would give. */
  lemma {:induction false} TailAdds(s: Acc, d: Acc, c: seq<Acc>)
    ensures PolymodFrom(Xor(s, d), c) == Xor(PolymodFrom(s, Zeros(|c|)), PolymodFrom(d, c))
    decreases |c|
  {
    hide Xor, Step;
    if c != [] {
      assert Zeros(|c|)[0] == 0 && Zeros(|c|)[1..] == Zeros(|c| - 1);
      assert Xor(0, c[0]) == c[0] by { XorUnits(c[0]); }
      StepLinear(s, d, 0, c[0]);
      TailAdds(Step(s, 0), Step(d, c[0]), c[1..]);
    }
  }

  lemma XorUnits(a: Acc)
    ensures Xor(a, 0) == a && Xor(0, a) == a && Xor(a, a) == 0
  {
    XorLaws(a, 0, 0);
  }

  /** One more word on the right. */
  function Push(d: Acc, c: Acc): Acc {
    (d << 5) ^ c
  }

  /** Six words side by side. */
  function Pack(c: seq<Acc>): Acc
    requires |c| == 6
  {
    Push(Push(Push(Push(Push(c[0], c[1]), c[2]), c[3]), c[4]), c[5])
  }

  lemma PushBounds(a: Acc, b: Acc)
    requires b < 32
    ensures a < 0x20 ==> Push(a, b) < 0x400
    ensures a < 0x400 ==> Push(a, b) < 0x8000
    ensures a < 0x8000 ==> Push(a, b) < 0x10_0000
    ensures a < 0x10_0000 ==> Push(a, b) < 0x200_0000
  {
  }

  lemma StepPushes(d: Acc, c: Acc)
    requires d < 0x200_0000
    ensures Step(d, c) == Push(d, c)
  {
    StepShifts(d, c);
    hide Step;
  }

  lemma Small(d: Acc)
    ensures d < 0x10_0000 ==> d < 0x200_0000
    ensures d < 0x8000 ==> d < 0x10_0000
    ensures d < 0x400 ==> d < 0x8000
    ensures d < 0x20 ==> d < 0x400
  {
  }

  lemma FirstWord(c: Acc)
    ensures Step(0, c) == c
  {
    StepShifts(0, c);
  }

  lemma SixFromZero(c: seq<Acc>)
    requires |c| == 6 && Below(c, 32)
    ensures PolymodFrom(0, c) == Pack(c)
  {
    hide Step, Push;
    assert c[0] in c && c[1] in c && c[2] in c && c[3] in c && c[4] in c && c[5] in c;
    var s2 := Push(c[0], c[1]);
    var s3 := Push(s2, c[2]);
    var s4 := Push(s3, c[3]);
    var s5 := Push(s4, c[4]);
    PushBounds(c[0], c[1]);
    PushBounds(s2, c[2]);
    PushBounds(s3, c[3]);
    PushBounds(s4, c[4]);
    FirstWord(c[0]);
    Small(c[0]);
    Small(s2);
    Small(s3);
    Small(s4);
    StepPushes(c[0], c[1]);
    StepPushes(s2, c[2]);
    StepPushes(s3, c[3]);
    StepPushes(s4, c[4]);
    StepPushes(s5, c[5]);
    SixSteps(0, c);
  }

  lemma SixSteps(s: Acc, c: seq<Acc>)
    requires |c| == 6
    ensures PolymodFrom(s, c) == Step(Step(Step(Step(Step(Step(s, c[0]), c[1]), c[2]), c[3]), c[4]), c[5])
  {
    hide Step;
    assert c == [c[0]] + ([c[1]] + ([c[2]] + ([c[3]] + ([c[4]] + [c[5]]))));
    PolymodConcat(s, [c[0]], [c[1]] + ([c[2]] + ([c[3]] + ([c[4]] + [c[5]]))));
    var s1 := Step(s, c[0]);
    PolymodConcat(s1, [c[1]], [c[2]] + ([c[3]] + ([c[4]] + [c[5]])));
    var s2 := Step(s1, c[1]);
    PolymodConcat(s2, [c[2]], [c[3]] + ([c[4]] + [c[5]]));
    var s3 := Step(s2, c[2]);
    PolymodConcat(s3, [c[3]], [c[4]] + [c[5]]);
    var s4 := Step(s3, c[3]);
    PolymodConcat(s4, [c[4]], [c[5]]);
  }

  lemma PackUnpack(p: Acc)
    requires p < STATE
    ensures Pack(Unpack(p)) == p && Below(Unpack(p), 32)
  {
  }

  lemma UnpackPack(c: seq<Acc>)
    requires |c| == 6 && Below(c, 32)
    ensures Unpack(Pack(c)) == c
  {
    assert forall i :: 0 <= i < 6 ==> c[i] in c;
  }

  lemma {:induction false} HrpWordsStayInState(hrp: seq<Acc>)
    requires Below(hrp, CODE_POINTS)
    ensures Below(HighBits(hrp), STATE) && Below(LowBits(hrp), STATE)
  {
    if hrp != [] {
      assert hrp[0] in hrp && forall v :: v in hrp[1..] ==> v in hrp;
      HrpWordsStayInState(hrp[1..]);
      OneHrpWord(hrp[0]);
    }
  }

  lemma OneHrpWord(c: Acc)
    requires c < CODE_POINTS
    ensures c >> 5 < STATE && c & 31 < STATE
  {
  }

  /** The remainder after any code points and 5-bit words is a 30-bit state. */
  lemma WordsStayInState(hrp: seq<Acc>, words: seq<Acc>)
    requires Below(hrp, CODE_POINTS) && Below(words, 32)
    ensures Polymod(Expanded(hrp) + words) < STATE
  {
    HrpWordsStayInState(hrp);
    PolymodStaysInState(1, Expanded(hrp) + words);
  }

  /** Six words make the whole verify exactly when they are the checksum. */
  lemma ChecksumIsTheOne(hrp: seq<Acc>, data: seq<Acc>, c: seq<Acc>)
    requires Below(hrp, CODE_POINTS) && Below(data, 32)
    requires |c| == 6 && Below(c, 32)
    ensures Verifies(hrp, data + c) <==> c == Checksum(hrp, data)
  {
    hide Xor, Step, Pack, Unpack, Polymod, Expanded;
    var v := Expanded(hrp) + data;
    var s := Polymod(v);
    var p := Polymod(v + Zeros(6));
    assert Expanded(hrp) + (data + c) == v + c;
    assert v + Zeros(6) == Expanded(hrp) + (data + Zeros(6));
    WordsStayInState(hrp, data + Zeros(6));
    ConcatPolymod(v, c);
    ConcatPolymod(v, Zeros(6));
    TailAdds(s, 0, c);
    XorUnits(s);
    SixFromZero(c);
    var q := Pack(c);
    XorUnits(p);
    XorUnits(q);
    XorUnits(1);
    XorAssociates(p, p, q);
    XorAssociates(p, p, 1);
    assert Xor(p, q) == 1 <==> q == Xor(p, 1);
    XorStaysInState(p);
    PackUnpack(Xor(p, 1));
    UnpackPack(c);
  }

  lemma ConcatPolymod(a: seq<Acc>, b: seq<Acc>)
    ensures Polymod(a + b) == PolymodFrom(Polymod(a), b)
  {
    PolymodConcat(1, a, b);
  }

  lemma XorStaysInState(p: Acc)
    requires p < STATE
    ensures Xor(p, 1) < STATE
  {
  }

  /** `bech32_checksum` yields six 5-bit words that complete any data under any human-readable part. */
  lemma ChecksumCompletes(hrp: seq<Acc>, data: seq<Acc>)
    requires Below(hrp, CODE_POINTS) && Below(data, 32)
    ensures |Checksum(hrp, data)| == 6 && Below(Checksum(hrp, data), 32)
    ensures Verifies(hrp, data + Checksum(hrp, data))
  {
    var v := Expanded(hrp) + data + Zeros(6);
    assert v == Expanded(hrp) + (data + Zeros(6));
    WordsStayInState(hrp, data + Zeros(6));
    XorStaysInState(Polymod(v));
    PackUnpack(Xor(Polymod(v), 1));
    hide Xor, Step, Pack, Polymod, Expanded, Verifies;
    ChecksumIsTheOne(hrp, data, Checksum(hrp, data));
  }

  /** The feedback of five given bits. */
  function Rows(b0: Acc, b1: Acc, b2: Acc, b3: Acc, b4: Acc): Acc {
    Xor(Xor(Xor(Xor(Row(b0, 0x3B6A57B2), Row(b1, 0x26508E6D)), Row(b2, 0x1EA119FA)), Row(b3, 0x3D4233DD)),
        Row(b4, 0x2A1462B3))
  }

  /** The generator rows are independent in their low five bits: only the zero pattern leaves those clear. */
  lemma RowsKernel(b0: Acc, b1: Acc, b2: Acc, b3: Acc, b4: Acc)
    requires b0 < 2 && b1 < 2 && b2 < 2 && b3 < 2 && b4 < 2
    requires Rows(b0, b1, b2, b3, b4) & 31 == 0
    ensures b0 == 0 && b1 == 0 && b2 == 0 && b3 == 0 && b4 == 0
  {
  }

  lemma FiveRows(t: Acc)
    ensures Feedback(0, t, 0) == Rows(Bit(t, 0), Bit(t, 1), Bit(t, 2), Bit(t, 3), Bit(t, 4))
  {
    hide Row, Bit, Xor;
    var r0 := Row(Bit(t, 0), 0x3B6A57B2);
    var s1 := Xor(r0, Row(Bit(t, 1), 0x26508E6D));
    var s2 := Xor(s1, Row(Bit(t, 2), 0x1EA119FA));
    var s3 := Xor(s2, Row(Bit(t, 3), 0x3D4233DD));
    XorUnits(r0);
    assert Feedback(0, t, 0) == Feedback(r0, t, 1);
    assert Feedback(r0, t, 1) == Feedback(s1, t, 2);
    assert Feedback(s1, t, 2) == Feedback(s2, t, 3);
    assert Feedback(s2, t, 3) == Feedback(s3, t, 4);
  }

  lemma FiveBits(t: Acc)
    requires t < 32 && Bit(t, 0) == 0 && Bit(t, 1) == 0 && Bit(t, 2) == 0 && Bit(t, 3) == 0 && Bit(t, 4) == 0
    ensures t == 0
  {
    assert Bit(t, 2) == Bit(t >> 1, 1) == (t >> 2) & 1;
    assert Bit(t, 3) == Bit(t >> 1, 2) == Bit(t >> 2, 1) == (t >> 3) & 1;
    assert Bit(t, 4) == Bit(t >> 1, 3) == Bit(t >> 2, 2) == Bit(t >> 3, 1) == (t >> 4) & 1;
  }

  lemma SplitState(x: Acc)
    requires x < STATE
    ensures Top(x) < 32 && Shifted(x) & 31 == 0
    ensures Top(x) == 0 && Shifted(x) == 0 ==> x == 0
  {
  }

  lemma XorToZero(s: Acc, f: Acc)
    requires Xor(s, f) == 0
    ensures s == f
  {
  }

  /** Only the zero state steps to zero under the zero word. */
  lemma StepKernel(x: Acc)
    requires x < STATE && Step(x, 0) == 0
    ensures x == 0
  {
    hide Bit, Row, Xor, Feedback, Top, Shifted, Rows;
    var s, t := Shifted(x), Top(x);
    SplitState(x);
    XorUnits(s);
    XorUnits(t);
    FeedbackLinear(s, 0, 0, t, 0);
    FeedbackOfZero(s, 0);
    XorToZero(s, Feedback(0, t, 0));
    FiveRows(t);
    BitIsBit(t, 0);
    BitIsBit(t, 1);
    BitIsBit(t, 2);
    BitIsBit(t, 3);
    BitIsBit(t, 4);
    RowsKernel(Bit(t, 0), Bit(t, 1), Bit(t, 2), Bit(t, 3), Bit(t, 4));
    FiveBits(t);
    FeedbackOfZero(0, 0);
  }

  /** No two states become one under the same word. */
  lemma StepInjective(a: Acc, b: Acc, v: Acc)
    requires a < STATE && b < STATE && Step(a, v) == Step(b, v)
    ensures a == b
  {
    hide Step;
    StepLinear(a, b, v, v);
    XorUnits(v);
    XorUnits(Step(a, v));
    XorBelow(a, b);
    StepKernel(Xor(a, b));
    XorToZero(a, b);
  }

  lemma XorBelow(a: Acc, b: Acc)
    requires a < STATE && b < STATE
    ensures Xor(a, b) < STATE
  {
  }

  lemma StepSeparates(s: Acc, u: Acc, v: Acc)
    requires Step(s, u) == Step(s, v)
    ensures u == v
  {
    hide Step, Xor;
    StepLinear(s, s, u, v);
    XorUnits(s);
    XorUnits(Step(s, u));
    FirstWord(Xor(u, v));
    XorToZero(u, v);
  }

  lemma {:induction false} SameTailSeparates(a: Acc, b: Acc, tail: seq<Acc>)
    requires a < STATE && b < STATE && Below(tail, STATE)
    requires PolymodFrom(a, tail) == PolymodFrom(b, tail)
    ensures a == b
    decreases |tail|
  {
    hide Step;
    if tail != [] {
      assert tail[0] in tail && forall v :: v in tail[1..] ==> v in tail;
      StepStaysInState(a, tail[0]);
      StepStaysInState(b, tail[0]);
      SameTailSeparates(Step(a, tail[0]), Step(b, tail[0]), tail[1..]);
      StepInjective(a, b, tail[0]);
    }
  }

  lemma WordInTheMiddle(head: seq<Acc>, w: Acc, tail: seq<Acc>)
    ensures Polymod(head + ([w] + tail)) == PolymodFrom(Step(Polymod(head), w), tail)
  {
    hide Step;
    ConcatPolymod(head, [w] + tail);
    PolymodConcat(Polymod(head), [w], tail);
  }

  /** Two strings that differ in one word have different remainders. */
  lemma RemaindersDiffer(head: seq<Acc>, u: Acc, w: Acc, tail: seq<Acc>)
    requires Below(head, STATE) && Below(tail, STATE) && u < STATE && w < STATE && u != w
    ensures Polymod(head + ([u] + tail)) != Polymod(head + ([w] + tail))
  {
    hide Step, Below;
    var s := Polymod(head);
    PolymodStaysInState(1, head);
    WordInTheMiddle(head, u, tail);
    WordInTheMiddle(head, w, tail);
    if Polymod(head + ([u] + tail)) == Polymod(head + ([w] + tail)) {
      StepStaysInState(s, u);
      StepStaysInState(s, w);
      SameTailSeparates(Step(s, u), Step(s, w), tail);
      StepSeparates(s, u, w);
    }
  }

  lemma WordsAreStates(words: seq<Acc>, lo: nat, hi: nat)
    requires Below(words, 32) && lo <= hi <= |words|
    ensures Below(words[lo..hi], STATE)
  {
    var slice := words[lo..hi];
    forall v | v in slice ensures v < STATE {
      var k :| 0 <= k < |slice| && slice[k] == v;
      assert words[lo + k] in words;
    }
  }

  lemma ExpandedIsStates(hrp: seq<Acc>)
    requires Below(hrp, CODE_POINTS)
    ensures Below(Expanded(hrp), STATE)
  {
    HrpWordsStayInState(hrp);
  }

  lemma HeadIsStates(hrp: seq<Acc>, words: seq<Acc>, i: nat)
    requires Below(hrp, CODE_POINTS) && Below(words, 32) && i <= |words|
    ensures Below(Expanded(hrp) + words[..i], STATE)
  {
    ExpandedIsStates(hrp);
    WordsAreStates(words, 0, i);
    hide Expanded;
    assert words[0..i] == words[..i];
    forall v | v in Expanded(hrp) + words[..i] ensures v < STATE {
      assert v in Expanded(hrp) || v in words[0..i];
    }
  }

  /** A string with exactly one word replaced never verifies, however long it is. */
  lemma SubstitutionIsDetected(hrp: seq<Acc>, words: seq<Acc>, i: nat, w: Acc)
    requires Below(hrp, CODE_POINTS) && Below(words, 32) && i < |words| && w < 32
    requires Verifies(hrp, words) && w != words[i]
    ensures !Verifies(hrp, words[i := w])
  {
    hide Polymod, Expanded;
    var head, tail := Expanded(hrp) + words[..i], words[i + 1..];
    HeadIsStates(hrp, words, i);
    assert Below(tail, STATE) by {
      WordsAreStates(words, i + 1, |words|);
      assert words[i + 1..|words|] == tail;
    }
    assert words[i] < 32 by { assert words[i] in words; }
    assert Expanded(hrp) + words == head + ([words[i]] + tail);
    assert Expanded(hrp) + words[i := w] == head + ([w] + tail);
    RemaindersDiffer(head, words[i], w, tail);
  }
}
