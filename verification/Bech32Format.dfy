/** The checksum and the alphabet as BIP-173 lays them down. */
module Bech32Format {
  import opened Bech32
  import opened Bech32Text
  import opened Digits

  lemma {:induction false} HalvesOf(hrp: seq<Acc>, i: nat)
    requires i < |hrp|
    ensures |HighBits(hrp)| == |LowBits(hrp)| == |hrp|
    ensures HighBits(hrp)[i] == hrp[i] >> 5 && LowBits(hrp)[i] == hrp[i] & 31
  {
    if i > 0 {
      HalvesOf(hrp[1..], i - 1);
    } else if |hrp| > 1 {
      HalvesOf(hrp[1..], 0);
    }
  }

  lemma SplitCode(c: Acc)
    requires c < CODE_POINTS
    ensures (c >> 5) * 32 + (c & 31) == c && c & 31 < 32
  {
  }

  /** The human-readable part goes into the checksum as the quotients of its codes by 32, a zero, and the remainders. */
  lemma ExpandedIs(hrp: seq<Acc>, i: nat)
    requires Below(hrp, CODE_POINTS) && i < |hrp|
    ensures |Expanded(hrp)| == 2 * |hrp| + 1 && Expanded(hrp)[|hrp|] == 0
    ensures var high, low := Expanded(hrp)[i], Expanded(hrp)[|hrp| + 1 + i];
      high * 32 + low == hrp[i] && low < 32
  {
    HalvesOf(hrp, i);
    assert hrp[i] in hrp;
    SplitCode(hrp[i]);
    hide HighBits, LowBits;
  }

  lemma CodeOfA()
    ensures Codes("a") == [97] && Expanded([97]) == [3, 0, 1]
  {
    assert FromNat(1) == 1;
    assert FromNat(3) == 3;
    assert FromNat(6) == 6;
    assert FromNat(12) == 12;
    assert FromNat(24) == 24;
    assert FromNat(48) == 48;
    assert FromNat(97) == 97;
    assert "a"[1..] == "";
    assert Codes("a") == [FromNat('a' as int)] + Codes("a"[1..]);
    var c: seq<Acc> := [97];
    assert c[1..] == [];
  }

  lemma Steps()
    ensures Step(1, 3) == 0x23 && Step(0x23, 0) == 0x460 && Step(0x460, 1) == 0x8C01
    ensures Step(0x8C01, 10) == 0x11802A && Step(0x11802A, 28) == 0x230055C
  {
    hide Bit;
    assert forall i: nat :: Bit(0, i) == 0 by { forall i: nat ensures Bit(0, i) == 0 { NoBit(i); } }
  }

  lemma NoBit(i: nat)
    ensures Bit(0, i) == 0
  {
    if i > 0 {
      NoBit(i - 1);
    }
  }

  /** A step, by the bits it pushes out. */
  lemma StepByRows(chk: Acc, value: Acc, b: seq<Acc>)
    requires |b| == 5 && forall i :: 0 <= i < 5 ==> b[i] == Bit(Top(chk), i)
    ensures Step(chk, value) == Xor(Xor(Shifted(chk), value), Rows(b[0], b[1], b[2], b[3], b[4]))
  {
    var acc := Xor(Shifted(chk), value);
    FeedbackLinear(acc, 0, 0, Top(chk), 0);
    FeedbackOfZero(acc, 0);
    XorUnits(acc);
    XorUnits(Top(chk));
    FiveRows(Top(chk));
    hide Feedback, Bit, Rows, Xor, Shifted, Top;
  }

  lemma BitsOf(t: Acc)
    requires t in [1, 30, 18]
    ensures Bit(t, 0) == (if t == 1 then 1 else 0) && Bit(t, 1) == (if t == 1 then 0 else 1)
    ensures Bit(t, 2) == Bit(t, 3) == (if t == 30 then 1 else 0) && Bit(t, 4) == (if t == 1 then 0 else 1)
  {
    assert Half(1) == 0 && Half(2) == 1 && Half(4) == 2 && Half(9) == 4 && Half(18) == 9;
    assert Half(3) == 1 && Half(7) == 3 && Half(15) == 7 && Half(30) == 15;
    assert Bit(Half(t), 0) == Low(Half(t)) && Bit(Half(Half(t)), 0) == Low(Half(Half(t)));
    assert Bit(Half(t), 1) == Bit(Half(Half(t)), 0);
    assert Bit(Half(t), 2) == Bit(Half(Half(t)), 1) == Bit(Half(Half(Half(t))), 0);
    assert Bit(Half(t), 3) == Bit(Half(Half(t)), 2) == Bit(Half(Half(Half(t))), 1) == Bit(Half(Half(Half(Half(t)))), 0);
  }

  lemma LastSteps()
    ensures Step(0x230055C, 25) == 0x3D6AFC2B && Step(0x3D6AFC2B, 31) == 0x2F84386
    ensures Step(0x2F84386, 20) == 0x24622766 && Step(0x24622766, 31) == 1
  {
    assert Top(0x230055C) == 1 && Top(0x3D6AFC2B) == 30 && Top(0x2F84386) == 1 && Top(0x24622766) == 18;
    BitsOf(1);
    BitsOf(30);
    BitsOf(18);
    StepByRows(0x230055C, 25, [1, 0, 0, 0, 0]);
    StepByRows(0x3D6AFC2B, 31, [0, 1, 1, 1, 1]);
    StepByRows(0x2F84386, 20, [1, 0, 0, 0, 0]);
    StepByRows(0x24622766, 31, [0, 1, 0, 0, 1]);
    hide Step;
  }

  lemma NineSteps(v: seq<Acc>)
    requires v == [3, 0, 1, 10, 28, 25, 31, 20, 31]
    ensures Polymod(v) == 1
  {
    Steps();
    LastSteps();
    hide Step;
    assert v[1..] == [0, 1, 10, 28, 25, 31, 20, 31];
    assert v[1..][1..] == v[2..] && v[2..][1..] == v[3..] && v[3..][1..] == v[4..] && v[4..][1..] == v[5..];
    assert v[5..][1..] == v[6..] && v[6..][1..] == v[7..] && v[7..][1..] == v[8..] && v[8..][1..] == [];
    assert PolymodFrom(0x24622766, v[8..]) == 1;
    assert PolymodFrom(0x2F84386, v[7..]) == 1;
    assert PolymodFrom(0x3D6AFC2B, v[6..]) == 1;
    assert PolymodFrom(0x230055C, v[5..]) == 1;
    assert PolymodFrom(0x11802A, v[4..]) == 1;
    assert PolymodFrom(0x8C01, v[3..]) == 1;
    assert PolymodFrom(0x460, v[2..]) == 1;
    assert PolymodFrom(0x23, v[1..]) == 1;
  }

  lemma VectorTail(words: seq<Acc>)
    requires words == [31, 20, 31]
    ensures Below(words, 32) && Chars(words) == "l5l"
  {
    VectorLetters();
    NoWords();
    hide *;
    var none: seq<Acc>, one: seq<Acc>, two: seq<Acc> := [], [31], [20, 31];
    assert one == [31] + none && two == [20] + one && words == [31] + two;
    CharsNext(31, none);
    CharsNext(20, one);
    CharsNext(31, two);
  }

  lemma VectorChars(words: seq<Acc>)
    requires words == [10, 28, 25, 31, 20, 31]
    ensures Below(words, 32) && Chars(words) == "2uel5l"
  {
    VectorLetters();
    VectorTail([31, 20, 31]);
    hide *;
    var three: seq<Acc>, four: seq<Acc>, five: seq<Acc> := [31, 20, 31], [25, 31, 20, 31], [28, 25, 31, 20, 31];
    assert four == [25] + three && five == [28] + four && words == [10] + five;
    CharsNext(25, three);
    CharsNext(28, four);
    CharsNext(10, five);
  }

  lemma VectorLetters()
    ensures Char(10) == '2' && Char(28) == 'u' && Char(25) == 'e' && Char(31) == 'l' && Char(20) == '5'
  {
  }

  lemma NoWords()
    ensures Below([], 32) && Chars([]) == ""
  {
  }

  lemma CharsNext(first: Acc, rest: seq<Acc>)
    requires first < 32 && Below(rest, 32)
    ensures Below([first] + rest, 32) && Chars([first] + rest) == [Char(first)] + Chars(rest)
  {
    hide Char;
    assert ([first] + rest)[1..] == rest;
  }

  lemma NoBytes()
    ensures IsFive([], []) && ToAcc([]) == []
  {
  }

  lemma VerifiesAsA(words: seq<Acc>)
    requires words == [10, 28, 25, 31, 20, 31]
    ensures Verifies(Codes("a"), words)
  {
    CodeOfA();
    hide Polymod, Expanded, Codes;
    assert [3, 0, 1] + words == [3, 0, 1, 10, 28, 25, 31, 20, 31];
    NineSteps([3, 0, 1] + words);
  }

  lemma IsString(hrp: string, data: seq<nat>, five: seq<nat>, words: seq<Acc>, letters: string)
    requires IsFive(data, five) && Below(words, 32)
    requires words == ToAcc(five) + Checksum(Codes(hrp), ToAcc(five)) && Chars(words) == letters
    ensures IsBech32(hrp, data, hrp + "1" + letters)
  {
    hide Checksum, Codes, ToAcc, Chars, IsRegrouping;
    assert AreWordsOf(hrp, data, words);
  }

  /** BIP-173's first valid string, in lower case: no data under the part "a". */
  lemma ShortestVector()
    ensures IsBech32("a", [], "a12uel5l")
  {
    hide *;
    var words: seq<Acc> := [10, 28, 25, 31, 20, 31];
    VectorChars(words);
    NoBytes();
    VerifiesAsA(words);
    assert [] + words == words;
    CodesAreCodePoints("a");
    NoWords();
    ChecksumIsTheOne(Codes("a"), [], words);
    IsString("a", [], [], words, "2uel5l");
    assert "a" + "1" + "2uel5l" == "a12uel5l";
  }
}
