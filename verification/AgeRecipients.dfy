/** Which lines are recipients, exactly, and what is wrong with every other. */
module AgeRecipients {
  import opened Wrappers
  import opened Bytes
  import opened Base64
  import opened Digits
  import opened Wire
  import opened AgeHeader
  import opened AgeFile
  import opened AgeFormat
  import opened AgeKeys
  import M = Montgomery

  /** The line's second word decodes to a blob of whole strings, the first of which is the line's first word. */
  ghost predicate NamesKey(line: Text, blob: bytes, strings: seq<bytes>) {
    && |Split(line)| >= 2 && Decode(Split(line)[1]) == Some(blob)
    && WireStringsOf(blob) == Some(strings) && strings != [] && Utf8(Split(line)[0]) == Some(strings[0])
  }

  ghost predicate IsRecipientOf(
    p: Primitives, lib: KeyLibrary, line: Text, blob: bytes, strings: seq<bytes>, t: Recipient)
  {
    && NamesKey(line, blob, strings)
    && t.blob == blob && t.fp == Fingerprint(p, blob)
    && match t
       case Ed25519Recipient(_, _, u) =>
         && Split(line)[0] == Ascii("ssh-ed25519")
         && |strings| == 2 && |strings[1]| == 32 && M.MontgomeryU(strings[1]) == Ok(u)
       case RsaRecipient(_, _, pub) =>
         && Split(line)[0] == Ascii("ssh-rsa")
         && |strings| == 3 && FromBytes(strings[2]) >= Pow2(2047)
         && lib.rsaPublic(FromBytes(strings[1]), FromBytes(strings[2])) == Some(pub)
  }

  lemma {:induction false} BitLengthAtMost(v: nat, k: nat)
    ensures BitLength(v) <= k <==> v < Pow2(k)
  {
    if v > 0 && k > 0 {
      BitLengthAtMost(v / 2, k - 1);
    }
  }

  lemma PartsOfKey(line: Text, blob: bytes, strings: seq<bytes>)
    requires NamesKey(line, blob, strings)
    ensures PublicKeyParts(line) == Ok((Split(line)[0], blob))
  {
    hide Split, Decode, Utf8, WireStringsOf;
  }

  lemma KeyOfParts(line: Text, algo: Text, blob: bytes)
    requires PublicKeyParts(line) == Ok((algo, blob))
    ensures WireStringsOf(blob).Some? && NamesKey(line, blob, WireStringsOf(blob).value) && algo == Split(line)[0]
  {
    hide Split, Decode, Utf8, WireStringsOf;
  }

  lemma LongModulus(n: nat)
    ensures BitLength(n) < MIN_RSA_BITS <==> n < Pow2(2047)
  {
    hide BitLength, Pow2;
    BitLengthAtMost(n, 2047);
  }

  lemma Kinds()
    ensures ED25519_KIND == Ascii("ssh-ed25519") && RSA_KIND == Ascii("ssh-rsa") && ED25519_KIND != RSA_KIND
  {
    SshNames();
    KindsDiffer();
  }

  lemma Ed25519Exactly(p: Primitives, blob: bytes, strings: seq<bytes>)
    ensures var r := Ed25519RecipientOf(p, blob, strings);
      && (r == Err(MalformedKey) <==> !(|strings| == 2 && |strings[1]| == 32))
      && r != Err(ShortRsa) && (r.Ok? ==> r.value.Ed25519Recipient?) && (r.Err? ==> !r.error.NoRecipientFor?)
      && forall t :: r == Ok(t) <==>
        (t.Ed25519Recipient? && t.blob == blob && t.fp == Fingerprint(p, blob)
         && |strings| == 2 && |strings[1]| == 32 && M.MontgomeryU(strings[1]) == Ok(t.montgomery))
  {
    hide Fingerprint, M.MontgomeryU;
  }

  lemma RsaExactly(p: Primitives, lib: KeyLibrary, blob: bytes, strings: seq<bytes>)
    ensures var r := RsaRecipientOf(p, lib, blob, strings);
      && (r == Err(MalformedKey) <==> |strings| != 3)
      && (r == Err(ShortRsa) <==> |strings| == 3 && FromBytes(strings[2]) < Pow2(2047))
      && (r.Ok? ==> r.value.RsaRecipient?) && (r.Err? ==> !r.error.NoRecipientFor?)
      && forall t :: r == Ok(t) <==>
        (t.RsaRecipient? && t.blob == blob && t.fp == Fingerprint(p, blob)
         && |strings| == 3 && FromBytes(strings[2]) >= Pow2(2047)
         && lib.rsaPublic(FromBytes(strings[1]), FromBytes(strings[2])) == Some(t.rsaPub))
  {
    if |strings| == 3 {
      LongModulus(FromBytes(strings[2]));
    }
    hide Fingerprint, FromBytes, BitLength, Pow2;
  }

  lemma OtherKind(p: Primitives, lib: KeyLibrary, line: Text, algo: Text, blob: bytes)
    requires PublicKeyParts(line) == Ok((algo, blob)) && algo != ED25519_KIND && algo != RSA_KIND
    ensures RecipientOf(p, lib, line) == Err(NoRecipientFor(algo))
  {
    hide PublicKeyParts, WireStringsOf, ED25519_KIND, RSA_KIND;
  }

  /** What a named key makes, by its kind. */
  lemma OfKind(p: Primitives, lib: KeyLibrary, line: Text, blob: bytes, strings: seq<bytes>)
    requires NamesKey(line, blob, strings)
    ensures var algo, r := Split(line)[0], RecipientOf(p, lib, line);
      r == if algo == Ascii("ssh-ed25519") then Ed25519RecipientOf(p, blob, strings)
           else if algo == Ascii("ssh-rsa") then RsaRecipientOf(p, lib, blob, strings)
           else Err(NoRecipientFor(algo))
  {
    Kinds();
    PartsOfKey(line, blob, strings);
    hide RecipientOf, PublicKeyParts, Ed25519RecipientOf, RsaRecipientOf, Split, Decode, Utf8, WireStringsOf,
      ED25519_KIND, RSA_KIND, Ascii;
    var algo := Split(line)[0];
    RecipientByKind(p, lib, line, algo, blob, strings);
    if algo != ED25519_KIND && algo != RSA_KIND {
      OtherKind(p, lib, line, algo, blob);
    }
  }

  /** The recipient of a key's blob and strings, by the kind the line names. */
  lemma ByKind(
    p: Primitives, lib: KeyLibrary, line: Text, blob: bytes, strings: seq<bytes>, t: Recipient)
    requires NamesKey(line, blob, strings)
    ensures RecipientOf(p, lib, line) == Ok(t) <==> IsRecipientOf(p, lib, line, blob, strings, t)
  {
    Kinds();
    OfKind(p, lib, line, blob, strings);
    Ed25519Exactly(p, blob, strings);
    RsaExactly(p, lib, blob, strings);
    hide RecipientOf, Ed25519RecipientOf, RsaRecipientOf, NamesKey, Fingerprint, M.MontgomeryU, Split, FromBytes, Pow2,
      ED25519_KIND, RSA_KIND, Ascii;
  }

  /** A line is a recipient exactly when it names a key of the right shape, and the recipient is what the key says: the
      blob, its hint, and the converted point or the imported numbers. */
  lemma RecipientExactly(p: Primitives, lib: KeyLibrary, line: Text, t: Recipient)
    ensures RecipientOf(p, lib, line) == Ok(t) <==>
      exists strings :: IsRecipientOf(p, lib, line, t.blob, strings, t)
  {
    hide RecipientOf, Fingerprint, M.MontgomeryU, Pow2, WireStringsOf, Ascii;
    if RecipientOf(p, lib, line) == Ok(t) {
      RecipientIsOfItsLine(p, lib, line);
      var algo := if t.Ed25519Recipient? then ED25519_KIND else RSA_KIND;
      KeyOfParts(line, algo, t.blob);
      var strings := WireStringsOf(t.blob).value;
      ByKind(p, lib, line, t.blob, strings, t);
    }
    if strings :| IsRecipientOf(p, lib, line, t.blob, strings, t) {
      ByKind(p, lib, line, t.blob, strings, t);
    }
  }

  /** What is wrong with a line that names no key. */
  lemma PartsRefused(line: Text)
    ensures PublicKeyParts(line).Err? <==> !exists blob, strings :: NamesKey(line, blob, strings)
    ensures PublicKeyParts(line) == Err(MissingBody) <==> |Split(line)| < 2
    ensures PublicKeyParts(line) == Err(NotBase64) <==> |Split(line)| >= 2 && Decode(Split(line)[1]).None?
    ensures PublicKeyParts(line) == Err(TruncatedBlob) <==>
      (|Split(line)| >= 2 && Decode(Split(line)[1]).Some? && WireStringsOf(Decode(Split(line)[1]).value).None?)
    ensures PublicKeyParts(line) == Err(AlgorithmMismatch) <==>
      (|Split(line)| >= 2 && Decode(Split(line)[1]).Some?
       && exists strings ::
         WireStringsOf(Decode(Split(line)[1]).value) == Some(strings) && strings != []
           && Utf8(Split(line)[0]) != Some(strings[0]))
  {
    BlobIsNeverEmpty(line);
    hide Split, Decode, Utf8, WireStringsOf;
    if PublicKeyParts(line).Ok? {
      var (algo, blob) := PublicKeyParts(line).value;
      KeyOfParts(line, algo, blob);
    }
    if blob, strings :| NamesKey(line, blob, strings) {
      PartsOfKey(line, blob, strings);
    }
  }

  /** What is wrong with a key no recipient is made of. */
  lemma KeyRefused(p: Primitives, lib: KeyLibrary, line: Text, blob: bytes, strings: seq<bytes>)
    requires NamesKey(line, blob, strings)
    ensures var algo, r := Split(line)[0], RecipientOf(p, lib, line);
      && (r == Err(NoRecipientFor(algo)) <==> algo != Ascii("ssh-ed25519") && algo != Ascii("ssh-rsa"))
      && (r == Err(MalformedKey) <==>
        || (algo == Ascii("ssh-ed25519") && !(|strings| == 2 && |strings[1]| == 32))
        || (algo == Ascii("ssh-rsa") && |strings| != 3))
      && (r == Err(ShortRsa) <==>
        algo == Ascii("ssh-rsa") && |strings| == 3 && FromBytes(strings[2]) < Pow2(2047))
  {
    Kinds();
    OfKind(p, lib, line, blob, strings);
    Ed25519Exactly(p, blob, strings);
    RsaExactly(p, lib, blob, strings);
    hide *;
  }

  /** The mint's silent question is about the first word of a line that has a second; of a line that names a key it is
      whether there is a recipient for its kind. */
  lemma CapableIs(p: Primitives, lib: KeyLibrary, line: Text)
    ensures AgeCapable(line) <==>
      PublicKeyParts(line) != Err(MissingBody) && Split(line)[0] in {Ascii("ssh-ed25519"), Ascii("ssh-rsa")}
    ensures PublicKeyParts(line).Ok? ==>
      (AgeCapable(line) <==> RecipientOf(p, lib, line) != Err(NoRecipientFor(Split(line)[0])))
  {
    Kinds();
    PartsRefused(line);
    if PublicKeyParts(line).Ok? {
      var (algo, blob) := PublicKeyParts(line).value;
      KeyOfParts(line, algo, blob);
      KeyRefused(p, lib, line, blob, WireStringsOf(blob).value);
    }
    hide PublicKeyParts, RecipientOf, NamesKey, Split, Decode, Utf8, WireStringsOf, ED25519_KIND, RSA_KIND, Ascii;
  }

  /** A loaded RSA key is refused exactly when its modulus is below 2^2047, or a number is too long for the wire. */
  lemma RsaIdentityRefused(p: Primitives, key: bytes, e: nat, n: nat)
    ensures RsaIdentityOf(p, key, e, n).None? <==> n < Pow2(2047) || Mpint(e).None? || Mpint(n).None?
  {
    LongModulus(n);
    ShortFits(RSA_NAME);
    hide BitLength, Pow2, Mpint, Fingerprint;
  }

  /** The low bits that a lead byte and continuation bytes carry, six in each of the latter. */
  function Scalar(b: bytes, lead: nat): int {
    if b == [] then 0
    else if |b| == 1 then b[0] as int - lead
    else 64 * Scalar(b[..|b| - 1], lead) + (b[|b| - 1] as int - 0x80)
  }

  lemma Scalars(b: bytes, lead: nat)
    ensures |b| == 1 ==> Scalar(b, lead) == b[0] as int - lead
    ensures |b| == 2 ==> Scalar(b, lead) == 64 * (b[0] as int - lead) + (b[1] as int - 0x80)
    ensures |b| == 3 ==>
      Scalar(b, lead) == 64 * (64 * (b[0] as int - lead) + (b[1] as int - 0x80)) + (b[2] as int - 0x80)
    ensures |b| == 4 ==>
      Scalar(b, lead)
        == 64 * (64 * (64 * (b[0] as int - lead) + (b[1] as int - 0x80)) + (b[2] as int - 0x80)) + (b[3] as int - 0x80)
  {
    if |b| >= 3 {
      Scalars(b[..|b| - 1], lead);
    } else if |b| == 2 {
      assert b[..1] == [b[0]];
    }
  }

  lemma SixBits(c: nat)
    ensures c / 4096 == c / 64 / 64 && c / 0x4_0000 == c / 64 / 64 / 64
    ensures c == 64 * (c / 64) + c % 64
    ensures c / 64 == 64 * (c / 64 / 64) + c / 64 % 64
    ensures c / 64 / 64 == 64 * (c / 64 / 64 / 64) + c / 64 / 64 % 64
  {
  }

  /** UTF-8, as section 3 of RFC 3629 has it: the lead byte tells the length, the others are continuation bytes, and
      their low bits make up the code point. */
  lemma Utf8CharIs(c: nat)
    ensures Utf8Char(c).None? <==> 0xD800 <= c < 0xE000 || c >= 0x11_0000
    ensures Utf8Char(c).Some? ==>
      var b := Utf8Char(c).value;
      && |b| == (if c < 0x80 then 1 else if c < 0x800 then 2 else if c < 0x1_0000 then 3 else 4)
      && (forall i :: 1 <= i < |b| ==> 0x80 <= b[i] < 0xC0)
      && (|b| == 1 ==> b == [c])
      && (|b| == 2 ==> 0xC2 <= b[0] < 0xE0 && Scalar(b, 0xC0) == c)
      && (|b| == 3 ==> 0xE0 <= b[0] < 0xF0 && Scalar(b, 0xE0) == c)
      && (|b| == 4 ==> 0xF0 <= b[0] < 0xF5 && Scalar(b, 0xF0) == c)
  {
    SixBits(c);
    if Utf8Char(c).Some? {
      var b := Utf8Char(c).value;
      Scalars(b, if |b| == 2 then 0xC0 else if |b| == 3 then 0xE0 else 0xF0);
    }
    hide Scalar;
  }
}
