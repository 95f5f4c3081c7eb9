/** From a public key line to a recipient, from a private key to an identity, and through a file between the two. */
module AgeKeys {
  import opened Wrappers
  import opened Bytes
  import opened Base64
  import opened Wire
  import opened AgeHeader
  import opened AgeStream
  import opened AgeFile
  import M = Montgomery
  import AgentWire

  /** The key library's calls: an ed25519 seed's public point, SHA-512, and an RSA public key from `(e, n)`. */
  datatype KeyLibrary = KeyLibrary(
    edPoint: bytes -> bytes, sha512: bytes -> bytes, rsaPublic: (nat, nat) -> Option<bytes>)

  datatype KeyError =
    | MissingBody | NotBase64 | TruncatedBlob | EmptyBlob | AlgorithmMismatch | MalformedKey
    | BadPoint(point: M.PointError) | ShortRsa | RefusedRsa | NoRecipientFor(algo: Text)

  const MIN_RSA_BITS := 2048
  /** The kinds as the names inside a wire blob. */
  const ED25519_NAME: bytes := [115, 115, 104, 45, 101, 100, 50, 53, 53, 49, 57]
  const RSA_NAME: bytes := [115, 115, 104, 45, 114, 115, 97]

  /** One code point in UTF-8; None is a surrogate. */
  function Utf8Char(c: nat): Option<bytes> {
    if c < 0x80 then Some([c])
    else if c < 0x800 then Some([0xc0 + c / 64, 0x80 + c % 64])
    else if 0xd800 <= c < 0xe000 || c >= 0x11_0000 then None
    else if c < 0x1_0000 then Some([0xe0 + c / 4096, 0x80 + c / 64 % 64, 0x80 + c % 64])
    else Some([0xf0 + c / 0x4_0000, 0x80 + c / 4096 % 64, 0x80 + c / 64 % 64, 0x80 + c % 64])
  }

  function Utf8(t: Text): Option<bytes> {
    if t == [] then Some([])
    else
      match (Utf8Char(t[0]), Utf8(t[1..]))
      case (Some(first), Some(rest)) => Some(first + rest)
      case _ => None
  }

  /** `public_key_parts`. */
  function PublicKeyParts(line: Text): Result<(Text, bytes), KeyError> {
    var fields := Split(line);
    if |fields| < 2 then Err(MissingBody)
    else
      match Decode(fields[1])
      case None => Err(NotBase64)
      case Some(blob) =>
        match WireStringsOf(blob)
        case None => Err(TruncatedBlob)
        case Some(strings) =>
          if strings == [] then Err(EmptyBlob)
          else if Some(strings[0]) != Utf8(fields[0]) then Err(AlgorithmMismatch)
          else Ok((fields[0], blob))
  }

  predicate AgeCapable(line: Text) {
    |Split(line)| >= 2 && Split(line)[0] in {ED25519_KIND, RSA_KIND}
  }

  function Ed25519RecipientOf(p: Primitives, blob: bytes, strings: seq<bytes>): Result<Recipient, KeyError> {
    if |strings| != 2 || |strings[1]| != 32 then Err(MalformedKey)
    else
      match M.MontgomeryU(strings[1])
      case Err(e) => Err(BadPoint(e))
      case Ok(u) => Ok(Ed25519Recipient(blob, Fingerprint(p, blob), u))
  }

  function RsaRecipientOf(p: Primitives, lib: KeyLibrary, blob: bytes, strings: seq<bytes>):
    Result<Recipient, KeyError>
  {
    if |strings| != 3 then Err(MalformedKey)
    else
      var e, n := FromBytes(strings[1]), FromBytes(strings[2]);
      if BitLength(n) < MIN_RSA_BITS then Err(ShortRsa)
      else
        match lib.rsaPublic(e, n)
        case None => Err(RefusedRsa)
        case Some(pub) => Ok(RsaRecipient(blob, Fingerprint(p, blob), pub))
  }

  /** `recipient`. */
  function RecipientOf(p: Primitives, lib: KeyLibrary, line: Text): Result<Recipient, KeyError> {
    match PublicKeyParts(line)
    case Err(e) => Err(e)
    case Ok((algo, blob)) =>
      var strings := WireStringsOf(blob).GetOr([]);
      if algo == ED25519_KIND then Ed25519RecipientOf(p, blob, strings)
      else if algo == RSA_KIND then RsaRecipientOf(p, lib, blob, strings)
      else Err(NoRecipientFor(algo))
  }

  // ---- identities ----

  /** `ed25519_identity`; None is a library refusal. */
  function Ed25519IdentityOf(p: Primitives, lib: KeyLibrary, seed: bytes): Option<Identity> {
    var scalar := Slice(lib.sha512(seed), 0, 32);
    match (WireString(ED25519_NAME), WireString(lib.edPoint(seed)), p.x25519(scalar, BASE_POINT))
    case (Some(name), Some(point), Some(u)) =>
      Some(Ed25519Identity(name + point, Fingerprint(p, name + point), u, scalar))
    case _ => None
  }

  /** `rsa_identity` of a private key with public numbers `e` and `n`; None is the refusal of a short key. */
  function RsaIdentityOf(p: Primitives, key: bytes, e: nat, n: nat): Option<Identity> {
    if BitLength(n) < MIN_RSA_BITS then None
    else
      match (WireString(RSA_NAME), Mpint(e), Mpint(n))
      case (Some(name), Some(exponent), Some(modulus)) =>
        var blob := name + exponent + modulus;
        Some(RsaIdentity(blob, Fingerprint(p, blob), key))
      case _ => None
  }

  /** The line a key file carries: the algorithm, the blob, and whatever follows a space. */
  function KeyLine(algo: Text, blob: bytes, rest: Text): Text {
    algo + [SPACE as nat] + AgentWire.PaddedB64(blob) + rest
  }

  // ---- lines ----

  lemma {:induction false} AsciiIsItself(t: Text)
    requires IsAscii(t)
    ensures Utf8(t) == Some(AsBytes(t))
  {
    if t != [] {
      assert t[0] in t && forall c :: c in t[1..] ==> c in t;
      AsciiIsItself(t[1..]);
      assert AsBytes(t) == [t[0]] + AsBytes(t[1..]);
    } else {
      assert AsBytes(t) == [];
    }
  }

  lemma PaddedIsWord(blob: bytes)
    requires blob != []
    ensures IsWord(AgentWire.PaddedB64(blob)) && Decode(AgentWire.PaddedB64(blob)) == Some(blob)
  {
    B64RoundTrip(blob);
    LettersAreWord(blob);
    hide B64e, Decode;
    forall c | c in AgentWire.PaddedB64(blob) ensures !IsSpace(c) {
      if c !in B64e(blob) {
        assert c == PAD;
      }
    }
  }

  /** A key's own line gives its algorithm and blob back, whatever comment follows. */
  lemma KeyLineReadsBack(algo: Text, blob: bytes, strings: seq<bytes>, rest: Text)
    requires IsWord(algo)
    requires WireStringsOf(blob) == Some(strings) && strings != [] && Utf8(algo) == Some(strings[0])
    requires rest == [] || IsSpace(rest[0])
    ensures PublicKeyParts(KeyLine(algo, blob, rest)) == Ok((algo, blob))
  {
    assert blob != [];
    PaddedIsWord(blob);
    SpaceIsSpace();
    hide IsWord, IsSpace, WireStringsOf, Decode, Utf8, AgentWire.PaddedB64;
    var body := AgentWire.PaddedB64(blob);
    var space: Text := [SPACE];
    assert KeyLine(algo, blob, rest) == algo + (space + (body + rest));
    SplitWord(algo, space + (body + rest));
    SkipSpace(body + rest);
    SplitWord(body, rest);
  }

  lemma SkipSpace(t: Text)
    ensures Split([SPACE] + t) == Split(t)
  {
    var s: Text := [SPACE] + t;
    assert s[0] == SPACE && s[1..] == t;
    SpaceIsSpace();
  }

  lemma {:induction false} DecodesToSomething(t: Text)
    requires t != [] && Decode(t).Some?
    ensures Decode(t).value != []
  {
  }

  /** A line with a body never decodes to an empty blob, so the first string is there to compare. */
  lemma BlobIsNeverEmpty(line: Text)
    ensures PublicKeyParts(line) != Err(EmptyBlob)
  {
    SplitYieldsWords(line);
    hide Split, IsWord, Decode, Utf8;
    var fields := Split(line);
    if |fields| >= 2 {
      WordsAreNotEmpty(fields[1]);
      if Decode(fields[1]).Some? {
        DecodesToSomething(fields[1]);
      }
    }
  }

  lemma WordsAreNotEmpty(w: Text)
    ensures IsWord(w) ==> w != []
  {
  }

  /** Whatever a recipient is made for, the mint's silent question already said yes to; and everything in it is bound to
      the line's blob, whose first string is the kind it wraps as. */
  lemma RecipientIsOfItsLine(p: Primitives, lib: KeyLibrary, line: Text)
    requires RecipientOf(p, lib, line).Ok?
    ensures AgeCapable(line)
    ensures var t := RecipientOf(p, lib, line).value;
      && PublicKeyParts(line) == Ok((if t.Ed25519Recipient? then ED25519_KIND else RSA_KIND, t.blob))
      && t.fp == Fingerprint(p, t.blob)
  {
    hide Split, Utf8, Decode, WireStringsOf, M.MontgomeryU, BitLength;
  }

  // ---- a line and its identity ----

  lemma NamesOfKinds()
    ensures IsWord(ED25519_KIND) && Utf8(ED25519_KIND) == Some(ED25519_NAME)
    ensures IsWord(RSA_KIND) && Utf8(RSA_KIND) == Some(RSA_NAME)
  {
    KindsAreWords();
    hide IsWord, IsAscii, Utf8;
    AsciiIsItself(ED25519_KIND);
    AsciiIsItself(RSA_KIND);
    hide AsBytes;
    assert AsBytes(ED25519_KIND) == ED25519_NAME;
    assert AsBytes(RSA_KIND) == RSA_NAME;
  }

  lemma ShortFits(b: bytes)
    requires |b| <= 32
    ensures Fits(b)
  {
    assert Pow256(4) == 0x1_0000_0000;
  }

  lemma TwoStrings(a: bytes, b: bytes)
    requires Fits(a) && Fits(b)
    ensures WireString(a).Some? && WireString(b).Some?
    ensures WireStringsOf(WireString(a).value + WireString(b).value) == Some([a, b])
  {
    hide Pow256, BigEndian;
    var strings := [a, b];
    assert strings[1..] == [b] && strings == [a] + [b];
    assert Joined(strings[1..]) == WireString(b).value + [];
    assert Joined(strings) == WireString(a).value + Joined(strings[1..]);
    WireStringsInverse(WireString(a).value + WireString(b).value, strings);
  }

  /** The library's conversions agree: the public point of a seed has the u-coordinate of its scalar's public point. */
  ghost predicate ConversionAgrees(p: Primitives, lib: KeyLibrary, seed: bytes) {
    && |lib.edPoint(seed)| == 32
    && p.x25519(Slice(lib.sha512(seed), 0, 32), BASE_POINT).Some?
    && M.MontgomeryU(lib.edPoint(seed)) == Ok(p.x25519(Slice(lib.sha512(seed), 0, 32), BASE_POINT).value)
  }

  lemma Ed25519Blob(p: Primitives, lib: KeyLibrary, seed: bytes)
    requires ConversionAgrees(p, lib, seed)
    ensures Ed25519IdentityOf(p, lib, seed).Some?
    ensures WireStringsOf(Ed25519IdentityOf(p, lib, seed).value.blob) == Some([ED25519_NAME, lib.edPoint(seed)])
  {
    hide WireStringsOf, WireString, Fits, Fingerprint, M.MontgomeryU;
    ShortFits(ED25519_NAME);
    ShortFits(lib.edPoint(seed));
    TwoStrings(ED25519_NAME, lib.edPoint(seed));
  }

  lemma RecipientByKind(p: Primitives, lib: KeyLibrary, line: Text, algo: Text, blob: bytes, strings: seq<bytes>)
    requires PublicKeyParts(line) == Ok((algo, blob)) && WireStringsOf(blob) == Some(strings)
    ensures algo == ED25519_KIND ==> RecipientOf(p, lib, line) == Ed25519RecipientOf(p, blob, strings)
    ensures algo == RSA_KIND ==> RecipientOf(p, lib, line) == RsaRecipientOf(p, lib, blob, strings)
  {
    hide PublicKeyParts, WireStringsOf, Ed25519RecipientOf, RsaRecipientOf;
    assert |ED25519_KIND| == 11 && |RSA_KIND| == 7;
  }

  lemma Ed25519Paired(p: Primitives, lib: KeyLibrary, seed: bytes, strings: seq<bytes>)
    requires ConversionAgrees(p, lib, seed) && Ed25519IdentityOf(p, lib, seed).Some?
    requires |strings| == 2 && strings[1] == lib.edPoint(seed)
    ensures var id := Ed25519IdentityOf(p, lib, seed).value;
      var t := Ed25519RecipientOf(p, id.blob, strings);
      t.Ok? && IsPair(p, t.value, id)
  {
    hide WireString, Fingerprint, M.MontgomeryU;
  }

  /** The line of an ed25519 key makes the recipient its identity is the private half of. */
  lemma Ed25519LineIsPaired(p: Primitives, lib: KeyLibrary, seed: bytes, rest: Text)
    requires ConversionAgrees(p, lib, seed) && (rest == [] || IsSpace(rest[0]))
    ensures match Ed25519IdentityOf(p, lib, seed)
            case None => false
            case Some(id) =>
              match RecipientOf(p, lib, KeyLine(ED25519_KIND, id.blob, rest))
              case Err(_) => false
              case Ok(t) => IsPair(p, t, id)
  {
    Ed25519Blob(p, lib, seed);
    NamesOfKinds();
    hide *;
    var id := Ed25519IdentityOf(p, lib, seed).value;
    var strings := [ED25519_NAME, lib.edPoint(seed)];
    Ed25519Paired(p, lib, seed, strings);
    KeyLineReadsBack(ED25519_KIND, id.blob, strings, rest);
    RecipientByKind(p, lib, KeyLine(ED25519_KIND, id.blob, rest), ED25519_KIND, id.blob, strings);
  }

  /** The private key opens the file keys the public numbers seal. */
  ghost predicate RsaAgrees(p: Primitives, lib: KeyLibrary, key: bytes, e: nat, n: nat) {
    && lib.rsaPublic(e, n).Some?
    && forall m, r :: |m| == FILE_KEY_BYTES ==>
      p.oaepOpen(key, p.oaepSeal(lib.rsaPublic(e, n).value, m, RSA_LABEL, r), RSA_LABEL) == Some(m)
        && |p.oaepSeal(lib.rsaPublic(e, n).value, m, RSA_LABEL, r)| <= 0x1_0000
  }

  lemma RsaBlob(p: Primitives, key: bytes, e: nat, n: nat)
    requires RsaIdentityOf(p, key, e, n).Some?
    ensures var parts: seq<bytes> := [RSA_NAME, MpintBody(e), MpintBody(n)];
      && WireStringsOf(RsaIdentityOf(p, key, e, n).value.blob) == Some(parts)
      && FromBytes(parts[1]) == e && FromBytes(parts[2]) == n
  {
    ShortFits(RSA_NAME);
    hide WireStringsOf, WireString, Fits, Fingerprint, BitLength, Mpint, MpintBody, FromBytes;
    MpintsThroughWire(RSA_NAME, e, n);
  }

  lemma RsaPaired(p: Primitives, lib: KeyLibrary, key: bytes, e: nat, n: nat, strings: seq<bytes>)
    requires RsaAgrees(p, lib, key, e, n) && RsaIdentityOf(p, key, e, n).Some?
    requires |strings| == 3 && FromBytes(strings[1]) == e && FromBytes(strings[2]) == n
    ensures var id := RsaIdentityOf(p, key, e, n).value;
      var t := RsaRecipientOf(p, lib, id.blob, strings);
      t.Ok? && IsPair(p, t.value, id)
  {
    hide WireString, Fingerprint, BitLength, Mpint, FromBytes;
  }

  /** The line of an RSA key makes the recipient its identity is the private half of: the two big integers survive the
      wire, so the size check and the library see the key's own numbers. */
  lemma RsaLineIsPaired(p: Primitives, lib: KeyLibrary, key: bytes, e: nat, n: nat, rest: Text)
    requires RsaAgrees(p, lib, key, e, n) && (rest == [] || IsSpace(rest[0]))
    ensures match RsaIdentityOf(p, key, e, n)
            case None => true
            case Some(id) =>
              match RecipientOf(p, lib, KeyLine(RSA_KIND, id.blob, rest))
              case Err(_) => false
              case Ok(t) => IsPair(p, t, id)
  {
    NamesOfKinds();
    hide *;
    if RsaIdentityOf(p, key, e, n).Some? {
      var id := RsaIdentityOf(p, key, e, n).value;
      RsaBlob(p, key, e, n);
      var strings: seq<bytes> := [RSA_NAME, MpintBody(e), MpintBody(n)];
      RsaPaired(p, lib, key, e, n, strings);
      KeyLineReadsBack(RSA_KIND, id.blob, strings, rest);
      RecipientByKind(p, lib, KeyLine(RSA_KIND, id.blob, rest), RSA_KIND, id.blob, strings);
    }
  }

  // ---- through a file ----

  datatype EncryptError = Key(key: KeyError) | File(file: FileError)

  /** `encrypt`, from the line on. */
  function EncryptedTo(
    p: Primitives, lib: KeyLibrary, value: bytes, line: Text, fileKey: bytes, random: bytes, nonce: bytes):
    Result<bytes, EncryptError>
  {
    match RecipientOf(p, lib, line)
    case Err(e) => Err(Key(e))
    case Ok(target) =>
      match Encrypted(p, value, target, fileKey, random, nonce)
      case Err(e) => Err(File(e))
      case Ok(file) => Ok(file)
  }

  /** The identity is a loaded private key. */
  ghost predicate IsLoaded(p: Primitives, lib: KeyLibrary, id: Identity) {
    match id
    case Ed25519Identity(_, _, _, _) =>
      exists seed :: ConversionAgrees(p, lib, seed) && Ed25519IdentityOf(p, lib, seed) == Some(id)
    case RsaIdentity(_, _, key) =>
      exists e, n :: RsaAgrees(p, lib, key, e, n) && RsaIdentityOf(p, key, e, n) == Some(id)
  }

  /** What is encrypted to a key's own line, with any comment, opens under the key, for both key types. */
  lemma EncryptToLineOpens(
    p: Primitives, lib: KeyLibrary, id: Identity, value: bytes, rest: Text, fileKey: bytes, random: bytes, nonce: bytes)
    requires Lawful(p) && |fileKey| == FILE_KEY_BYTES && |nonce| == 16
    requires IsLoaded(p, lib, id) && (rest == [] || IsSpace(rest[0]))
    ensures var line := KeyLine(KindOf(id), id.blob, rest);
      match RecipientOf(p, lib, line)
      case Err(_) => false
      case Ok(t) =>
        match EncryptedTo(p, lib, value, line, fileKey, random, nonce)
        case Ok(file) => Decrypted(p, id, file) == Ok(value)
        case Err(e) => WrapKey(p, t, fileKey, random).Err? || Chunks(|value|) > COUNTERS
  {
    hide *;
    OwnLineIsPaired(p, lib, id, rest);
    var line := KeyLine(KindOf(id), id.blob, rest);
    EncryptToOpens(p, lib, id, value, line, RecipientOf(p, lib, line).value, fileKey, random, nonce);
  }

  lemma EncryptToOpens(
    p: Primitives, lib: KeyLibrary, id: Identity, value: bytes, line: Text, t: Recipient, fileKey: bytes, random: bytes,
    nonce: bytes)
    requires Lawful(p) && |fileKey| == FILE_KEY_BYTES && |nonce| == 16
    requires RecipientOf(p, lib, line) == Ok(t) && IsPair(p, t, id)
    ensures match EncryptedTo(p, lib, value, line, fileKey, random, nonce)
            case Ok(file) => Decrypted(p, id, file) == Ok(value)
            case Err(e) => WrapKey(p, t, fileKey, random).Err? || Chunks(|value|) > COUNTERS
  {
    hide Lawful, IsPair, RecipientOf, Encrypted, Decrypted, WrapKey, Chunks;
    EncryptThenDecrypt(p, t, id, value, fileKey, random, nonce);
  }

  lemma OwnLineIsPaired(p: Primitives, lib: KeyLibrary, id: Identity, rest: Text)
    requires IsLoaded(p, lib, id) && (rest == [] || IsSpace(rest[0]))
    ensures match RecipientOf(p, lib, KeyLine(KindOf(id), id.blob, rest))
            case Err(_) => false
            case Ok(t) => IsPair(p, t, id)
  {
    hide IsPair, RecipientOf, KeyLine, RsaAgrees, ConversionAgrees, IsSpace, RsaIdentityOf, Ed25519IdentityOf;
    match id
    case Ed25519Identity(_, _, _, _) =>
      var seed :| ConversionAgrees(p, lib, seed) && Ed25519IdentityOf(p, lib, seed) == Some(id);
      Ed25519LineIsPaired(p, lib, seed, rest);
    case RsaIdentity(_, _, key) =>
      var e, n :| RsaAgrees(p, lib, key, e, n) && RsaIdentityOf(p, key, e, n) == Some(id);
      RsaLineIsPaired(p, lib, key, e, n, rest);
  }

  // ---- the laws can be met ----

  lemma PointOfOne()
    ensures |ToLittleOne()| == 32 && M.MontgomeryU(ToLittleOne()) == Ok(M.ToLittle(0, 32))
  {
    hide M.EdwardsD, M.ToLittle, M.FromLittle, M.UOfY, Pow256;
    M.ThirtyTwoBytes();
    M.FromToLittle(1, 32);
    M.BothOnesAreAccepted(M.P25519, M.EdwardsD(M.P25519));
  }

  function ToLittleOne(): bytes {
    M.ToLittle(1, 32)
  }

  lemma Untagged(m: bytes, tag: bytes)
    ensures (m + tag)[..|m + tag| - |tag|] == m
  {
  }

  /** A library that keeps every law asked of it here, for every seed and every RSA key: the laws do not contradict each
      other. */
  lemma LawsAreConsistent() returns (p: Primitives, lib: KeyLibrary)
    ensures Lawful(p)
    ensures forall seed :: ConversionAgrees(p, lib, seed)
    ensures forall key, e, n :: RsaAgrees(p, lib, key, e, n)
    ensures forall scalar, point :: p.x25519(scalar, point).Some?
  {
    PointOfOne();
    hide M.MontgomeryU;
    var tag: bytes := seq(TAG_BYTES, _ => 0);
    var digest: bytes := seq(32, _ => 0);
    var shared := M.ToLittle(0, 32);
    var aead := Aead(
      (k: bytes, n: bytes, m: bytes) => m + tag,
      (k: bytes, n: bytes, c: bytes) => if |c| < TAG_BYTES then None else Some(c[..|c| - TAG_BYTES]));
    p := Primitives(
      aead, (b: bytes) => digest, (k: bytes, m: bytes) => digest, (k: bytes, s: Option<bytes>, i: bytes) => digest,
      (a: bytes, b: bytes) => Some(shared),
      (k: bytes, m: bytes, l: bytes, r: bytes) => m, (k: bytes, t: bytes, l: bytes) => Some(t));
    lib := KeyLibrary((s: bytes) => ToLittleOne(), (b: bytes) => digest, (e: nat, n: nat) => Some([]));
    forall key ensures Correct(aead, key) {
      forall n, m ensures aead.open(key, n, aead.seal(key, n, m)) == Some(m) {
        Untagged(m, tag);
      }
    }
  }

  lemma AlwaysWraps(p: Primitives, t: Recipient, fileKey: bytes, random: bytes)
    requires forall scalar, point :: p.x25519(scalar, point).Some?
    ensures WrapKey(p, t, fileKey, random).Ok?
  {
    hide B64e;
  }

  /** Under one such library every value has a file that opens with nothing forged in it: authenticity and the round
      trip speak of the same library and the same file. */
  lemma AuthenticFileExists(value: bytes, seed: bytes, fileKey: bytes, random: bytes, nonce: bytes)
    returns (p: Primitives, id: Identity, file: bytes)
    requires |fileKey| == FILE_KEY_BYTES && |nonce| == 16 && Chunks(|value|) <= COUNTERS
    ensures Lawful(p) && Decrypted(p, id, file) == Ok(value)
    ensures FindKey(p, id, Parse(file).value.stanzas) == FileKey(fileKey)
    ensures NothingForged(p, fileKey, Parse(file).value.macInput, nonce, value, Parse(file).value)
  {
    hide *;
    var lib;
    p, lib := LawsAreConsistent();
    var rest: Text := [];
    Ed25519LineIsPaired(p, lib, seed, rest);
    id := Ed25519IdentityOf(p, lib, seed).value;
    var t := RecipientOf(p, lib, KeyLine(ED25519_KIND, id.blob, rest)).value;
    AlwaysWraps(p, t, fileKey, random);
    EncryptThenDecrypt(p, t, id, value, fileKey, random, nonce);
    file := Encrypted(p, value, t, fileKey, random, nonce).value;
    HonestFileIsUnforged(p, t, id, value, fileKey, random, nonce);
  }
}
