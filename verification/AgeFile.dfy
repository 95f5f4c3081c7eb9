/** Whole age files for ssh keys: wrapping a file key for a recipient, and opening a file with an identity. */
module AgeFile {
  import opened Wrappers
  import opened Bytes
  import opened Base64
  import opened AgeHeader
  import opened AgeStream

  /** The library calls, as functions; every None is the library's refusal. */
  datatype Primitives = Primitives(
    aead: Aead,
    sha256: bytes -> bytes,
    hmac: (bytes, bytes) -> bytes,
    /** `(input key, salt, info)`; no salt is the format's empty salt */
    hkdf: (bytes, Option<bytes>, bytes) -> bytes,
    /** `(scalar, point)`; None on a low-order point */
    x25519: (bytes, bytes) -> Option<bytes>,
    /** OAEP under a public key: `(key, message, label, randomness)` */
    oaepSeal: (bytes, bytes, bytes, bytes) -> bytes,
    /** OAEP under a private key: `(key, text, label)` */
    oaepOpen: (bytes, bytes, bytes) -> Option<bytes>)

  /** "ssh-ed25519" */
  const ED25519_KIND: Text := [115, 115, 104, 45, 101, 100, 50, 53, 53, 49, 57]
  /** "ssh-rsa" */
  const RSA_KIND: Text := [115, 115, 104, 45, 114, 115, 97]
  /** "age-encryption.org/v1/ssh-ed25519" */
  const ED25519_LABEL: bytes := V1_HEADER + [47, 115, 115, 104, 45, 101, 100, 50, 53, 53, 49, 57]
  /** "age-encryption.org/v1/ssh-rsa" */
  const RSA_LABEL: bytes := V1_HEADER + [47, 115, 115, 104, 45, 114, 115, 97]
  /** "header" */
  const HEADER_INFO: bytes := [104, 101, 97, 100, 101, 114]
  /** "payload" */
  const PAYLOAD_INFO: bytes := [112, 97, 121, 108, 111, 97, 100]
  const FILE_KEY_BYTES := 16
  const ZERO_NONCE: bytes := [0, 0, 0, 0, 0, 0, 0, 0, 0, 0, 0, 0]
  /** The base point: 9 in 32 little-endian bytes. */
  const BASE_POINT: bytes :=
    [9, 0, 0, 0, 0, 0, 0, 0, 0, 0, 0, 0, 0, 0, 0, 0, 0, 0, 0, 0, 0, 0, 0, 0, 0, 0, 0, 0, 0, 0, 0, 0]

  datatype Recipient =
    | Ed25519Recipient(blob: bytes, fp: Text, montgomery: bytes)
    | RsaRecipient(blob: bytes, fp: Text, rsaPub: bytes)

  datatype Identity =
    | Ed25519Identity(blob: bytes, fp: Text, montgomery: bytes, scalar: bytes)
    | RsaIdentity(blob: bytes, fp: Text, rsaKey: bytes)

  datatype FileError =
    | Header(header: HeaderError) | Stream(stream: StreamError)
    | LowOrderPoint | WrongArgumentCount | BadShare | NoMatchingStanza | MacMismatch | NoPayloadNonce

  /** What one unwrap yields: a key, a miss the loop passes over, or an error that ends it. */
  datatype Unwrapped = FileKey(key: bytes) | NotForThisKey | Fatal(error: FileError)

  /** `fingerprint`: four bytes of the hash of the wire blob. */
  function Fingerprint(p: Primitives, blob: bytes): Text {
    B64e(Slice(p.sha256(blob), 0, 4))
  }

  // ---- wrapping ----

  /** The wrap key both sides derive: the exchange, multiplied by the tweak bound to the wire blob, through HKDF. */
  function Ed25519WrapKey(p: Primitives, blob: bytes, exchange: bytes, share: bytes, montgomery: bytes): Option<bytes> {
    match p.x25519(p.hkdf([], Some(blob), ED25519_LABEL), exchange)
    case None => None
    case Some(shared) => Some(p.hkdf(shared, Some(share + montgomery), ED25519_LABEL))
  }

  function WrapEd25519(p: Primitives, t: Recipient, fileKey: bytes, ephemeral: bytes): Result<Stanza, FileError>
    requires t.Ed25519Recipient?
  {
    match (p.x25519(ephemeral, BASE_POINT), p.x25519(ephemeral, t.montgomery))
    case (Some(share), Some(exchange)) =>
      (match Ed25519WrapKey(p, t.blob, exchange, share, t.montgomery)
       case None => Err(LowOrderPoint)
       case Some(key) => Ok(Stanza(ED25519_KIND, [t.fp, B64e(share)], p.aead.seal(key, ZERO_NONCE, fileKey))))
    case _ => Err(LowOrderPoint)
  }

  function WrapRsa(p: Primitives, t: Recipient, fileKey: bytes, random: bytes): Stanza
    requires t.RsaRecipient?
  {
    Stanza(RSA_KIND, [t.fp], p.oaepSeal(t.rsaPub, fileKey, RSA_LABEL, random))
  }

  /** `wrap_key`; the randomness is the ephemeral scalar or the padding's. */
  function WrapKey(p: Primitives, t: Recipient, fileKey: bytes, random: bytes): Result<Stanza, FileError> {
    if t.Ed25519Recipient? then WrapEd25519(p, t, fileKey, random) else Ok(WrapRsa(p, t, fileKey, random))
  }

  function UnwrapEd25519(p: Primitives, id: Identity, s: Stanza): Unwrapped
    requires id.Ed25519Identity?
  {
    if |s.args| != 2 then Fatal(WrongArgumentCount)
    else if s.args[0] != id.fp then NotForThisKey
    else
      match B64d(s.args[1])
      case None => Fatal(BadShare)
      case Some(share) =>
        if |share| != 32 then Fatal(BadShare)
        else
          match p.x25519(id.scalar, share)
          case None => Fatal(LowOrderPoint)
          case Some(exchange) =>
            match Ed25519WrapKey(p, id.blob, exchange, share, id.montgomery)
            case None => Fatal(LowOrderPoint)
            case Some(key) =>
              match p.aead.open(key, ZERO_NONCE, s.body)
              case None => NotForThisKey
              case Some(fileKey) => FileKey(fileKey)
  }

  function UnwrapRsa(p: Primitives, id: Identity, s: Stanza): Unwrapped
    requires id.RsaIdentity?
  {
    if |s.args| != 1 then Fatal(WrongArgumentCount)
    else if s.args[0] != id.fp then NotForThisKey
    else
      match p.oaepOpen(id.rsaKey, s.body, RSA_LABEL)
      case None => NotForThisKey
      case Some(fileKey) => FileKey(fileKey)
  }

  function KindOf(id: Identity): Text {
    if id.Ed25519Identity? then ED25519_KIND else RSA_KIND
  }

  /** `SshIdentity.unwrap`. */
  function Unwrap(p: Primitives, id: Identity, s: Stanza): Unwrapped {
    if s.kind != KindOf(id) then NotForThisKey
    else if id.Ed25519Identity? then UnwrapEd25519(p, id, s)
    else UnwrapRsa(p, id, s)
  }

  // ---- files ----

  function MacOf(p: Primitives): HeaderMac {
    (fileKey: bytes, partial: bytes) => p.hmac(p.hkdf(fileKey, None, HEADER_INFO), partial)
  }

  function PayloadKey(p: Primitives, fileKey: bytes, nonce: bytes): bytes {
    p.hkdf(fileKey, Some(nonce), PAYLOAD_INFO)
  }

  /** A file: the header over some stanzas, the payload nonce, the sealed payload. */
  function Assemble(p: Primitives, fileKey: bytes, stanzas: seq<Stanza>, nonce: bytes, value: bytes):
    Result<bytes, FileError>
  {
    match BuildHeader(MacOf(p), fileKey, stanzas)
    case Err(e) => Err(Header(e))
    case Ok(header) =>
      match Sealed(p.aead, PayloadKey(p, fileKey, nonce), value)
      case Err(e) => Err(Stream(e))
      case Ok(sealed) => Ok(header + nonce + sealed)
  }

  function Encrypted(p: Primitives, value: bytes, target: Recipient, fileKey: bytes, random: bytes, nonce: bytes):
    Result<bytes, FileError>
  {
    match WrapKey(p, target, fileKey, random)
    case Err(e) => Err(e)
    case Ok(stanza) => Assemble(p, fileKey, [stanza], nonce, value)
  }

  /** `encrypt` once the recipient line is read; the three random draws are parameters. The file opens to the value
      under the recipient's identity, and making it fails only on a degenerate exchange or past the chunk counter. */
  method Encrypt(p: Primitives, value: bytes, target: Recipient, fileKey: bytes, random: bytes, nonce: bytes)
    returns (r: Result<bytes, FileError>)
    ensures r == Encrypted(p, value, target, fileKey, random, nonce)
    ensures Lawful(p) && |fileKey| == FILE_KEY_BYTES && |nonce| == 16 ==>
      forall id :: IsPair(p, target, id) ==>
        && (r.Ok? ==> Decrypted(p, id, r.value) == Ok(value))
        && (r.Err? ==> WrapKey(p, target, fileKey, random).Err? || Chunks(|value|) > COUNTERS)
  {
    hide Lawful, IsPair, Decrypted, Chunks, WrapKey, BuildHeader, Sealed;
    forall id | Lawful(p) && IsPair(p, target, id) && |fileKey| == FILE_KEY_BYTES && |nonce| == 16
      ensures var made := Encrypted(p, value, target, fileKey, random, nonce);
        && (made.Ok? ==> Decrypted(p, id, made.value) == Ok(value))
        && (made.Err? ==> WrapKey(p, target, fileKey, random).Err? || Chunks(|value|) > COUNTERS)
    {
      EncryptThenDecrypt(p, target, id, value, fileKey, random, nonce);
    }
    var stanza := WrapKey(p, target, fileKey, random);
    if stanza.Err? {
      return Err(stanza.error);
    }
    var header := BuildHeader(MacOf(p), fileKey, [stanza.value]);
    if header.Err? {
      return Err(Header(header.error));
    }
    var sealed := StreamEncrypt(p.aead, PayloadKey(p, fileKey, nonce), value);
    if sealed.Err? {
      return Err(Stream(sealed.error));
    }
    r := Ok(header.value + nonce + sealed.value);
  }

  /** The first stanza that is not a miss decides. */
  function FindKey(p: Primitives, id: Identity, stanzas: seq<Stanza>): Unwrapped {
    if stanzas == [] then NotForThisKey
    else if Unwrap(p, id, stanzas[0]) == NotForThisKey then FindKey(p, id, stanzas[1..])
    else Unwrap(p, id, stanzas[0])
  }

  /** What follows the recovery of a file key: the MAC check, the payload nonce, the stream. */
  function OpenWith(p: Primitives, fileKey: bytes, parsed: Parsed): Result<bytes, FileError> {
    if MacOf(p)(fileKey, parsed.macInput) != parsed.mac then Err(MacMismatch)
    else if |parsed.payload| < 16 then Err(NoPayloadNonce)
    else
      match Opened(p.aead, PayloadKey(p, fileKey, parsed.payload[..16]), parsed.payload[16..])
      case Err(e) => Err(Stream(e))
      case Ok(value) => Ok(value)
  }

  function Decrypted(p: Primitives, id: Identity, file: bytes): Result<bytes, FileError> {
    match Parse(file)
    case Err(e) => Err(Header(e))
    case Ok(parsed) =>
      match FindKey(p, id, parsed.stanzas)
      case NotForThisKey => Err(NoMatchingStanza)
      case Fatal(e) => Err(e)
      case FileKey(fileKey) => OpenWith(p, fileKey, parsed)
  }

  /** `decrypt_with_identity`. */
  method DecryptWithIdentity(p: Primitives, id: Identity, file: bytes) returns (r: Result<bytes, FileError>)
    ensures r == Decrypted(p, id, file)
  {
    var header := ParseHeader(file);
    if header.Err? {
      return Err(Header(header.error));
    }
    var parsed := header.value;
    var fileKey: Option<bytes> := None;
    var i := 0;
    while i < |parsed.stanzas| && fileKey.None?
      invariant i <= |parsed.stanzas|
      invariant FindKey(p, id, parsed.stanzas)
             == if fileKey.Some? then FileKey(fileKey.value) else FindKey(p, id, parsed.stanzas[i..])
    {
      var u := Unwrap(p, id, parsed.stanzas[i]);
      assert parsed.stanzas[i..][0] == parsed.stanzas[i] && parsed.stanzas[i..][1..] == parsed.stanzas[i + 1..];
      if u.Fatal? {
        return Err(u.error);
      } else if u.FileKey? {
        fileKey := Some(u.key);
      }
      i := i + 1;
    }
    if fileKey.None? {
      return Err(NoMatchingStanza);
    }
    if MacOf(p)(fileKey.value, parsed.macInput) != parsed.mac {
      return Err(MacMismatch);
    }
    if |parsed.payload| < 16 {
      return Err(NoPayloadNonce);
    }
    var key := PayloadKey(p, fileKey.value, parsed.payload[..16]);
    var plain := StreamDecrypt(p.aead, key, parsed.payload[16..]);
    r := if plain.Ok? then Ok(plain.value) else Err(Stream(plain.error));
  }

  // ---- what the library promises ----

  /** Output sizes, the seal's round trip, and X25519's commuting exchange. */
  ghost predicate Lawful(p: Primitives) {
    && (forall k, m :: |p.hmac(k, m)| == 32)
    && (forall b :: |p.sha256(b)| == 32)
    && (forall key :: Correct(p.aead, key))
    && (forall a, b :: p.x25519(a, b).Some? ==> |p.x25519(a, b).value| == 32)
    && (forall a, b :: p.x25519(a, BASE_POINT).Some? && p.x25519(b, BASE_POINT).Some? ==>
         p.x25519(a, p.x25519(b, BASE_POINT).value) == p.x25519(b, p.x25519(a, BASE_POINT).value))
  }

  /** The identity is the private half of the recipient: for ed25519 both hold the public point of its scalar, for
      RSA the private key opens the file keys the public key sealed, each into at most 64 KiB of text. */
  ghost predicate IsPair(p: Primitives, t: Recipient, id: Identity) {
    && t.blob == id.blob && t.fp == id.fp == Fingerprint(p, t.blob)
    && match (t, id)
       case (Ed25519Recipient(_, _, u), Ed25519Identity(_, _, v, scalar)) =>
         u == v && p.x25519(scalar, BASE_POINT) == Some(u)
       case (RsaRecipient(_, _, pub), RsaIdentity(_, _, key)) =>
         forall m, r :: |m| == FILE_KEY_BYTES ==>
           p.oaepOpen(key, p.oaepSeal(pub, m, RSA_LABEL, r), RSA_LABEL) == Some(m)
             && |p.oaepSeal(pub, m, RSA_LABEL, r)| <= 0x1_0000
       case _ => false
  }

  /** A stanza wrapped for a recipient is opened by its identity: both sides reach one shared point, tweak it alike
      and derive one key. */
  lemma UnwrapOfWrap(p: Primitives, t: Recipient, id: Identity, fileKey: bytes, random: bytes)
    requires Lawful(p) && IsPair(p, t, id) && |fileKey| == FILE_KEY_BYTES && WrapKey(p, t, fileKey, random).Ok?
    ensures Unwrap(p, id, WrapKey(p, t, fileKey, random).value) == FileKey(fileKey)
  {
    if t.Ed25519Recipient? {
      var share := p.x25519(random, BASE_POINT).value;
      assert p.x25519(random, t.montgomery) == p.x25519(id.scalar, share);
      B64RoundTrip(share);
      hide B64d, B64e;
      var exchange := p.x25519(id.scalar, share).value;
      var key := Ed25519WrapKey(p, t.blob, exchange, share, t.montgomery).value;
      assert Correct(p.aead, key);
    }
  }

  lemma LettersAreWord(data: bytes)
    requires data != []
    ensures IsWord(B64e(data)) && IsAscii(B64e(data))
  {
    B64eLength(data);
    B64eLetters(data);
    hide B64e;
    forall c | c in B64e(data) ensures !IsSpace(c) && c < 128 {
      assert IsLetter(c);
    }
  }

  lemma FingerprintIsWord(p: Primitives, blob: bytes)
    requires Lawful(p)
    ensures IsWord(Fingerprint(p, blob)) && IsAscii(Fingerprint(p, blob)) && |Fingerprint(p, blob)| == 6
  {
    LettersAreWord(Slice(p.sha256(blob), 0, 4));
    B64eLength(Slice(p.sha256(blob), 0, 4));
    hide B64e;
  }

  lemma KindsAreWords()
    ensures IsWord(ED25519_KIND) && IsAscii(ED25519_KIND) && IsWord(RSA_KIND) && IsAscii(RSA_KIND)
  {
  }

  /** A wrapped stanza can always be carried in a header. */
  lemma WrappedIsCarriable(p: Primitives, t: Recipient, fileKey: bytes, random: bytes)
    requires Lawful(p) && t.fp == Fingerprint(p, t.blob) && WrapKey(p, t, fileKey, random).Ok?
    ensures IsCarriableStanza(WrapKey(p, t, fileKey, random).value)
  {
    KindsAreWords();
    FingerprintIsWord(p, t.blob);
    hide IsWord, IsAscii, Fingerprint, Correct;
    if t.Ed25519Recipient? {
      LettersAreWord(p.x25519(random, BASE_POINT).value);
    }
  }

  // ---- what a miss is, from the stanza's fields ----

  /** A stanza of another kind, or one of the identity's kind with the right argument count and another fingerprint. */
  ghost predicate IsOther(id: Identity, s: Stanza) {
    match id
    case Ed25519Identity(_, fp, _, _) => s.kind != ED25519_KIND || (|s.args| == 2 && s.args[0] != fp)
    case RsaIdentity(_, fp, _) => s.kind != RSA_KIND || (|s.args| == 1 && s.args[0] != fp)
  }

  /** A well-formed stanza with the identity's own fingerprint whose body it does not open: the hint collides. */
  ghost predicate DoesNotOpen(p: Primitives, id: Identity, s: Stanza) {
    match id
    case Ed25519Identity(blob, fp, montgomery, scalar) =>
      && s.kind == ED25519_KIND && |s.args| == 2 && s.args[0] == fp
      && exists share, exchange, key ::
        && B64d(s.args[1]) == Some(share) && |share| == 32
        && p.x25519(scalar, share) == Some(exchange)
        && Ed25519WrapKey(p, blob, exchange, share, montgomery) == Some(key)
        && p.aead.open(key, ZERO_NONCE, s.body) == None
    case RsaIdentity(_, fp, key) =>
      && s.kind == RSA_KIND && |s.args| == 1 && s.args[0] == fp && p.oaepOpen(key, s.body, RSA_LABEL) == None
  }

  /** The decrypt loop passes over exactly these stanzas. */
  lemma MissExactly(p: Primitives, id: Identity, s: Stanza)
    ensures Unwrap(p, id, s) == NotForThisKey <==> IsOther(id, s) || DoesNotOpen(p, id, s)
  {
    KindsDiffer();
    hide B64d, Ed25519WrapKey;
  }

  lemma KindsDiffer()
    ensures ED25519_KIND != RSA_KIND
  {
    assert |ED25519_KIND| == 11 && |RSA_KIND| == 7;
  }

  /** The stanzas of the identity's kind that end the loop: a wrong argument count, and for ed25519 an addressed one
      whose share is no 32 bytes or is a low-order point. */
  lemma FatalStanzas(p: Primitives, id: Identity, s: Stanza)
    requires s.kind == if id.Ed25519Identity? then ED25519_KIND else RSA_KIND
    ensures |s.args| != (if id.Ed25519Identity? then 2 else 1) ==> Unwrap(p, id, s) == Fatal(WrongArgumentCount)
    ensures id.Ed25519Identity? && |s.args| == 2 && s.args[0] == id.fp ==>
      match B64d(s.args[1])
      case None => Unwrap(p, id, s) == Fatal(BadShare)
      case Some(share) =>
        && (|share| != 32 ==> Unwrap(p, id, s) == Fatal(BadShare))
        && (|share| == 32 && p.x25519(id.scalar, share).None? ==> Unwrap(p, id, s) == Fatal(LowOrderPoint))
  {
    hide B64d, Ed25519WrapKey;
  }

  lemma {:induction false} FirstKeyWins(p: Primitives, id: Identity, before: seq<Stanza>, s: Stanza, after: seq<Stanza>)
    requires forall x :: x in before ==> Unwrap(p, id, x) == NotForThisKey
    requires Unwrap(p, id, s).FileKey?
    ensures FindKey(p, id, before + [s] + after) == Unwrap(p, id, s)
  {
    hide Unwrap;
    var all := before + [s] + after;
    if before != [] {
      assert before[0] in before && all[0] == before[0];
      assert all[1..] == before[1..] + [s] + after;
      FirstKeyWins(p, id, before[1..], s, after);
    }
  }

  /** A file that carries a stanza wrapped for an identity opens under it to the value, whatever stands after it and
      whatever stands before it that is for another key or does not open under this one. */
  lemma OpensAmongMisses(
    p: Primitives, t: Recipient, id: Identity, value: bytes, fileKey: bytes, random: bytes, nonce: bytes,
    before: seq<Stanza>, after: seq<Stanza>)
    requires Lawful(p) && IsPair(p, t, id) && |fileKey| == FILE_KEY_BYTES && |nonce| == 16
    requires WrapKey(p, t, fileKey, random).Ok?
    requires forall x :: x in before ==> IsOther(id, x) || DoesNotOpen(p, id, x)
    requires AreCarriable(before + [WrapKey(p, t, fileKey, random).value] + after)
    requires var all := before + [WrapKey(p, t, fileKey, random).value] + after;
      && Assemble(p, fileKey, all, nonce, value).Ok?
      && |BuildHeader(MacOf(p), fileKey, all).value| <= MAX_HEADER_BYTES
    ensures var all := before + [WrapKey(p, t, fileKey, random).value] + after;
      Decrypted(p, id, Assemble(p, fileKey, all, nonce, value).value) == Ok(value)
  {
    var wrapped := WrapKey(p, t, fileKey, random).value;
    var all := before + [wrapped] + after;
    var key := PayloadKey(p, fileKey, nonce);
    UnwrapOfWrap(p, t, id, fileKey, random);
    forall x | x in before ensures Unwrap(p, id, x) == NotForThisKey {
      MissExactly(p, id, x);
    }
    FirstKeyWins(p, id, before, wrapped, after);
    assert Correct(p.aead, key) && MacSize(MacOf(p));
    hide Lawful, IsPair, WrapKey, Unwrap, AreCarriable, BuildHeader, Parse, Sealed, Opened, FindKey, Correct, MacSize,
      Partial, IsOther, DoesNotOpen;
    var header, sealed := BuildHeader(MacOf(p), fileKey, all).value, Sealed(p.aead, key, value).value;
    OpensSealed(p.aead, key, value);
    HeaderRoundTrip(MacOf(p), fileKey, all, nonce + sealed);
    assert header + nonce + sealed == header + (nonce + sealed);
    assert (nonce + sealed)[..16] == nonce && (nonce + sealed)[16..] == sealed;
  }

  // ---- files for others ----

  lemma {:induction false} NoKeyFound(p: Primitives, id: Identity, stanzas: seq<Stanza>)
    requires forall x :: x in stanzas ==> IsOther(id, x) || DoesNotOpen(p, id, x)
    ensures FindKey(p, id, stanzas) == NotForThisKey
  {
    hide Unwrap, IsOther, DoesNotOpen;
    if stanzas != [] {
      assert stanzas[0] in stanzas && forall x :: x in stanzas[1..] ==> x in stanzas;
      MissExactly(p, id, stanzas[0]);
      NoKeyFound(p, id, stanzas[1..]);
    }
  }

  /** A file none of whose stanzas is for an identity, or opens under it, matches no stanza. */
  lemma OthersFileMatchesNothing(p: Primitives, id: Identity, file: bytes)
    requires Parse(file).Ok?
    requires forall x :: x in Parse(file).value.stanzas ==> IsOther(id, x) || DoesNotOpen(p, id, x)
    ensures Decrypted(p, id, file) == Err(NoMatchingStanza)
  {
    hide Parse, FindKey, IsOther, DoesNotOpen;
    NoKeyFound(p, id, Parse(file).value.stanzas);
  }

  /** What is wrapped for one key is other to every identity of another kind or fingerprint. */
  lemma WrappedIsOther(p: Primitives, t: Recipient, id: Identity, fileKey: bytes, random: bytes)
    requires WrapKey(p, t, fileKey, random).Ok?
    requires t.Ed25519Recipient? != id.Ed25519Identity? || t.fp != id.fp
    ensures IsOther(id, WrapKey(p, t, fileKey, random).value)
  {
    KindsDiffer();
    hide Ed25519WrapKey, B64e;
  }

  /** A file encrypted to one key, opened with another: no stanza matches, whatever the kinds of the two. */
  lemma AnotherKeyMatchesNothing(
    p: Primitives, t: Recipient, owner: Identity, id: Identity, value: bytes, fileKey: bytes, random: bytes,
    nonce: bytes)
    requires Lawful(p) && IsPair(p, t, owner) && |fileKey| == FILE_KEY_BYTES
    requires Encrypted(p, value, t, fileKey, random, nonce).Ok?
    requires t.Ed25519Recipient? != id.Ed25519Identity? || t.fp != id.fp
    ensures Decrypted(p, id, Encrypted(p, value, t, fileKey, random, nonce).value) == Err(NoMatchingStanza)
  {
    EncryptedParts(p, t, owner, value, fileKey, random, nonce);
    WrappedIsOther(p, t, id, fileKey, random);
    hide *;
    OthersFileMatchesNothing(p, id, Encrypted(p, value, t, fileKey, random, nonce).value);
  }

  // ---- what the tweak is for ----

  /** Two ssh keys that share a curve point stay distinct recipients: one exchange gives them different wrap keys, where
      the hash tells their blobs apart and X25519 and the hash do not merge the two tweaked points. */
  lemma BlobsSeparateKeys(
    p: Primitives, blob: bytes, other: bytes, exchange: bytes, share: bytes, montgomery: bytes)
    requires p.hkdf([], Some(blob), ED25519_LABEL) != p.hkdf([], Some(other), ED25519_LABEL)
    requires forall s, t :: s != t && p.x25519(s, exchange).Some? ==> p.x25519(s, exchange) != p.x25519(t, exchange)
    requires forall x, y :: x != y ==>
      p.hkdf(x, Some(share + montgomery), ED25519_LABEL) != p.hkdf(y, Some(share + montgomery), ED25519_LABEL)
    requires Ed25519WrapKey(p, blob, exchange, share, montgomery).Some?
    ensures Ed25519WrapKey(p, blob, exchange, share, montgomery)
         != Ed25519WrapKey(p, other, exchange, share, montgomery)
  {
  }

  lemma OpensSealed(aead: Aead, key: bytes, value: bytes)
    requires Correct(aead, key) && Sealed(aead, key, value).Ok?
    ensures Opened(aead, key, Sealed(aead, key, value).value) == Ok(value)
  {
    SealFromSucceeds(aead, key, value, 0);
    StreamRoundTrip(aead, key, value);
  }

  // ---- one recipient's file ----

  lemma {:induction false} FoldedSize(encoded: Text)
    ensures |Terminated(Folded(encoded))| <= 2 * |encoded| + 1
  {
    if |encoded| >= COLUMNS {
      FoldedSize(encoded[COLUMNS..]);
    } else {
      assert [encoded][1..] == [];
    }
  }

  lemma StanzaSize(s: Stanza)
    ensures |Terminated(StanzaLines(s))| <= 5 + |JoinWords([s.kind] + s.args)| + 2 * |B64e(s.body)|
  {
    hide JoinWords, B64e;
    FoldedSize(B64e(s.body));
    TerminatedConcat([ARROW + JoinWords([s.kind] + s.args)], Folded(B64e(s.body)));
    OneLine(ARROW + JoinWords([s.kind] + s.args));
  }

  lemma OneLine(line: Text)
    ensures |Terminated([line])| == |line| + 1
  {
    assert [line][1..] == [];
  }

  lemma WrappedSize(p: Primitives, t: Recipient, id: Identity, fileKey: bytes, random: bytes)
    requires Lawful(p) && IsPair(p, t, id) && |fileKey| == FILE_KEY_BYTES && WrapKey(p, t, fileKey, random).Ok?
    ensures var s := WrapKey(p, t, fileKey, random).value;
      |JoinWords([s.kind] + s.args)| <= 100 && |B64e(s.body)| <= 0x2_0000
  {
    FingerprintIsWord(p, t.blob);
    var s := WrapKey(p, t, fileKey, random).value;
    B64eLength(s.body);
    if t.Ed25519Recipient? {
      var share := p.x25519(random, BASE_POINT).value;
      B64eLength(share);
      hide B64e, Fingerprint;
      assert exists key :: s.body == p.aead.seal(key, ZERO_NONCE, fileKey) && Correct(p.aead, key);
      JoinThree(s.kind, s.args[0], s.args[1]);
      assert [s.kind] + s.args == [s.kind, s.args[0], s.args[1]];
    } else {
      hide B64e, Fingerprint;
      assert |s.body| <= 0x1_0000;
      JoinThree(s.kind, s.args[0], []);
      assert [s.kind] + s.args == [s.kind, s.args[0]];
    }
  }

  lemma JoinThree(a: Text, b: Text, c: Text)
    ensures |JoinWords([a, b, c])| == |a| + |b| + |c| + 2 && |JoinWords([a, b])| == |a| + |b| + 1
  {
    assert [a, b, c][1..] == [b, c] && [b, c][1..] == [c] && [a, b][1..] == [b];
    assert JoinWords([b, c]) == b + [SPACE] + JoinWords([c]) == b + [SPACE] + c;
  }

  lemma OneStanzaFits(p: Primitives, t: Recipient, id: Identity, fileKey: bytes, random: bytes)
    requires Lawful(p) && IsPair(p, t, id) && |fileKey| == FILE_KEY_BYTES && WrapKey(p, t, fileKey, random).Ok?
    ensures var all := [WrapKey(p, t, fileKey, random).value];
      && AreCarriable(all) && BuildHeader(MacOf(p), fileKey, all).Ok?
      && |BuildHeader(MacOf(p), fileKey, all).value| <= MAX_HEADER_BYTES
  {
    WrappedIsCarriable(p, t, fileKey, random);
    WrappedSize(p, t, id, fileKey, random);
    assert MacSize(MacOf(p));
    hide Lawful, IsPair, WrapKey, IsCarriableStanza, StanzaLines, BuildHeader, MacSize, JoinWords, B64e;
    var s := WrapKey(p, t, fileKey, random).value;
    StanzaSize(s);
    HeaderSize(MacOf(p), fileKey, [s]);
    OneStanzaLines(s);
    TerminatedConcat([V1_HEADER], StanzaLines(s));
    OneLine(V1_HEADER);
  }

  lemma OneStanzaLines(s: Stanza)
    ensures AllLines([s]) == StanzaLines(s)
  {
    assert [s][1..] == [] && StanzaLines(s) + [] == StanzaLines(s);
  }

  /** Encrypting succeeds unless the exchange degenerates or the counter runs out, and then the identity opens the
      file to the value. */
  lemma EncryptThenDecrypt(
    p: Primitives, t: Recipient, id: Identity, value: bytes, fileKey: bytes, random: bytes, nonce: bytes)
    requires Lawful(p) && IsPair(p, t, id) && |fileKey| == FILE_KEY_BYTES && |nonce| == 16
    ensures var file := Encrypted(p, value, t, fileKey, random, nonce);
      && (file.Ok? <==> WrapKey(p, t, fileKey, random).Ok? && Chunks(|value|) <= COUNTERS)
      && (file.Ok? ==> Decrypted(p, id, file.value) == Ok(value))
  {
    hide Lawful, IsPair, WrapKey, AreCarriable, BuildHeader, Decrypted, Unwrap, Pow256, SealFrom, Assemble, Chunks;
    if WrapKey(p, t, fileKey, random).Ok? {
      var s := WrapKey(p, t, fileKey, random).value;
      OneStanzaFits(p, t, id, fileKey, random);
      AssembleSucceeds(p, fileKey, [s], nonce, value);
      assert [] + [s] + [] == [s];
      if Chunks(|value|) <= COUNTERS {
        OpensAmongMisses(p, t, id, value, fileKey, random, nonce, [], []);
      }
    }
  }

  lemma AssembleSucceeds(p: Primitives, fileKey: bytes, stanzas: seq<Stanza>, nonce: bytes, value: bytes)
    requires BuildHeader(MacOf(p), fileKey, stanzas).Ok?
    ensures Assemble(p, fileKey, stanzas, nonce, value).Ok? <==> Chunks(|value|) <= COUNTERS
  {
    hide BuildHeader, Pow256, SealFrom, Chunks;
    SealFromSucceeds(p.aead, PayloadKey(p, fileKey, nonce), value, 0);
  }

  // ---- addressing ----

  /** A stanza of the identity's kind whose first argument is its fingerprint. */
  predicate IsAddressed(id: Identity, s: Stanza) {
    s.kind == KindOf(id) && s.args != [] && s.args[0] == id.fp
  }

  /** `addressed`. */
  function Addressed(id: Identity, file: bytes): Result<bool, FileError> {
    match Parse(file)
    case Err(e) => Err(Header(e))
    case Ok(parsed) => Ok(exists s :: s in parsed.stanzas && IsAddressed(id, s))
  }

  lemma {:induction false} FoundKeyIsAddressed(p: Primitives, id: Identity, stanzas: seq<Stanza>)
    requires FindKey(p, id, stanzas).FileKey?
    ensures exists s :: s in stanzas && IsAddressed(id, s)
  {
    if Unwrap(p, id, stanzas[0]) == NotForThisKey {
      hide Unwrap;
      FoundKeyIsAddressed(p, id, stanzas[1..]);
      var s :| s in stanzas[1..] && IsAddressed(id, s);
      assert s in stanzas;
    } else {
      assert stanzas[0] in stanzas && IsAddressed(id, stanzas[0]);
    }
  }

  /** Whatever opens under a key was addressed to it; so a file that is not is never a corrupt one of its own. */
  lemma OpenedIsAddressed(p: Primitives, id: Identity, file: bytes)
    requires Decrypted(p, id, file).Ok?
    ensures Addressed(id, file) == Ok(true)
  {
    hide FindKey, Unwrap, IsAddressed, Parse, OpenWith;
    FoundKeyIsAddressed(p, id, Parse(file).value.stanzas);
  }

  // ---- tampering ----

  /** Nothing in a presented file is forged: its MAC fits no other bytes than the original ones, and each block of its
      payload that opens does so under the original nonce and is one that was sealed of the value. */
  ghost predicate NothingForged(
    p: Primitives, fileKey: bytes, partial: bytes, nonce: bytes, value: bytes, parsed: Parsed)
  {
    && (MacOf(p)(fileKey, parsed.macInput) == parsed.mac ==> parsed.macInput == partial)
    && (|parsed.payload| >= 16 ==> forall i: nat :: NoForgedBlockAt(p, fileKey, nonce, value, parsed.payload, i))
  }

  ghost predicate NoForgedBlockAt(
    p: Primitives, fileKey: bytes, nonce: bytes, value: bytes, payload: bytes, i: nat)
    requires |payload| >= 16
  {
    var got, rest := payload[..16], payload[16..];
    (BlockOpens(p.aead, PayloadKey(p, fileKey, got), rest, i) ==>
       got == nonce && BlockIsSealed(p.aead, PayloadKey(p, fileKey, nonce), value, rest, i))
  }

  lemma PayloadIsAuthentic(p: Primitives, fileKey: bytes, nonce: bytes, value: bytes, payload: bytes)
    requires |payload| >= 16 && forall i: nat :: NoForgedBlockAt(p, fileKey, nonce, value, payload, i)
    requires Correct(p.aead, PayloadKey(p, fileKey, nonce))
    requires Opened(p.aead, PayloadKey(p, fileKey, payload[..16]), payload[16..]).Ok?
    ensures payload[..16] == nonce
    ensures Sealed(p.aead, PayloadKey(p, fileKey, nonce), value) == Ok(payload[16..])
    ensures Opened(p.aead, PayloadKey(p, fileKey, nonce), payload[16..]) == Ok(value)
  {
    hide Correct, Opened, Sealed, BlockOpens, BlockIsSealed, ChunksOpen, PayloadKey;
    var got, rest := payload[..16], payload[16..];
    FirstBlockOpens(p.aead, PayloadKey(p, fileKey, got), rest);
    assert NoForgedBlockAt(p, fileKey, nonce, value, payload, 0);
    var key := PayloadKey(p, fileKey, nonce);
    CorrectChunksOpen(p.aead, key, value);
    forall i: nat | BlockOpens(p.aead, key, rest, i) ensures BlockIsSealed(p.aead, key, value, rest, i) {
      assert NoForgedBlockAt(p, fileKey, nonce, value, payload, i);
    }
    AcceptedPayloadIsSealed(p.aead, key, value, rest);
  }

  /** A file that opens through a given file key, with nothing forged, is the file made with it, to the byte but for the
      spare bits of the last MAC letter, and its value is the original one. */
  lemma AcceptedFileIsAuthentic(
    p: Primitives, id: Identity, file: bytes, fileKey: bytes, partial: bytes, nonce: bytes, value: bytes)
    requires Lawful(p) && Decrypted(p, id, file).Ok?
    requires FindKey(p, id, Parse(file).value.stanzas) == FileKey(fileKey)
    requires NothingForged(p, fileKey, partial, nonce, value, Parse(file).value)
    ensures Decrypted(p, id, file) == Ok(value)
    ensures var n := |partial|;
      && n + 45 <= |file| && file[..n] == partial && file[n] == SPACE && file[n + 44] == NL
      && var columns := file[n + 1..n + 44];
      && AllLetters(columns) && B64d(columns) == Some(MacOf(p)(fileKey, partial))
      && (columns == B64e(MacOf(p)(fileKey, partial)) <==> SpareBitsClear(columns))
      && Sealed(p.aead, PayloadKey(p, fileKey, nonce), value).Ok?
      && file[n + 45..] == nonce + Sealed(p.aead, PayloadKey(p, fileKey, nonce), value).value
  {
    assert MacSize(MacOf(p)) && Correct(p.aead, PayloadKey(p, fileKey, nonce));
    hide Lawful, FindKey, B64d, B64e, SpareBitsClear, AllLetters, ParseFrom, AreCarriable, PayloadKey, Opened, Sealed,
      Correct, NoForgedBlockAt;
    var parsed := Parse(file).value;
    ParsedIsSound(file, 0, Scan(true, false, []));
    ParsedMacSize(file);
    assert parsed.macInput == partial;
    assert |parsed.mac| == 32;
    var columns := file[|partial| + 1..|partial| + 44];
    LettersWhenSpareBitsClear(columns);
    PayloadIsAuthentic(p, fileKey, nonce, value, parsed.payload);
    assert parsed.payload == parsed.payload[..16] + parsed.payload[16..];
  }

  /** The file that encrypting makes is parsed into its parts. */
  lemma EncryptedParts(
    p: Primitives, t: Recipient, id: Identity, value: bytes, fileKey: bytes, random: bytes, nonce: bytes)
    requires Lawful(p) && IsPair(p, t, id) && |fileKey| == FILE_KEY_BYTES
    requires Encrypted(p, value, t, fileKey, random, nonce).Ok?
    ensures WrapKey(p, t, fileKey, random).Ok?
    ensures var s := WrapKey(p, t, fileKey, random).value;
      && IsAscii(Partial([s])) && Sealed(p.aead, PayloadKey(p, fileKey, nonce), value).Ok?
      && var (partial, sealed) := (AsBytes(Partial([s])), Sealed(p.aead, PayloadKey(p, fileKey, nonce), value).value);
      Parse(Encrypted(p, value, t, fileKey, random, nonce).value)
        == Ok(Parsed([s], MacOf(p)(fileKey, partial), partial, nonce + sealed))
  {
    assert MacSize(MacOf(p));
    OneStanzaFits(p, t, id, fileKey, random);
    hide Lawful, IsPair, WrapKey, AreCarriable, Parse, Sealed, Partial, MacSize, PayloadKey;
    var s := WrapKey(p, t, fileKey, random).value;
    var sealed := Sealed(p.aead, PayloadKey(p, fileKey, nonce), value).value;
    HeaderRoundTrip(MacOf(p), fileKey, [s], nonce + sealed);
    var header := BuildHeader(MacOf(p), fileKey, [s]).value;
    assert header + nonce + sealed == header + (nonce + sealed);
  }

  /** Every file that encrypting makes, under any lawful library, opens and has nothing forged in it: the hypotheses of
      the theorem above are met. */
  lemma HonestFileIsUnforged(
    p: Primitives, t: Recipient, id: Identity, value: bytes, fileKey: bytes, random: bytes, nonce: bytes)
    requires Lawful(p) && IsPair(p, t, id) && |fileKey| == FILE_KEY_BYTES && |nonce| == 16
    requires Encrypted(p, value, t, fileKey, random, nonce).Ok?
    ensures var file := Encrypted(p, value, t, fileKey, random, nonce).value;
      && Decrypted(p, id, file) == Ok(value)
      && FindKey(p, id, Parse(file).value.stanzas) == FileKey(fileKey)
      && NothingForged(p, fileKey, Parse(file).value.macInput, nonce, value, Parse(file).value)
  {
    EncryptThenDecrypt(p, t, id, value, fileKey, random, nonce);
    EncryptedParts(p, t, id, value, fileKey, random, nonce);
    UnwrapOfWrap(p, t, id, fileKey, random);
    KeyIsCorrect(p, PayloadKey(p, fileKey, nonce));
    hide *;
    var s := WrapKey(p, t, fileKey, random).value;
    FirstKeyWins(p, id, [], s, []);
    assert [] + [s] + [] == [s];
    SealedIsNotForged(p, fileKey, nonce, value, Parse(Encrypted(p, value, t, fileKey, random, nonce).value).value);
  }

  lemma KeyIsCorrect(p: Primitives, key: bytes)
    requires Lawful(p)
    ensures Correct(p.aead, key)
  {
    hide Correct;
  }

  lemma SealedIsNotForged(p: Primitives, fileKey: bytes, nonce: bytes, value: bytes, parsed: Parsed)
    requires |nonce| == 16 && Correct(p.aead, PayloadKey(p, fileKey, nonce))
    requires Sealed(p.aead, PayloadKey(p, fileKey, nonce), value).Ok?
    requires parsed.payload == nonce + Sealed(p.aead, PayloadKey(p, fileKey, nonce), value).value
    ensures NothingForged(p, fileKey, parsed.macInput, nonce, value, parsed)
  {
    hide Sealed, PayloadKey, Correct, BlockOpens, BlockIsSealed, ChunksOpen;
    var key := PayloadKey(p, fileKey, nonce);
    var sealed := Sealed(p.aead, key, value).value;
    SealedPayloadIsUnforged(p.aead, key, value, sealed);
    assert parsed.payload[..16] == nonce && parsed.payload[16..] == sealed;
  }
}
