/** What a file looks like on disk, spelled out as version 1 of the age format lays it down. */
module AgeFormat {
  import opened Wrappers
  import opened Bytes
  import opened Base64
  import opened AgeHeader
  import opened AgeStream
  import opened AgeFile

  /** The bytes of some ASCII text. */
  function Ascii(s: string): (b: bytes)
    ensures |b| == |s| && forall i :: 0 <= i < |s| ==> b[i] == s[i] as int % 256
  {
    seq(|s|, i requires 0 <= i < |s| => s[i] as int % 256)
  }

  lemma HeaderNames()
    ensures V1_HEADER == Ascii("age-encryption.org/v1") && ARROW == Ascii("-> ") && DASHES == Ascii("---")
    ensures [NL] == Ascii("\n") && [SPACE] == Ascii(" ")
  {
  }

  lemma SshNames()
    ensures ED25519_KIND == Ascii("ssh-ed25519") && RSA_KIND == Ascii("ssh-rsa")
    ensures HEADER_INFO == Ascii("header") && PAYLOAD_INFO == Ascii("payload")
  {
  }

  lemma Labels()
    ensures ED25519_LABEL == Ascii("age-encryption.org/v1/ssh-ed25519")
    ensures RSA_LABEL == Ascii("age-encryption.org/v1/ssh-rsa")
  {
    HeaderNames();
    Endings();
    assert "age-encryption.org/v1/ssh-ed25519" == "age-encryption.org/v1" + "/ssh-ed25519";
    assert "age-encryption.org/v1/ssh-rsa" == "age-encryption.org/v1" + "/ssh-rsa";
    hide Ascii;
    AsciiConcat("age-encryption.org/v1", "/ssh-ed25519");
    AsciiConcat("age-encryption.org/v1", "/ssh-rsa");
  }

  lemma Endings()
    ensures ED25519_LABEL == V1_HEADER + Ascii("/ssh-ed25519") && RSA_LABEL == V1_HEADER + Ascii("/ssh-rsa")
  {
    assert Ascii("/ssh-ed25519") == [47, 115, 115, 104, 45, 101, 100, 50, 53, 53, 49, 57];
    assert Ascii("/ssh-rsa") == [47, 115, 115, 104, 45, 114, 115, 97];
  }

  lemma AsciiConcat(a: string, b: string)
    ensures Ascii(a + b) == Ascii(a) + Ascii(b)
  {
  }

  /** A file key wrapped for an ed25519 key: the shared point, multiplied by the tweak that the key's blob derives, goes
      through HKDF with the share and the key's own point as salt, and what comes out seals under a zero nonce. */
  lemma Ed25519StanzaIs(p: Primitives, t: Recipient, fileKey: bytes, ephemeral: bytes)
    requires t.Ed25519Recipient? && WrapKey(p, t, fileKey, ephemeral).Ok?
    ensures var s := WrapKey(p, t, fileKey, ephemeral).value;
      var info := Ascii("age-encryption.org/v1/ssh-ed25519");
      var share, exchange := p.x25519(ephemeral, [9] + Zeros(31)), p.x25519(ephemeral, t.montgomery);
      && share.Some? && exchange.Some?
      && s.kind == Ascii("ssh-ed25519") && s.args == [t.fp, B64e(share.value)]
      && var shared := p.x25519(p.hkdf([], Some(t.blob), info), exchange.value);
      && shared.Some?
      && s.body == p.aead.seal(p.hkdf(shared.value, Some(share.value + t.montgomery), info), Zeros(12), fileKey)
  {
    SshNames();
    Labels();
    assert BASE_POINT == [9] + Zeros(31) && ZERO_NONCE == Zeros(12);
  }

  function Zeros(n: nat): bytes {
    seq(n, _ => 0)
  }

  lemma RsaStanzaIs(p: Primitives, t: Recipient, fileKey: bytes, random: bytes)
    requires t.RsaRecipient?
    ensures WrapKey(p, t, fileKey, random) == Ok(Stanza(
      Ascii("ssh-rsa"), [t.fp], p.oaepSeal(t.rsaPub, fileKey, Ascii("age-encryption.org/v1/ssh-rsa"), random)))
  {
    SshNames();
    Labels();
  }

  /** The hint of a key: the first four bytes of the hash of its blob, in six letters. */
  lemma FingerprintIs(p: Primitives, blob: bytes)
    requires |p.sha256(blob)| == 32
    ensures |Fingerprint(p, blob)| == 6 && B64d(Fingerprint(p, blob)) == Some(p.sha256(blob)[..4])
  {
    B64RoundTrip(p.sha256(blob)[..4]);
    B64eLength(p.sha256(blob)[..4]);
    hide B64e, B64d;
    assert Slice(p.sha256(blob), 0, 4) == p.sha256(blob)[..4];
  }

  /** A whole file: the version line, the stanza's line, its body folded at 64 columns, the mark, the MAC over
      everything through the mark, the payload nonce, and the payload sealed under the key that nonce derives. */
  lemma FileIs(p: Primitives, value: bytes, t: Recipient, fileKey: bytes, random: bytes, nonce: bytes)
    requires Encrypted(p, value, t, fileKey, random, nonce).Ok?
    ensures WrapKey(p, t, fileKey, random).Ok?
    ensures var s := WrapKey(p, t, fileKey, random).value;
      var covered := Ascii("age-encryption.org/v1\n-> ") + JoinWords([s.kind] + s.args) + Ascii("\n")
                     + Terminated(Folded(B64e(s.body))) + Ascii("---");
      && IsAscii(covered)
      && var mac := p.hmac(p.hkdf(fileKey, None, Ascii("header")), AsBytes(covered));
      var sealed := Sealed(p.aead, p.hkdf(fileKey, Some(nonce), Ascii("payload")), value);
      && sealed.Ok?
      && Encrypted(p, value, t, fileKey, random, nonce).value
        == covered + Ascii(" ") + B64e(mac) + Ascii("\n") + nonce + sealed.value
  {
    HeaderNames();
    SshNames();
    hide WrapKey, B64e, Folded, Sealed, JoinWords, IsAscii;
    var s := WrapKey(p, t, fileKey, random).value;
    PartialOfOne(s);
  }

  lemma PartialOfOne(s: Stanza)
    ensures Partial([s]) == Ascii("age-encryption.org/v1\n-> ") + JoinWords([s.kind] + s.args) + Ascii("\n")
      + Terminated(Folded(B64e(s.body))) + Ascii("---")
  {
    HeaderNames();
    assert Ascii("age-encryption.org/v1\n-> ") == Ascii("age-encryption.org/v1") + Ascii("\n") + Ascii("-> ");
    hide B64e, Folded, JoinWords, Ascii;
    var line, folded := ARROW + JoinWords([s.kind] + s.args), Folded(B64e(s.body));
    assert AllLines([s]) == [line] + folded by {
      assert [s][1..] == [];
    }
    TerminatedConcat([V1_HEADER], [line] + folded);
    TerminatedConcat([line], folded);
    assert Terminated([V1_HEADER]) == V1_HEADER + [NL];
    assert Terminated([line]) == line + [NL];
  }

  /** A sealed payload, chunk by chunk: the `i`-th 64 KiB of the message under the nonce of `i` in eleven bytes and the
      final flag. */
  lemma SealedChunkIs(aead: Aead, key: bytes, plaintext: bytes, i: nat)
    requires Correct(aead, key) && Sealed(aead, key, plaintext).Ok? && i < Chunks(|plaintext|)
    ensures Slice(Sealed(aead, key, plaintext).value, 65552 * i, 65552 * i + 65552)
      == aead.seal(key, BigEndian(i, 11) + [if 65536 * (i + 1) >= |plaintext| then 1 else 0],
                   Slice(plaintext, 65536 * i, 65536 * i + 65536))
  {
    ChunkFrom(aead, key, plaintext, 0, i);
    ChunksIsCeiling(|plaintext|);
    hide Sealed, SealFrom, BigEndian, Slice;
  }

  /** The `i`-th chunk of what `rest` is sealed to, from a counter on. */
  ghost predicate IsChunk(aead: Aead, key: bytes, rest: bytes, all: bytes, counter: nat, i: nat, final: bool) {
    Slice(all, 65552 * i, 65552 * i + 65552)
      == aead.seal(key, BigEndian(counter + i, 11) + [if final then 1 else 0],
                   Slice(rest, 65536 * i, 65536 * i + 65536))
  }

  lemma {:induction false} ChunkFrom(aead: Aead, key: bytes, rest: bytes, counter: nat, i: nat)
    requires Correct(aead, key) && SealFrom(aead, key, rest, counter).Ok? && i < Chunks(|rest|)
    ensures IsChunk(aead, key, rest, SealFrom(aead, key, rest, counter).value, counter, i, i == Chunks(|rest|) - 1)
    decreases i
  {
    hide *;
    FirstChunk(aead, key, rest, counter);
    if i > 0 {
      ChunkFrom(aead, key, rest[65536..], counter + 1, i - 1);
      NextChunk(aead, key, rest, SealFrom(aead, key, rest, counter).value, counter, i, i == Chunks(|rest|) - 1);
    }
  }

  lemma NextChunk(aead: Aead, key: bytes, rest: bytes, all: bytes, counter: nat, i: nat, final: bool)
    requires i > 0 && |rest| >= 65536 && |all| >= 65552
    requires IsChunk(aead, key, rest[65536..], all[65552..], counter + 1, i - 1, final)
    ensures IsChunk(aead, key, rest, all, counter, i, final)
  {
    SliceOfRest(all, 65552, 65552 * i, 65552);
    SliceOfRest(rest, 65536, 65536 * i, 65536);
    hide Slice, BigEndian;
    assert counter + 1 + (i - 1) == counter + i;
  }

  lemma FirstChunk(aead: Aead, key: bytes, rest: bytes, counter: nat)
    requires Correct(aead, key) && SealFrom(aead, key, rest, counter).Ok?
    ensures var all, n := SealFrom(aead, key, rest, counter).value, Chunks(|rest|);
      && IsChunk(aead, key, rest, all, counter, 0, n == 1)
      && (n == 1 <==> |rest| <= 65536)
      && (n > 1 ==>
        && |all| >= 65552
        && SealFrom(aead, key, rest[65536..], counter + 1) == Ok(all[65552..])
        && Chunks(|rest| - 65536) == n - 1)
  {
    hide BigEndian, Pow256;
    var (block, final) := Head(rest, 65536);
    var nonce := Nonce(counter, final).value;
    var sealed := aead.seal(key, nonce, block);
    assert |sealed| == |block| + 16;
    if final {
      assert sealed[0..] == sealed && rest[0..] == rest;
      assert Slice(sealed, 0, 65552) == sealed && Slice(rest, 0, 65536) == rest;
    } else {
      var more := SealFrom(aead, key, rest[65536..], counter + 1).value;
      var all := SealFrom(aead, key, rest, counter).value;
      assert all == sealed + more;
      assert |all| >= 65552 && all[..65552] == sealed && all[65552..] == more;
      assert Slice(all, 0, 65552) == sealed;
      assert Slice(rest, 0, 65536) == block;
    }
  }

  lemma SliceOfRest(all: bytes, head: nat, lo: nat, size: nat)
    requires head <= |all| && head <= lo
    ensures Slice(all, lo, lo + size) == Slice(all[head..], lo - head, lo - head + size)
  {
    var rest := all[head..];
    if lo + size <= |all| {
      assert all[lo..lo + size] == rest[lo - head..lo - head + size];
    } else if lo <= |all| {
      assert all[lo..] == rest[lo - head..];
    }
  }

  // ---- what decrypting answers ----

  ghost predicate IsMiss(p: Primitives, id: Identity, s: Stanza) {
    IsOther(id, s) || DoesNotOpen(p, id, s)
  }

  lemma {:induction false} FirstDecides(p: Primitives, id: Identity, stanzas: seq<Stanza>, i: nat)
    requires i < |stanzas| && forall j :: 0 <= j < i ==> IsMiss(p, id, stanzas[j])
    requires !IsMiss(p, id, stanzas[i])
    ensures FindKey(p, id, stanzas) == Unwrap(p, id, stanzas[i])
  {
    hide Unwrap, IsOther, DoesNotOpen;
    MissExactly(p, id, stanzas[0]);
    if i > 0 {
      assert IsMiss(p, id, stanzas[0]);
      assert stanzas[1..][i - 1] == stanzas[i];
      assert forall j :: 0 <= j < i - 1 ==> stanzas[1..][j] == stanzas[j + 1];
      FirstDecides(p, id, stanzas[1..], i - 1);
    }
  }

  /** The first stanza that is not passed over decides: its error is the answer, or its key opens the file, whose MAC is
      compared before the payload is looked at, and whose payload must carry its nonce. */
  lemma DecryptedIs(p: Primitives, id: Identity, file: bytes, i: nat)
    requires Parse(file).Ok? && i < |Parse(file).value.stanzas|
    requires forall j :: 0 <= j < i ==> IsMiss(p, id, Parse(file).value.stanzas[j])
    requires !IsMiss(p, id, Parse(file).value.stanzas[i])
    ensures var parsed, r := Parse(file).value, Decrypted(p, id, file);
      match Unwrap(p, id, parsed.stanzas[i])
      case NotForThisKey => false
      case Fatal(e) => r == Err(e)
      case FileKey(key) =>
        var mac := p.hmac(p.hkdf(key, None, Ascii("header")), parsed.macInput);
        && (mac != parsed.mac ==> r == Err(MacMismatch))
        && (mac == parsed.mac && |parsed.payload| < 16 ==> r == Err(NoPayloadNonce))
        && (mac == parsed.mac && |parsed.payload| >= 16 ==>
          var payloadKey := p.hkdf(key, Some(parsed.payload[..16]), Ascii("payload"));
          match Opened(p.aead, payloadKey, parsed.payload[16..])
          case Ok(value) => r == Ok(value)
          case Err(e) => r == Err(Stream(e)))
  {
    SshNames();
    FirstDecides(p, id, Parse(file).value.stanzas, i);
    MissExactly(p, id, Parse(file).value.stanzas[i]);
    hide Parse, Unwrap, FindKey, IsOther, DoesNotOpen, Opened, Ascii;
  }
}
