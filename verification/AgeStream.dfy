/** The age payload: 64 KiB chunks sealed under a counter nonce whose last byte marks the final chunk. */
module AgeStream {
  import opened Wrappers
  import opened Bytes

  const CHUNK_BYTES: nat := 65536
  const TAG_BYTES: nat := 16

  /** ChaCha20-Poly1305 with no associated data: `(key, nonce, text)`; `open` is None when the tag fails. */
  datatype Aead = Aead(seal: (bytes, bytes, bytes) -> bytes, open: (bytes, bytes, bytes) -> Option<bytes>)

  datatype StreamError = NoFinalChunk | AuthenticationFailed | CounterOverflow

  /** Eleven counter bytes and the final flag; None is the counter's OverflowError. */
  function Nonce(counter: nat, final: bool): Option<bytes> {
    match ToBytes(counter, 11)
    case None => None
    case Some(b) => Some(b + [if final then 1 else 0])
  }

  // ---- what the two loops compute ----

  /** The first chunk of what is left, and whether it is the last. */
  function Head(rest: bytes, size: nat): (bytes, bool) {
    if |rest| <= size then (rest, true) else (rest[..size], false)
  }

  lemma SliceIsHead(s: bytes, pos: nat, size: nat)
    requires pos <= |s|
    ensures Head(s[pos..], size) == (Slice(s, pos, pos + size), pos + size >= |s|)
  {
    if pos + size < |s| {
      assert s[pos..][..size] == s[pos..pos + size];
    } else if pos + size == |s| {
      assert s[pos..] == s[pos..pos + size];
    }
  }

  /** The chunks of `rest` sealed from the given counter on. */
  function SealFrom(aead: Aead, key: bytes, rest: bytes, counter: nat): Result<bytes, StreamError>
    decreases |rest|
  {
    var (block, final) := Head(rest, CHUNK_BYTES);
    match Nonce(counter, final)
    case None => Err(CounterOverflow)
    case Some(nonce) =>
      var sealed := aead.seal(key, nonce, block);
      if final then Ok(sealed)
      else
        match SealFrom(aead, key, rest[CHUNK_BYTES..], counter + 1)
        case Err(e) => Err(e)
        case Ok(more) => Ok(sealed + more)
  }

  function OpenFrom(aead: Aead, key: bytes, rest: bytes, counter: nat): Result<bytes, StreamError>
    decreases |rest|
  {
    var (block, final) := Head(rest, CHUNK_BYTES + TAG_BYTES);
    match Nonce(counter, final)
    case None => Err(CounterOverflow)
    case Some(nonce) =>
      match aead.open(key, nonce, block)
      case None => Err(AuthenticationFailed)
      case Some(plain) =>
        if final then Ok(plain)
        else
          match OpenFrom(aead, key, rest[CHUNK_BYTES + TAG_BYTES..], counter + 1)
          case Err(e) => Err(e)
          case Ok(more) => Ok(plain + more)
  }

  function Sealed(aead: Aead, key: bytes, plaintext: bytes): Result<bytes, StreamError> {
    SealFrom(aead, key, plaintext, 0)
  }

  function Opened(aead: Aead, key: bytes, payload: bytes): Result<bytes, StreamError> {
    if payload == [] then Err(NoFinalChunk) else OpenFrom(aead, key, payload, 0)
  }

  function Prepend(out: bytes, r: Result<bytes, StreamError>): Result<bytes, StreamError> {
    match r
    case Err(e) => Err(e)
    case Ok(more) => Ok(out + more)
  }

  /** `stream_encrypt`. */
  method StreamEncrypt(aead: Aead, key: bytes, plaintext: bytes) returns (r: Result<bytes, StreamError>)
    ensures r == Sealed(aead, key, plaintext)
  {
    var out: bytes := [];
    var pos, counter := 0, 0;
    Unprepended(SealFrom(aead, key, plaintext, 0));
    assert plaintext[0..] == plaintext;
    while true
      invariant 0 <= pos <= |plaintext|
      invariant Prepend(out, SealFrom(aead, key, plaintext[pos..], counter)) == Sealed(aead, key, plaintext)
      decreases |plaintext| - pos
    {
      ghost var rest := plaintext[pos..];
      var block := Slice(plaintext, pos, pos + CHUNK_BYTES);
      pos := pos + CHUNK_BYTES;
      var final := pos >= |plaintext|;
      SliceIsHead(plaintext, pos - CHUNK_BYTES, CHUNK_BYTES);
      var nonce := Nonce(counter, final);
      if nonce.None? {
        return Err(CounterOverflow);
      }
      if !final {
        NextSeal(aead, key, rest, counter, out);
        assert rest[CHUNK_BYTES..] == plaintext[pos..];
      }
      out := out + aead.seal(key, nonce.value, block);
      if final {
        return Ok(out);
      }
      counter := counter + 1;
    }
  }

  lemma Unprepended(r: Result<bytes, StreamError>)
    ensures Prepend([], r) == r
  {
    assert r.Ok? ==> [] + r.value == r.value;
  }

  lemma NextSeal(aead: Aead, key: bytes, rest: bytes, counter: nat, out: bytes)
    requires |rest| > CHUNK_BYTES && Nonce(counter, false).Some?
    ensures Prepend(out, SealFrom(aead, key, rest, counter))
      == Prepend(out + aead.seal(key, Nonce(counter, false).value, rest[..CHUNK_BYTES]),
                 SealFrom(aead, key, rest[CHUNK_BYTES..], counter + 1))
  {
    var sealed := aead.seal(key, Nonce(counter, false).value, rest[..CHUNK_BYTES]);
    var r := SealFrom(aead, key, rest[CHUNK_BYTES..], counter + 1);
    if r.Ok? {
      assert out + (sealed + r.value) == (out + sealed) + r.value;
    }
  }

  /** `stream_decrypt`. */
  method StreamDecrypt(aead: Aead, key: bytes, payload: bytes) returns (r: Result<bytes, StreamError>)
    ensures r == Opened(aead, key, payload)
  {
    if payload == [] {
      return Err(NoFinalChunk);
    }
    var out: bytes := [];
    var pos, counter := 0, 0;
    Unprepended(OpenFrom(aead, key, payload, 0));
    assert payload[0..] == payload;
    while pos < |payload|
      invariant 0 <= pos && (pos >= |payload| ==> Opened(aead, key, payload) == Ok(out))
      invariant pos < |payload| ==>
        Prepend(out, OpenFrom(aead, key, payload[pos..], counter)) == Opened(aead, key, payload)
      decreases |payload| - pos
    {
      ghost var rest := payload[pos..];
      var block := Slice(payload, pos, pos + (CHUNK_BYTES + TAG_BYTES));
      pos := pos + (CHUNK_BYTES + TAG_BYTES);
      var final := pos >= |payload|;
      SliceIsHead(payload, pos - (CHUNK_BYTES + TAG_BYTES), CHUNK_BYTES + TAG_BYTES);
      var nonce := Nonce(counter, final);
      if nonce.None? {
        return Err(CounterOverflow);
      }
      var plain := aead.open(key, nonce.value, block);
      if plain.None? {
        return Err(AuthenticationFailed);
      }
      if !final {
        NextOpen(aead, key, rest, counter, out);
        assert rest[CHUNK_BYTES + TAG_BYTES..] == payload[pos..];
      }
      out := out + plain.value;
      counter := counter + 1;
    }
    r := Ok(out);
  }

  lemma NextOpen(aead: Aead, key: bytes, rest: bytes, counter: nat, out: bytes)
    requires |rest| > CHUNK_BYTES + TAG_BYTES && Nonce(counter, false).Some?
    requires aead.open(key, Nonce(counter, false).value, rest[..CHUNK_BYTES + TAG_BYTES]).Some?
    ensures Prepend(out, OpenFrom(aead, key, rest, counter))
      == Prepend(out + aead.open(key, Nonce(counter, false).value, rest[..CHUNK_BYTES + TAG_BYTES]).value,
                 OpenFrom(aead, key, rest[CHUNK_BYTES + TAG_BYTES..], counter + 1))
  {
    var plain := aead.open(key, Nonce(counter, false).value, rest[..CHUNK_BYTES + TAG_BYTES]).value;
    var r := OpenFrom(aead, key, rest[CHUNK_BYTES + TAG_BYTES..], counter + 1);
    if r.Ok? {
      assert out + (plain + r.value) == (out + plain) + r.value;
    }
  }

  // ---- chunks and nonces ----

  /** How many chunks a message makes: an empty one still makes its one final chunk. */
  function Chunks(size: nat): (n: nat)
    ensures n >= 1
  {
    if size <= CHUNK_BYTES then 1 else 1 + Chunks(size - CHUNK_BYTES)
  }

  /** A non-empty message of `n` chunks lies between `n - 1` and `n` times the chunk size. */
  lemma {:induction false} ChunksIsCeiling(size: nat)
    ensures size > 0 ==> CHUNK_BYTES * (Chunks(size) - 1) < size <= CHUNK_BYTES * Chunks(size)
    ensures size == 0 ==> Chunks(size) == 1
  {
    if size > CHUNK_BYTES {
      ChunksIsCeiling(size - CHUNK_BYTES);
    }
  }

  /** The counter has eleven bytes. */
  const COUNTERS: nat := Pow256(11)

  lemma CountersValue()
    ensures COUNTERS == 0x100_0000_0000_0000_0000_0000
  {
    assert Pow256(3) == 0x100_0000;
    assert Pow256(5) == 0x100_0000_0000;
    assert Pow256(7) == 0x100_0000_0000_0000;
    assert Pow256(9) == 0x100_0000_0000_0000_0000;
  }

  /** A nonce determines its counter and its flag. */
  lemma NonceInjective(i: nat, f: bool, j: nat, g: bool)
    requires Nonce(i, f).Some? && Nonce(i, f) == Nonce(j, g)
    ensures i == j && f == g
  {
    var a, b := BigEndian(i, 11), BigEndian(j, 11);
    var n := Nonce(i, f).value;
    assert a == n[..11] == b && n[11] == (if f then 1 else 0) == (if g then 1 else 0);
    FromToBytes(i, 11);
    FromToBytes(j, 11);
  }

  /** Sealing fails only when the counter runs out, and then the message had more than 2^88 chunks. */
  lemma {:induction false} SealFromSucceeds(aead: Aead, key: bytes, rest: bytes, counter: nat)
    ensures SealFrom(aead, key, rest, counter).Ok? <==> counter + Chunks(|rest|) <= COUNTERS
    ensures SealFrom(aead, key, rest, counter).Err? ==> SealFrom(aead, key, rest, counter).error == CounterOverflow
    decreases |rest|
  {
    hide Pow256;
    if |rest| > CHUNK_BYTES {
      SealFromSucceeds(aead, key, rest[CHUNK_BYTES..], counter + 1);
    }
  }

  // ---- opening what was sealed ----

  /** The construction opens what it sealed, and a sealed text carries one tag. */
  ghost predicate Correct(aead: Aead, key: bytes) {
    forall n, m :: aead.open(key, n, aead.seal(key, n, m)) == Some(m) && |aead.seal(key, n, m)| == |m| + TAG_BYTES
  }

  lemma {:induction false} SealedLength(aead: Aead, key: bytes, rest: bytes, counter: nat)
    requires Correct(aead, key) && SealFrom(aead, key, rest, counter).Ok?
    ensures |SealFrom(aead, key, rest, counter).value| == |rest| + TAG_BYTES * Chunks(|rest|)
    decreases |rest|
  {
    var (block, final) := Head(rest, CHUNK_BYTES);
    var nonce := Nonce(counter, final).value;
    assert |aead.seal(key, nonce, block)| == |block| + TAG_BYTES;
    if !final {
      SealedLength(aead, key, rest[CHUNK_BYTES..], counter + 1);
    }
  }

  lemma {:induction false} OpenSealed(aead: Aead, key: bytes, rest: bytes, counter: nat)
    requires Correct(aead, key) && SealFrom(aead, key, rest, counter).Ok?
    ensures OpenFrom(aead, key, SealFrom(aead, key, rest, counter).value, counter) == Ok(rest)
    decreases |rest|
  {
    var (block, final) := Head(rest, CHUNK_BYTES);
    var nonce := Nonce(counter, final).value;
    var sealed := aead.seal(key, nonce, block);
    assert aead.open(key, nonce, sealed) == Some(block) && |sealed| == |block| + TAG_BYTES;
    if !final {
      var tail := rest[CHUNK_BYTES..];
      var more := SealFrom(aead, key, tail, counter + 1).value;
      OpenSealed(aead, key, tail, counter + 1);
      SealedLength(aead, key, tail, counter + 1);
      assert (sealed + more)[..CHUNK_BYTES + TAG_BYTES] == sealed;
      assert (sealed + more)[CHUNK_BYTES + TAG_BYTES..] == more;
      assert rest == block + tail;
    }
  }

  /** Round trip: every message that can be sealed is opened again, the empty one and whole chunks included. */
  lemma StreamRoundTrip(aead: Aead, key: bytes, plaintext: bytes)
    requires Correct(aead, key) && Chunks(|plaintext|) <= COUNTERS
    ensures Sealed(aead, key, plaintext).Ok?
    ensures Opened(aead, key, Sealed(aead, key, plaintext).value) == Ok(plaintext)
    ensures |Sealed(aead, key, plaintext).value| == |plaintext| + TAG_BYTES * Chunks(|plaintext|)
  {
    SealFromSucceeds(aead, key, plaintext, 0);
    OpenSealed(aead, key, plaintext, 0);
    SealedLength(aead, key, plaintext, 0);
  }

  // ---- nothing else opens ----

  /** The `i`-th chunk of a message, and the nonce it is sealed under. */
  function Block(m: bytes, i: nat): bytes {
    Slice(m, CHUNK_BYTES * i, CHUNK_BYTES * (i + 1))
  }

  function NonceAt(m: bytes, i: nat): Option<bytes> {
    Nonce(i, i == Chunks(|m|) - 1)
  }

  /** `(n, c)` is what sealing the `i`-th chunk of `m` put on the wire. */
  ghost predicate IsSealedChunk(aead: Aead, key: bytes, m: bytes, i: nat, n: bytes, c: bytes) {
    i < Chunks(|m|) && NonceAt(m, i) == Some(n) && c == aead.seal(key, n, Block(m, i))
  }

  /** The `i`-th chunk opens again, and carries one tag. */
  ghost predicate ChunkOpens(aead: Aead, key: bytes, m: bytes, i: nat) {
    match NonceAt(m, i)
    case None => true
    case Some(n) =>
      var c := aead.seal(key, n, Block(m, i));
      aead.open(key, n, c) == Some(Block(m, i)) && |c| == |Block(m, i)| + TAG_BYTES
  }

  /** Every chunk of `m` opens again. */
  ghost predicate ChunksOpen(aead: Aead, key: bytes, m: bytes) {
    forall i :: 0 <= i < Chunks(|m|) ==> ChunkOpens(aead, key, m, i)
  }

  const SEALED_BYTES: nat := CHUNK_BYTES + TAG_BYTES

  /** The `i`-th block of a payload, and the nonce the decryptor tries it under. */
  function PresentedBlock(payload: bytes, i: nat): bytes {
    Slice(payload, SEALED_BYTES * i, SEALED_BYTES * (i + 1))
  }

  function PresentedNonce(payload: bytes, i: nat): Option<bytes> {
    Nonce(i, SEALED_BYTES * (i + 1) >= |payload|)
  }

  /** The `i`-th block of a payload opens under its own nonce. */
  ghost predicate BlockOpens(aead: Aead, key: bytes, payload: bytes, i: nat) {
    && SEALED_BYTES * i < |payload| && PresentedNonce(payload, i).Some?
    && aead.open(key, PresentedNonce(payload, i).value, PresentedBlock(payload, i)).Some?
  }

  /** The `i`-th block of a payload, with its nonce, is one that sealing `m` put on the wire. */
  ghost predicate BlockIsSealed(aead: Aead, key: bytes, m: bytes, payload: bytes, i: nat) {
    PresentedNonce(payload, i).Some?
    && exists j: nat :: IsSealedChunk(aead, key, m, j, PresentedNonce(payload, i).value, PresentedBlock(payload, i))
  }

  /** No block of the payload is forged: each that opens is one of the chunks sealed of `m`. */
  ghost predicate NoForgedBlock(aead: Aead, key: bytes, m: bytes, payload: bytes) {
    forall i: nat :: BlockOpens(aead, key, payload, i) ==> BlockIsSealed(aead, key, m, payload, i)
  }

  /** The ideal AEAD whose key sealed the one message `m`: exactly that message's chunks open. It opens less than a
      correct one, which opens all it could seal; of those speaks `NoForgedBlock`. */
  ghost predicate SealedOnly(aead: Aead, key: bytes, m: bytes) {
    && (forall i :: 0 <= i < Chunks(|m|) ==> ChunkOpens(aead, key, m, i))
    && (forall n, c :: aead.open(key, n, c).Some? ==> exists i :: 0 <= i && IsSealedChunk(aead, key, m, i, n, c))
  }

  /** Such an AEAD exists for every message: tag each chunk with zeros and keep a log. */
  lemma SealedOnlyIsPossible(key: bytes, m: bytes) returns (aead: Aead)
    ensures SealedOnly(aead, key, m)
  {
    var zeros: bytes := seq(TAG_BYTES, _ => 0);
    var seal := (k: bytes, n: bytes, p: bytes) => zeros + p;
    var open := (k: bytes, n: bytes, c: bytes) =>
      if exists i :: 0 <= i < Chunks(|m|) && NonceAt(m, i) == Some(n) && c == zeros + Block(m, i)
      then Some(c[TAG_BYTES..]) else None;
    aead := Aead(seal, open);
    forall i | 0 <= i < Chunks(|m|) ensures ChunkOpens(aead, key, m, i) {
      if NonceAt(m, i).Some? {
        assert (zeros + Block(m, i))[TAG_BYTES..] == Block(m, i);
      }
    }
    forall n, c | aead.open(key, n, c).Some? ensures exists i :: 0 <= i && IsSealedChunk(aead, key, m, i, n, c) {
      var i :| 0 <= i < Chunks(|m|) && NonceAt(m, i) == Some(n) && c == zeros + Block(m, i);
      assert IsSealedChunk(aead, key, m, i, n, c);
    }
  }

  /** The nonces of one message are pairwise distinct, and only the last carries the final flag. */
  lemma NoncesAreDistinct(m: bytes, i: nat, j: nat)
    requires i < j < Chunks(|m|) && NonceAt(m, i).Some? && NonceAt(m, j).Some?
    ensures NonceAt(m, i) != NonceAt(m, j)
    ensures NonceAt(m, i).value[11] == 0 && (NonceAt(m, j).value[11] == 1 <==> j == Chunks(|m|) - 1)
  {
    if NonceAt(m, i) == NonceAt(m, j) {
      NonceInjective(i, i == Chunks(|m|) - 1, j, j == Chunks(|m|) - 1);
    }
  }

  lemma {:induction false} ChunksFrom(size: nat, i: nat)
    requires i < Chunks(size)
    ensures CHUNK_BYTES * i <= size && Chunks(size - CHUNK_BYTES * i) == Chunks(size) - i
  {
    if i > 0 {
      ChunksFrom(size - CHUNK_BYTES, i - 1);
    }
  }

  /** What is left of `m` at its `i`-th chunk starts with that chunk, which is final exactly when it is the last. */
  lemma HeadOfRest(m: bytes, i: nat)
    requires i < Chunks(|m|)
    ensures CHUNK_BYTES * i <= |m|
    ensures Head(m[CHUNK_BYTES * i..], CHUNK_BYTES) == (Block(m, i), i == Chunks(|m|) - 1)
    ensures i < Chunks(|m|) - 1 ==> |Block(m, i)| == CHUNK_BYTES && CHUNK_BYTES * (i + 1) <= |m|
  {
    ChunksFrom(|m|, i);
    SliceIsHead(m, CHUNK_BYTES * i, CHUNK_BYTES);
  }

  lemma BlockOfRest(payload: bytes, i: nat)
    requires SEALED_BYTES * i < |payload|
    ensures Head(payload[SEALED_BYTES * i..], SEALED_BYTES)
         == (PresentedBlock(payload, i), SEALED_BYTES * (i + 1) >= |payload|)
  {
    SliceIsHead(payload, SEALED_BYTES * i, SEALED_BYTES);
  }

  /** An unforged block that opens as the `i`-th is the `i`-th chunk, with its own flag. */
  lemma OpensOnlyItsChunk(aead: Aead, key: bytes, m: bytes, payload: bytes, i: nat)
    requires ChunksOpen(aead, key, m) && NoForgedBlock(aead, key, m, payload) && BlockOpens(aead, key, payload, i)
    ensures i < Chunks(|m|) && PresentedNonce(payload, i) == NonceAt(m, i)
    ensures SEALED_BYTES * (i + 1) >= |payload| <==> i == Chunks(|m|) - 1
    ensures var n := PresentedNonce(payload, i).value;
      && PresentedBlock(payload, i) == aead.seal(key, n, Block(m, i))
      && aead.open(key, n, PresentedBlock(payload, i)) == Some(Block(m, i))
  {
    hide Nonce, Chunks, Block, PresentedBlock;
    assert BlockIsSealed(aead, key, m, payload, i);
    var n, c := PresentedNonce(payload, i).value, PresentedBlock(payload, i);
    var j: nat :| IsSealedChunk(aead, key, m, j, n, c);
    NonceInjective(i, SEALED_BYTES * (i + 1) >= |payload|, j, j == Chunks(|m|) - 1);
    assert ChunkOpens(aead, key, m, i);
  }

  /** An unforged payload that is accepted from block `i` on is what sealing produced from chunk `i` on. */
  lemma {:induction false} AcceptedIsSealed(aead: Aead, key: bytes, m: bytes, payload: bytes, i: nat)
    requires ChunksOpen(aead, key, m) && NoForgedBlock(aead, key, m, payload)
    requires SEALED_BYTES * i < |payload| && OpenFrom(aead, key, payload[SEALED_BYTES * i..], i).Ok?
    ensures i < Chunks(|m|) && CHUNK_BYTES * i <= |m|
    ensures SealFrom(aead, key, m[CHUNK_BYTES * i..], i) == Ok(payload[SEALED_BYTES * i..])
    ensures OpenFrom(aead, key, payload[SEALED_BYTES * i..], i) == Ok(m[CHUNK_BYTES * i..])
    decreases |payload| - SEALED_BYTES * i
  {
    hide NoForgedBlock, ChunksOpen, Nonce, Chunks, Block, PresentedBlock;
    var rest := payload[SEALED_BYTES * i..];
    BlockOfRest(payload, i);
    assert BlockOpens(aead, key, payload, i);
    OpensOnlyItsChunk(aead, key, m, payload, i);
    HeadOfRest(m, i);
    if SEALED_BYTES * (i + 1) < |payload| {
      assert rest[SEALED_BYTES..] == payload[SEALED_BYTES * (i + 1)..];
      AcceptedIsSealed(aead, key, m, payload, i + 1);
      var left := m[CHUNK_BYTES * i..];
      assert left[CHUNK_BYTES..] == m[CHUNK_BYTES * (i + 1)..];
      assert rest == PresentedBlock(payload, i) + rest[SEALED_BYTES..];
      assert left == Block(m, i) + left[CHUNK_BYTES..];
    }
  }

  lemma {:induction false} SealedIsAccepted(aead: Aead, key: bytes, m: bytes, i: nat)
    requires ChunksOpen(aead, key, m) && i < Chunks(|m|) && CHUNK_BYTES * i <= |m|
    requires SealFrom(aead, key, m[CHUNK_BYTES * i..], i).Ok?
    ensures |SealFrom(aead, key, m[CHUNK_BYTES * i..], i).value| >= TAG_BYTES
    ensures OpenFrom(aead, key, SealFrom(aead, key, m[CHUNK_BYTES * i..], i).value, i).Ok?
    decreases Chunks(|m|) - i
  {
    hide Nonce, Chunks, Block;
    HeadOfRest(m, i);
    assert ChunkOpens(aead, key, m, i);
    var rest := m[CHUNK_BYTES * i..];
    var c := aead.seal(key, NonceAt(m, i).value, Block(m, i));
    if i < Chunks(|m|) - 1 {
      assert rest[CHUNK_BYTES..] == m[CHUNK_BYTES * (i + 1)..];
      SealedIsAccepted(aead, key, m, i + 1);
      var more := SealFrom(aead, key, rest[CHUNK_BYTES..], i + 1).value;
      assert (c + more)[..CHUNK_BYTES + TAG_BYTES] == c;
      assert (c + more)[CHUNK_BYTES + TAG_BYTES..] == more;
    }
  }

  /** A payload without a forged block is accepted exactly if it is the sealed one, to the byte, and then gives the
      message: truncated, extended, reordered or cut at a chunk boundary it ends in an error. */
  lemma AcceptedPayloadIsSealed(aead: Aead, key: bytes, m: bytes, payload: bytes)
    requires ChunksOpen(aead, key, m) && NoForgedBlock(aead, key, m, payload)
    ensures Opened(aead, key, payload).Ok? <==> Sealed(aead, key, m) == Ok(payload)
    ensures Opened(aead, key, payload).Ok? ==> Opened(aead, key, payload) == Ok(m)
  {
    hide NoForgedBlock, ChunksOpen;
    assert m[CHUNK_BYTES * 0..] == m && payload[SEALED_BYTES * 0..] == payload;
    if Opened(aead, key, payload).Ok? {
      AcceptedIsSealed(aead, key, m, payload, 0);
    }
    if Sealed(aead, key, m).Ok? {
      SealedIsAccepted(aead, key, m, 0);
    }
  }

  lemma FirstBlockOpens(aead: Aead, key: bytes, payload: bytes)
    requires Opened(aead, key, payload).Ok?
    ensures BlockOpens(aead, key, payload, 0)
  {
    hide Nonce;
    BlockOfRest(payload, 0);
    assert payload[SEALED_BYTES * 0..] == payload;
  }

  /** Under an ideal key that sealed one message the same holds of every payload. */
  lemma OnlyTheSealedPayloadOpens(aead: Aead, key: bytes, m: bytes, payload: bytes)
    requires SealedOnly(aead, key, m)
    ensures Opened(aead, key, payload).Ok? <==> Sealed(aead, key, m) == Ok(payload)
    ensures Opened(aead, key, payload).Ok? ==> Opened(aead, key, payload) == Ok(m)
  {
    hide PresentedBlock, Opened, Sealed, ChunkOpens, IsSealedChunk;
    AcceptedPayloadIsSealed(aead, key, m, payload);
  }

  // ---- honest payloads ----

  lemma CorrectChunksOpen(aead: Aead, key: bytes, m: bytes)
    requires Correct(aead, key)
    ensures ChunksOpen(aead, key, m)
  {
    hide Block, Chunks, Nonce;
  }

  /** The sealed payload from block `i` on is sealed from chunk `i` on. */
  lemma {:induction false} SealedTail(aead: Aead, key: bytes, m: bytes, payload: bytes, i: nat)
    requires Correct(aead, key) && Sealed(aead, key, m) == Ok(payload) && i < Chunks(|m|)
    ensures CHUNK_BYTES * i <= |m| && SEALED_BYTES * i <= |payload|
    ensures SealFrom(aead, key, m[CHUNK_BYTES * i..], i) == Ok(payload[SEALED_BYTES * i..])
  {
    hide Chunks, Nonce, Correct, SealFrom;
    if i == 0 {
      assert m[CHUNK_BYTES * 0..] == m && payload[SEALED_BYTES * 0..] == payload;
    } else {
      SealedTail(aead, key, m, payload, i - 1);
      HeadOfRest(m, i - 1);
      var left, rest := m[CHUNK_BYTES * (i - 1)..], payload[SEALED_BYTES * (i - 1)..];
      AfterChunk(aead, key, left, rest, i - 1);
      assert left[CHUNK_BYTES..] == m[CHUNK_BYTES * i..];
      assert rest[SEALED_BYTES..] == payload[SEALED_BYTES * i..];
    }
  }

  lemma AfterChunk(aead: Aead, key: bytes, left: bytes, rest: bytes, counter: nat)
    requires Correct(aead, key) && |left| > CHUNK_BYTES && SealFrom(aead, key, left, counter) == Ok(rest)
    ensures |rest| >= SEALED_BYTES && SealFrom(aead, key, left[CHUNK_BYTES..], counter + 1) == Ok(rest[SEALED_BYTES..])
  {
    hide Nonce, Correct;
    var n := Nonce(counter, false).value;
    var c := aead.seal(key, n, left[..CHUNK_BYTES]);
    SealSize(aead, key, n, left[..CHUNK_BYTES]);
    var more := SealFrom(aead, key, left[CHUNK_BYTES..], counter + 1).value;
    assert rest == c + more && (c + more)[SEALED_BYTES..] == more;
  }

  lemma SealSize(aead: Aead, key: bytes, n: bytes, m: bytes)
    requires Correct(aead, key)
    ensures |aead.seal(key, n, m)| == |m| + TAG_BYTES
  {
  }

  /** A sealed tail starts with its own chunk, which is final on both sides alike. */
  lemma SealedHead(aead: Aead, key: bytes, left: bytes, counter: nat)
    requires Correct(aead, key) && SealFrom(aead, key, left, counter).Ok?
    ensures var (block, final) := Head(left, CHUNK_BYTES);
      && Nonce(counter, final).Some?
      && Head(SealFrom(aead, key, left, counter).value, SEALED_BYTES)
        == (aead.seal(key, Nonce(counter, final).value, block), final)
  {
    hide Nonce, Correct;
    var (block, final) := Head(left, CHUNK_BYTES);
    var c := aead.seal(key, Nonce(counter, final).value, block);
    SealSize(aead, key, Nonce(counter, final).value, block);
    if !final {
      var more := SealFrom(aead, key, left[CHUNK_BYTES..], counter + 1).value;
      TailSize(aead, key, left[CHUNK_BYTES..], counter + 1);
      assert (c + more)[..SEALED_BYTES] == c;
    }
  }

  lemma HonestBlock(aead: Aead, key: bytes, m: bytes, payload: bytes, i: nat)
    requires Correct(aead, key) && Sealed(aead, key, m) == Ok(payload) && i < Chunks(|m|)
    requires SEALED_BYTES * i < |payload|
    ensures BlockIsSealed(aead, key, m, payload, i)
  {
    hide *;
    SealedTail(aead, key, m, payload, i);
    HeadOfRest(m, i);
    BlockOfRest(payload, i);
    SealedHead(aead, key, m[CHUNK_BYTES * i..], i);
    SealedHere(aead, key, m, payload, i);
  }

  lemma SealedHere(aead: Aead, key: bytes, m: bytes, payload: bytes, i: nat)
    requires i < Chunks(|m|) && (SEALED_BYTES * (i + 1) >= |payload| <==> i == Chunks(|m|) - 1)
    requires Nonce(i, i == Chunks(|m|) - 1).Some?
    requires PresentedBlock(payload, i) == aead.seal(key, Nonce(i, i == Chunks(|m|) - 1).value, Block(m, i))
    ensures BlockIsSealed(aead, key, m, payload, i)
  {
    hide Nonce, Chunks, Block, PresentedBlock;
    assert IsSealedChunk(aead, key, m, i, NonceAt(m, i).value, PresentedBlock(payload, i));
  }

  lemma TailSize(aead: Aead, key: bytes, rest: bytes, counter: nat)
    requires Correct(aead, key) && SealFrom(aead, key, rest, counter).Ok?
    ensures |SealFrom(aead, key, rest, counter).value| > 0
  {
    SealedLength(aead, key, rest, counter);
  }

  /** The sealed payload of any correct AEAD meets the hypothesis: it carries no forged block. */
  lemma SealedPayloadIsUnforged(aead: Aead, key: bytes, m: bytes, payload: bytes)
    requires Correct(aead, key) && Sealed(aead, key, m) == Ok(payload)
    ensures ChunksOpen(aead, key, m) && NoForgedBlock(aead, key, m, payload)
  {
    CorrectChunksOpen(aead, key, m);
    SealedLength(aead, key, m, 0);
    ChunksIsCeiling(|m|);
    hide Correct, Chunks, BlockIsSealed, ChunksOpen;
    forall i: nat | BlockOpens(aead, key, payload, i) ensures BlockIsSealed(aead, key, m, payload, i) {
      NoBlockPastTheEnd(|m|, |payload|, Chunks(|m|), i);
      HonestBlock(aead, key, m, payload, i);
    }
  }

  lemma NoBlockPastTheEnd(size: nat, sealed: nat, chunks: nat, i: nat)
    requires size <= CHUNK_BYTES * chunks && sealed == size + TAG_BYTES * chunks && SEALED_BYTES * i < sealed
    ensures i < chunks
  {
  }
}
