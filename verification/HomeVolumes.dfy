/** Home-volume upload and artifact cloning: what a streamed body leaves on disk, whatever its chunks. */
module HomeVolumes {
  import opened Wrappers
  import opened Bytes
  import opened SparseFiles

  const EXT4_MAGIC_OFFSET := 1080
  const EXT4_MAGIC: bytes := [0x53, 0xef]

  datatype Refusal = NotExt4 | EmptyBody | Interrupted

  datatype CloneRefusal = TargetExists | SourceMissing

  predicate HasMagic(head: bytes) {
    Slice(head, EXT4_MAGIC_OFFSET, EXT4_MAGIC_OFFSET + 2) == EXT4_MAGIC
  }

  /** The bytes some chunks add up to. */
  ghost function Body(chunks: seq<bytes>): bytes {
    if chunks == [] then [] else Body(chunks[..|chunks| - 1]) + chunks[|chunks| - 1]
  }

  lemma NoBody()
    ensures Body([]) == []
  {
  }

  lemma NextBody(chunks: seq<bytes>, i: nat)
    requires i < |chunks|
    ensures Body(chunks[..i + 1]) == Body(chunks[..i]) + chunks[i]
  {
    assert chunks[..i + 1][..i] == chunks[..i];
  }

  lemma {:induction false} BodyGrows(chunks: seq<bytes>, i: nat)
    requires i <= |chunks|
    ensures |Body(chunks[..i])| <= |Body(chunks)| && Body(chunks)[..|Body(chunks[..i])|] == Body(chunks[..i])
  {
    var n := |chunks| - 1;
    if i > n {
      assert chunks[..i] == chunks;
    } else {
      BodyGrows(chunks[..n], i);
      assert chunks[..n][..i] == chunks[..i];
      assert Body(chunks)[..|Body(chunks[..i])|] == Body(chunks[..n])[..|Body(chunks[..i])|];
    }
  }

  ghost predicate ReachesMagic(b: bytes) {
    |b| > EXT4_MAGIC_OFFSET + 1
  }

  ghost predicate CarriesMagic(b: bytes) {
    ReachesMagic(b) && b[EXT4_MAGIC_OFFSET..EXT4_MAGIC_OFFSET + 2] == EXT4_MAGIC
  }

  lemma HeadDecides(b: bytes)
    requires ReachesMagic(b)
    ensures HasMagic(Slice(b, 0, EXT4_MAGIC_OFFSET + 2)) <==> CarriesMagic(b)
  {
    assert b[..EXT4_MAGIC_OFFSET + 2][EXT4_MAGIC_OFFSET..] == b[EXT4_MAGIC_OFFSET..EXT4_MAGIC_OFFSET + 2];
  }

  lemma MagicStays(b: bytes, b': bytes)
    requires |b| <= |b'| && b'[..|b|] == b && ReachesMagic(b)
    ensures ReachesMagic(b') && (CarriesMagic(b) <==> CarriesMagic(b'))
  {
    assert b'[..|b|][EXT4_MAGIC_OFFSET..EXT4_MAGIC_OFFSET + 2] == b'[EXT4_MAGIC_OFFSET..EXT4_MAGIC_OFFSET + 2];
  }

  /** What an upload of `b` answers, said of the body alone. */
  ghost function Verdict(b: bytes, complete: bool): Result<nat, Refusal> {
    if ReachesMagic(b) && !CarriesMagic(b) then Err(NotExt4)
    else if !complete then Err(Interrupted)
    else if b == [] then Err(EmptyBody)
    else if !ReachesMagic(b) then Err(NotExt4)
    else Ok(|b|)
  }

  /** The bytes received but not yet settled. */
  class Pending {
    var data: bytes

    constructor ()
      ensures data == []
    {
      data := [];
    }
  }

  /** The uploaded body so far: a settled part mirrored in the scratch file, and the pending rest. */
  ghost predicate Received(file: File, pending: Pending, total: nat, b: bytes)
    reads file, pending
  {
    && total <= |b|
    && total % WINDOW == 0
    && b[total..] == pending.data
    && Mirrors(file.image, b[..total])
  }

  /** Settle every full window; what is left pending is less than one. */
  method DrainWindows(file: File, pending: Pending, position: nat, ghost b: bytes) returns (total: nat)
    requires Received(file, pending, position, b)
    modifies file, pending
    ensures Received(file, pending, total, b)
    ensures |pending.data| < WINDOW
    ensures |old(pending.data)| < WINDOW ==> total == position && pending.data == old(pending.data)
  {
    hide Mirrors;
    total := position;
    while |pending.data| >= WINDOW
      invariant Received(file, pending, total, b)
      invariant |old(pending.data)| < WINDOW ==> total == position && pending.data == old(pending.data)
      decreases |pending.data|
    {
      var window := pending.data[..WINDOW];
      pending.data := pending.data[WINDOW..];
      SettleWindow(file, window, total);
      assert b[..total] + window == b[..total + |window|];
      total := total + |window|;
    }
  }

  /** The backstop, on a scratch file that mirrors the body received: an empty body and one without the magic are
      refused, and no other. */
  method ValidateExt4(scratch: File, total: nat, ghost b: bytes) returns (refusal: Option<Refusal>)
    requires Mirrors(scratch.image, b) && total == |b|
    ensures refusal == if b == [] then Some(EmptyBody) else if CarriesMagic(b) then None else Some(NotExt4)
  {
    if total == 0 {
      return Some(EmptyBody);
    }
    var head := scratch.Read(EXT4_MAGIC_OFFSET + 2);
    MirroredMagic(scratch.image, b);
    refusal := if HasMagic(head) then None else Some(NotExt4);
  }

  /** A file that mirrors a body has its magic in place exactly if the body does: a hole there reads as zeros, which the
      magic is not. */
  lemma MirroredMagic(image: Image, b: bytes)
    requires Mirrors(image, b)
    ensures HasMagic(Slice(image.data, 0, EXT4_MAGIC_OFFSET + 2)) <==> CarriesMagic(b)
  {
    hide DataWindows;
    var data := image.data;
    var r := Resized(data, |b|);
    if ReachesMagic(data) {
      HeadDecides(data);
      assert data[EXT4_MAGIC_OFFSET..EXT4_MAGIC_OFFSET + 2] == b[EXT4_MAGIC_OFFSET..EXT4_MAGIC_OFFSET + 2] by {
        assert r[..|data|] == data;
      }
    } else {
      ShortHeadHasNoMagic(Slice(data, 0, EXT4_MAGIC_OFFSET + 2));
      if ReachesMagic(b) {
        assert r[EXT4_MAGIC_OFFSET + 1] == 0;
        assert b[EXT4_MAGIC_OFFSET..EXT4_MAGIC_OFFSET + 2][1] == b[EXT4_MAGIC_OFFSET + 1];
      }
    }
  }

  lemma ShortHeadHasNoMagic(head: bytes)
    requires |head| <= EXT4_MAGIC_OFFSET + 1
    ensures !HasMagic(head)
  {
    assert |Slice(head, EXT4_MAGIC_OFFSET, EXT4_MAGIC_OFFSET + 2)| <= 1;
  }

  /** The tail: settle the partial window, refuse a body the prefix check never saw, pin the size. */
  method FinishVolume(file: File, pending: Pending, position: nat, checked: bool, ghost b: bytes)
    returns (r: Result<nat, Refusal>)
    requires Received(file, pending, position, b) && |pending.data| < WINDOW
    requires checked <==> ReachesMagic(b)
    requires checked ==> CarriesMagic(b)
    modifies file
    ensures r == Verdict(b, true)
    ensures r.Ok? ==> file.image == Image(b, DataWindows(b))
  {
    hide DataWindows;
    var total := position;
    assert b[..total] + pending.data == b;
    if pending.data != [] {
      SettleWindow(file, pending.data, total);
      total := total + |pending.data|;
    }
    assert b[..total] == b;
    if !checked {
      var refusal := ValidateExt4(file, total, b);
      if refusal.Some? {
        return Err(refusal.value);
      }
    }
    Finished(file.image, b);
    file.Truncate(total);
    r := Ok(total);
  }

  /** The artifact files by path. */
  class Artifacts {
    var files: map<string, Image>

    /** An upload installs exactly its body, in its data windows, and answers its length, if and only if the body is
        whole and carries the magic; else the old volume stands. The chunks the body came in make no difference. */
    method ImportHomeVolume(home: string, chunks: seq<bytes>, complete: bool) returns (r: Result<nat, Refusal>)
      modifies this
      ensures var b := Body(chunks);
        && r == Verdict(b, complete)
        && files == if r.Ok? then old(files)[home := Image(b, DataWindows(b))] else old(files)
    {
      hide Mirrors, DataWindows, CarriesMagic, HasMagic, Body;
      NoBody();
      var scratch := new File();
      var pending := new Pending();
      var total: nat := 0;
      var checked := false;
      NothingMirrored();
      for i := 0 to |chunks|
        invariant Received(scratch, pending, total, Body(chunks[..i])) && |pending.data| < WINDOW
        invariant fresh(scratch) && fresh(pending)
        invariant checked <==> ReachesMagic(Body(chunks[..i]))
        invariant checked ==> CarriesMagic(Body(chunks[..i]))
        invariant !checked ==> total == 0
        invariant files == old(files)
      {
        ghost var b, b' := Body(chunks[..i]), Body(chunks[..i + 1]);
        NextBody(chunks, i);
        pending.data := pending.data + chunks[i];
        assert b'[total..] == pending.data && b'[..total] == b[..total];
        if checked {
          MagicStays(b, b');
        } else if |pending.data| > EXT4_MAGIC_OFFSET + 1 {
          assert pending.data == b';
          HeadDecides(b');
          if !HasMagic(Slice(pending.data, 0, EXT4_MAGIC_OFFSET + 2)) {
            BodyGrows(chunks, i + 1);
            MagicStays(b', Body(chunks));
            return Err(NotExt4);
          }
          checked := true;
        }
        total := DrainWindows(scratch, pending, total, b');
      }
      assert chunks[..|chunks|] == chunks;
      ghost var b := Body(chunks);
      assert Received(scratch, pending, total, b);
      if !complete {
        return Err(Interrupted);
      }
      r := FinishVolume(scratch, pending, total, checked, b);
      if r.Ok? {
        files := files[home := scratch.image];
      }
    }

    /** A clone lands with the source's bytes, whether or not the filesystem can share blocks; it adopts no leftover and
        invents no source, and touches nothing else. */
    method CloneFile(source: string, target: string, reflinks: bool) returns (refusal: Option<CloneRefusal>)
      modifies this
      ensures refusal == if target in old(files) then Some(TargetExists)
        else if source !in old(files) then Some(SourceMissing) else None
      ensures refusal.Some? ==> files == old(files)
      ensures refusal.None? ==>
        && target in files && files - {target} == old(files)
        && files[target].data == old(files)[source].data
        && (!reflinks ==> files[target].extents == DataWindows(old(files)[source].data))
    {
      hide DataWindows;
      if target in files {
        return Some(TargetExists);
      }
      if source !in files {
        return Some(SourceMissing);
      }
      var scratch := new File();
      if reflinks {
        scratch.image := files[source];
      } else {
        WindowedCopy(files[source].data, scratch);
      }
      files := files[target := scratch.image];
      refusal := None;
    }
  }

  /** Exactly the whole bodies with the magic in place are installed. */
  lemma InstalledBodies(b: bytes, complete: bool)
    ensures Verdict(b, complete) == Ok(|b|)
       <==> complete && |b| >= 1082 && b[1080] == 0x53 && b[1081] == 0xef
  {
    if |b| >= 1082 {
      assert b[1080..1082] == [b[1080], b[1081]];
    }
  }
}
