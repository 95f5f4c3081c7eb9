/** A file written window by window, holes and all. */
module SparseFiles {
  import opened Bytes

  /** The export/import window: 1 MiB. */
  const WINDOW := 1048576

  /** What a file holds, and the positions of the windows written to it. */
  datatype Image = Image(data: bytes, extents: seq<nat>)

  const EMPTY_FILE := Image([], [])

  function Zeros(n: nat): bytes {
    seq(n, _ => 0)
  }

  predicate AllZero(window: bytes) {
    forall i :: 0 <= i < |window| ==> window[i] == 0
  }

  /** `pwrite`: a gap before the position reads as zeros. */
  function Written(data: bytes, window: bytes, position: nat): bytes {
    if window == [] then data
    else
      var base := if |data| < position then data + Zeros(position - |data|) else data;
      base[..position] + window + Slice(base, position + |window|, |base| + position + |window|)
  }

  /** `ftruncate`: a longer file reads as zeros past its old end. */
  function Resized(data: bytes, size: nat): (r: bytes)
    ensures |r| == size
  {
    if size <= |data| then data[..size] else data + Zeros(size - |data|)
  }

  class File {
    var image: Image

    constructor ()
      ensures image == EMPTY_FILE
    {
      image := EMPTY_FILE;
    }

    /** `os.pwrite`. */
    method Pwrite(window: bytes, position: nat)
      modifies this
      ensures image == Image(Written(old(image.data), window, position), old(image.extents) + [position])
    {
      image := Image(Written(image.data, window, position), image.extents + [position]);
    }

    /** `os.ftruncate`. */
    method Truncate(size: nat)
      modifies this
      ensures image == old(image).(data := Resized(old(image.data), size))
    {
      image := image.(data := Resized(image.data, size));
    }

    /** `handle.read` from the start. */
    method Read(size: nat) returns (head: bytes)
      ensures head == Slice(image.data, 0, size)
    {
      head := Slice(image.data, 0, size);
    }
  }

  /** The positions of the windows of `b` that hold a byte other than zero. */
  function DataWindows(b: bytes): seq<nat> {
    if b == [] then []
    else
      var n := (|b| - 1) / WINDOW * WINDOW;
      LastWindowStart(|b|);
      DataWindows(b[..n]) + if AllZero(b[n..]) then [] else [n]
  }

  lemma LastWindowStart(size: nat)
    requires size > 0
    ensures 0 <= (size - 1) / WINDOW * WINDOW < size
  {
  }

  /** The data windows are the aligned positions whose window is not all zero. */
  lemma {:induction false} DataWindowsHoldData(b: bytes, p: nat)
    ensures p in DataWindows(b) <==> p % 0x10_0000 == 0 && p < |b| && !AllZero(Slice(b, p, p + 0x10_0000))
    decreases |b|
  {
    hide AllZero;
    if b != [] {
      var k := (|b| - 1) / WINDOW;
      var n := k * WINDOW;
      LastWindowStart(|b|);
      DataWindowsHoldData(b[..n], p);
      if p % WINDOW == 0 && p < n {
        AlignedFits(p, k);
        assert Slice(b[..n], p, p + WINDOW) == Slice(b, p, p + WINDOW);
      } else if p % WINDOW == 0 && p < |b| {
        AlignedIsLast(p, |b|);
        assert Slice(b, p, p + WINDOW) == b[n..];
      }
    }
  }

  lemma AlignedFits(p: nat, k: nat)
    requires p % WINDOW == 0 && p < k * WINDOW
    ensures p + WINDOW <= k * WINDOW
  {
    var j := p / WINDOW;
    assert p == j * WINDOW;
  }

  lemma AlignedIsLast(p: nat, size: nat)
    requires p % WINDOW == 0 && (size - 1) / WINDOW * WINDOW <= p < size
    ensures p == (size - 1) / WINDOW * WINDOW && p + WINDOW >= size
  {
    var j := p / WINDOW;
    assert p == j * WINDOW;
  }

  /** A file that, resized to the stream position, reads as the stream so far, with only its data windows written. */
  ghost predicate Mirrors(image: Image, b: bytes) {
    && |image.data| <= |b|
    && Resized(image.data, |b|) == b
    && image.extents == DataWindows(b)
  }

  lemma NextDataWindow(b: bytes, window: bytes)
    requires |b| % WINDOW == 0 && 0 < |window| <= WINDOW
    ensures DataWindows(b + window) == DataWindows(b) + if AllZero(window) then [] else [|b|]
  {
    var k := |b| / WINDOW;
    assert (k * WINDOW + |window| - 1) / WINDOW == k;
    assert (b + window)[..|b|] == b && (b + window)[|b|..] == window;
  }

  lemma HoleMirrors(image: Image, b: bytes, window: bytes)
    requires Mirrors(image, b)
    requires |b| % WINDOW == 0 && 0 < |window| <= WINDOW && AllZero(window)
    ensures Mirrors(image, b + window)
  {
    NextDataWindow(b, window);
    hide DataWindows;
    var r := Resized(image.data, |b + window|);
    forall i | 0 <= i < |r| ensures r[i] == (b + window)[i] {
      if i < |b| {
        assert Resized(image.data, |b|)[i] == b[i];
      }
    }
  }

  lemma DataMirrors(image: Image, b: bytes, window: bytes)
    requires Mirrors(image, b)
    requires |b| % WINDOW == 0 && 0 < |window| <= WINDOW && !AllZero(window)
    ensures Mirrors(Image(Written(image.data, window, |b|), image.extents + [|b|]), b + window)
  {
    NextDataWindow(b, window);
    hide DataWindows, AllZero;
    var base := if |image.data| < |b| then image.data + Zeros(|b| - |image.data|) else image.data;
    assert base == Resized(image.data, |b|);
    assert |base| == |b| && base[..|b|] == b;
    assert Written(image.data, window, |b|) == b + window;
  }

  /** One window at its stream position: zeros leave a hole. */
  method SettleWindow(file: File, window: bytes, position: nat)
    modifies file
    ensures file.image == if AllZero(window) then old(file.image)
      else Image(Written(old(file.image.data), window, position), old(file.image.extents) + [position])
    ensures position % WINDOW == 0 && 0 < |window| <= WINDOW ==>
      forall b :: |b| == position && Mirrors(old(file.image), b) ==> Mirrors(file.image, b + window)
  {
    ghost var before := file.image;
    if !AllZero(window) {
      file.Pwrite(window, position);
    }
    forall b | |b| == position && position % WINDOW == 0 && 0 < |window| <= WINDOW && Mirrors(before, b)
      ensures Mirrors(file.image, b + window)
    {
      if AllZero(window) {
        HoleMirrors(before, b, window);
      } else {
        DataMirrors(before, b, window);
      }
    }
  }

  /** The fallback copy onto a fresh scratch file: the same bytes, in their data windows only. */
  method WindowedCopy(source: bytes, scratch: File)
    requires scratch.image == EMPTY_FILE
    modifies scratch
    ensures scratch.image == Image(source, DataWindows(source))
  {
    hide Mirrors, DataWindows;
    var offset := 0;
    NothingMirrored();
    assert source[..0] == [];
    while offset < |source|
      invariant 0 <= offset <= |source|
      invariant offset % WINDOW == 0 || offset == |source|
      invariant Mirrors(scratch.image, source[..offset])
    {
      var window := Slice(source, offset, offset + WINDOW);
      SettleWindow(scratch, window, offset);
      assert source[..offset + |window|] == source[..offset] + window;
      offset := offset + |window|;
    }
    assert source[..offset] == source;
    Finished(scratch.image, source);
    scratch.Truncate(offset);
  }

  lemma NothingMirrored()
    ensures Mirrors(EMPTY_FILE, [])
  {
  }

  lemma Finished(image: Image, b: bytes)
    requires Mirrors(image, b)
    ensures image.(data := Resized(image.data, |b|)) == Image(b, DataWindows(b))
  {
  }
}
