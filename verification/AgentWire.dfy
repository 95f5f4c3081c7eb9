/** The client's agent protocol reader, and the identity listing it reads back. */
module AgentWire {
  import opened Wrappers
  import opened Bytes
  import opened Base64
  import opened Wire

  const IDENTITIES_ANSWER: byte := 12
  const SPACE: nat := 32

  /** The number at `offset`; None is the ValueError past the end. */
  function Uint32At(payload: bytes, offset: nat): Option<nat> {
    if offset + 4 > |payload| then None else Some(FromBytes(payload[offset..offset + 4]))
  }

  /** The string at `offset`. */
  function StringAt(payload: bytes, offset: nat): (r: Option<bytes>)
    ensures r.Some? ==> offset + 4 + |r.value| <= |payload|
  {
    match Uint32At(payload, offset)
    case None => None
    case Some(length) =>
      if offset + 4 + length > |payload| then None else Some(payload[offset + 4..offset + 4 + length])
  }

  /** Sequential reads over one message payload. */
  class Reader {
    const payload: bytes
    var offset: nat

    constructor (payload: bytes)
      ensures this.payload == payload && offset == 0
    {
      this.payload := payload;
      offset := 0;
    }

    method Uint32() returns (r: Option<nat>)
      modifies this
      ensures r == Uint32At(payload, old(offset))
      ensures offset == if r.Some? then old(offset) + 4 else old(offset)
    {
      if offset + 4 > |payload| {
        return None;
      }
      r := Some(FromBytes(payload[offset..offset + 4]));
      offset := offset + 4;
    }

    method String() returns (r: Option<bytes>)
      modifies this
      ensures r == StringAt(payload, old(offset))
      ensures r.Some? ==> offset == old(offset) + 4 + |r.value|
    {
      var length := Uint32();
      if length.None? {
        return None;
      }
      if offset + length.value > |payload| {
        return None;
      }
      r := Some(payload[offset..offset + length.value]);
      offset := offset + length.value;
    }
  }

  /** The agent's string reader and the crypto leaf's wire reader see the same string. */
  lemma StringAtIsTakeString(payload: bytes, offset: nat)
    requires offset <= |payload|
    ensures StringAt(payload, offset)
         == match TakeString(payload[offset..]) case None => None case Some((s, _)) => Some(s)
    ensures StringAt(payload, offset).Some? ==>
      TakeString(payload[offset..]).value.1 == payload[offset + 4 + |StringAt(payload, offset).value|..]
  {
    hide FromBytes;
    var rest := payload[offset..];
    if |rest| >= 4 {
      assert rest[..4] == payload[offset..offset + 4];
      var size := FromBytes(rest[..4]);
      if size <= |rest| - 4 {
        assert rest[4..4 + size] == payload[offset + 4..offset + 4 + size];
        assert rest[4 + size..] == payload[offset + 4 + size..];
      }
    }
  }

  /** `base64.b64encode(b).decode()`. */
  function PaddedB64(b: bytes): Text {
    B64e(b) + Padding(|B64e(b)|)
  }

  /** One listed identity as a public line: its embedded algorithm name, and its blob. */
  function PublicLine(decode: bytes -> Option<Text>, blob: bytes): Option<Text> {
    match StringAt(blob, 0)
    case None => None
    case Some(name) =>
      match decode(name)
      case None => None
      case Some(algo) => Some(algo + [SPACE] + PaddedB64(blob))
  }

  /** One listed identity: a blob and a comment. The line, and where the next identity starts. */
  function OneLine(decode: bytes -> Option<Text>, body: bytes, offset: nat): Option<(Text, nat)> {
    match StringAt(body, offset)
    case None => None
    case Some(blob) =>
      var next := offset + 4 + |blob|;
      match (StringAt(body, next), PublicLine(decode, blob))
      case (Some(comment), Some(line)) => Some((line, next + 4 + |comment|))
      case _ => None
  }

  /** The lines of the next `count` identities. */
  function LinesFrom(decode: bytes -> Option<Text>, body: bytes, offset: nat, count: nat): Option<seq<Text>>
    decreases count
  {
    if count == 0 then Some([])
    else
      match OneLine(decode, body, offset)
      case None => None
      case Some((line, next)) =>
        match LinesFrom(decode, body, next, count - 1)
        case None => None
        case Some(lines) => Some([line] + lines)
  }

  function Lines(decode: bytes -> Option<Text>, body: bytes): Option<seq<Text>> {
    match Uint32At(body, 1)
    case None => None
    case Some(count) => LinesFrom(decode, body, 5, count)
  }

  function PrependLines(out: seq<Text>, r: Option<seq<Text>>): Option<seq<Text>> {
    match r
    case None => None
    case Some(more) => Some(out + more)
  }

  /** The body of the listing loop. */
  method ReadLine(decode: bytes -> Option<Text>, reader: Reader) returns (r: Option<Text>)
    modifies reader
    ensures match OneLine(decode, reader.payload, old(reader.offset))
            case None => r == None
            case Some((line, next)) => r == Some(line) && reader.offset == next
  {
    hide StringAt, PaddedB64;
    var blob := reader.String();
    if blob.None? {
      return None;
    }
    var comment := reader.String();
    if comment.None? {
      return None;
    }
    var inner := new Reader(blob.value);
    var name := inner.String();
    if name.None? {
      return None;
    }
    var algo := decode(name.value);
    if algo.None? {
      return None;
    }
    r := Some(algo.value + [SPACE] + PaddedB64(blob.value));
  }

  /** `identity_lines`; `decode` is UTF-8 decoding, and every refusal is the module's ValueError. */
  method IdentityLines(decode: bytes -> Option<Text>, body: bytes) returns (r: Option<seq<Text>>)
    ensures r == Lines(decode, body)
  {
    hide OneLine;
    var reader := new Reader(body);
    reader.offset := 1;
    var count := reader.Uint32();
    if count.None? {
      return None;
    }
    var lines: seq<Text> := [];
    UnprependedLines(LinesFrom(decode, body, 5, count.value));
    for i := 0 to count.value
      invariant fresh(reader) && reader.payload == body
      invariant PrependLines(lines, LinesFrom(decode, body, reader.offset, count.value - i)) == Lines(decode, body)
    {
      ghost var offset := reader.offset;
      var line := ReadLine(decode, reader);
      if line.None? {
        return None;
      }
      NextLine(decode, body, offset, count.value - i, lines);
      lines := lines + [line.value];
    }
    assert lines + [] == lines;
    r := Some(lines);
  }

  lemma UnprependedLines(r: Option<seq<Text>>)
    ensures PrependLines([], r) == r
  {
    assert r.Some? ==> [] + r.value == r.value;
  }

  lemma NextLine(decode: bytes -> Option<Text>, body: bytes, offset: nat, count: nat, out: seq<Text>)
    requires count > 0 && OneLine(decode, body, offset).Some?
    ensures var (line, next) := OneLine(decode, body, offset).value;
      PrependLines(out, LinesFrom(decode, body, offset, count))
        == PrependLines(out + [line], LinesFrom(decode, body, next, count - 1))
  {
    hide OneLine;
    var (line, next) := OneLine(decode, body, offset).value;
    var r := LinesFrom(decode, body, next, count - 1);
    if r.Some? {
      assert out + ([line] + r.value) == out + [line] + r.value;
    }
  }

  /** `AgentServer.identities`: the one served identity with its comment. */
  function Identities(blob: bytes, comment: bytes): Option<bytes> {
    match (WireString(blob), WireString(comment))
    case (Some(b), Some(c)) => Some([IDENTITIES_ANSWER] + BigEndian(1, 4) + (b + c))
    case _ => None
  }

  /** Some identities with their comments, one after the other. */
  function Listed(entries: seq<(bytes, bytes)>): bytes {
    if entries == [] then []
    else
      var (blob, comment) := entries[0];
      BigEndian(|blob|, 4) + blob + (BigEndian(|comment|, 4) + comment + Listed(entries[1..]))
  }

  /** An answer that lists them. */
  function Listing(entries: seq<(bytes, bytes)>): bytes {
    [IDENTITIES_ANSWER] + BigEndian(|entries|, 4) + Listed(entries)
  }

  /** The public lines of some identities, in order, if all have one. */
  function PublicLines(decode: bytes -> Option<Text>, entries: seq<(bytes, bytes)>): Option<seq<Text>> {
    if entries == [] then Some([])
    else
      match (PublicLine(decode, entries[0].0), PublicLines(decode, entries[1..]))
      case (Some(line), Some(lines)) => Some([line] + lines)
      case _ => None
  }

  lemma OneEntry(decode: bytes -> Option<Text>, body: bytes, offset: nat, blob: bytes, comment: bytes, more: bytes)
    requires Fits(blob) && Fits(comment) && offset <= |body|
    requires body[offset..] == BigEndian(|blob|, 4) + blob + (BigEndian(|comment|, 4) + comment + more)
    ensures var next := offset + 8 + |blob| + |comment|;
      && next <= |body| && body[next..] == more
      && OneLine(decode, body, offset)
        == match PublicLine(decode, blob) case None => None case Some(line) => Some((line, next))
  {
    hide PublicLine, BigEndian, FromBytes, StringAt, TakeString, Fits;
    var second := BigEndian(|comment|, 4) + comment + more;
    TakeWritten(blob, second);
    StringAtIsTakeString(body, offset);
    var next := offset + 4 + |blob|;
    assert body[next..] == second by {
      assert body[next..] == body[offset..][4 + |blob|..];
    }
    TakeWritten(comment, more);
    StringAtIsTakeString(body, next);
  }

  lemma {:induction false} EntriesReadBack(
    decode: bytes -> Option<Text>, body: bytes, offset: nat, entries: seq<(bytes, bytes)>)
    requires forall e :: e in entries ==> Fits(e.0) && Fits(e.1)
    requires offset <= |body| && body[offset..] == Listed(entries)
    ensures LinesFrom(decode, body, offset, |entries|) == PublicLines(decode, entries)
    decreases |entries|
  {
    hide OneLine, PublicLine, BigEndian, Fits;
    if entries != [] {
      var (blob, comment) := entries[0];
      assert entries[0] in entries && forall e :: e in entries[1..] ==> e in entries;
      OneEntry(decode, body, offset, blob, comment, Listed(entries[1..]));
      EntriesReadBack(decode, body, offset + 8 + |blob| + |comment|, entries[1..]);
    }
  }

  /** A listing of any number of identities reads back as their public lines in order, whatever the comments; one
      identity without a line makes the whole listing an error. */
  lemma ListingsReadBack(decode: bytes -> Option<Text>, entries: seq<(bytes, bytes)>)
    requires |entries| < Pow256(4) && forall e :: e in entries ==> Fits(e.0) && Fits(e.1)
    ensures Lines(decode, Listing(entries)) == PublicLines(decode, entries)
  {
    hide Listed, LinesFrom, PublicLines, BigEndian, Pow256, FromBytes, Fits;
    var body := Listing(entries);
    FromToBytes(|entries|, 4);
    assert body[1..5] == BigEndian(|entries|, 4) && body[5..] == Listed(entries);
    EntriesReadBack(decode, body, 5, entries);
  }

  /** The listing of a served identity is message 12 and reads back as its one public line, whatever the comment. */
  lemma ListingReadsBack(decode: bytes -> Option<Text>, blob: bytes, comment: bytes)
    requires Identities(blob, comment).Some?
    ensures Identities(blob, comment).value != [] && Identities(blob, comment).value[0] == 12
    ensures Lines(decode, Identities(blob, comment).value)
         == match PublicLine(decode, blob) case None => None case Some(line) => Some([line])
  {
    hide PublicLine, BigEndian, Pow256, Lines;
    OneFits();
    var entries := [(blob, comment)];
    assert Listed(entries) == WireString(blob).value + WireString(comment).value by {
      NothingListed(decode);
      assert entries[1..] == [];
    }
    ListingsReadBack(decode, entries);
    OnePublicLine(decode, blob, comment);
  }

  lemma NothingListed(decode: bytes -> Option<Text>)
    ensures Listed([]) == [] && PublicLines(decode, []) == Some([])
  {
  }

  lemma OnePublicLine(decode: bytes -> Option<Text>, blob: bytes, comment: bytes)
    ensures PublicLines(decode, [(blob, comment)])
         == match PublicLine(decode, blob) case None => None case Some(line) => Some([line])
  {
    hide PublicLine;
    var entries := [(blob, comment)];
    assert entries[1..] == [];
    NothingListed(decode);
    if PublicLine(decode, blob).Some? {
      assert [PublicLine(decode, blob).value] + [] == [PublicLine(decode, blob).value];
    }
  }

  lemma OneFits()
    ensures 1 < Pow256(4)
  {
    assert Pow256(2) == 65536;
  }
}
