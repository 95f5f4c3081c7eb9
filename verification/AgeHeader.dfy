/** The age v1 textual header: its writer, and the sequential parser over arbitrary bytes. */
module AgeHeader {
  import opened Wrappers
  import opened Bytes
  import opened Base64

  const NL: byte := 10
  const SPACE: byte := 32

  /** "age-encryption.org/v1" */
  const V1_HEADER: bytes :=
    [97, 103, 101, 45, 101, 110, 99, 114, 121, 112, 116, 105, 111, 110, 46, 111, 114, 103, 47, 118, 49]
  /** "-> " */
  const ARROW: bytes := [45, 62, 32]
  /** "---" */
  const DASHES: bytes := [45, 45, 45]

  const MAX_HEADER_BYTES: nat := 2 * 1024 * 1024
  const MAX_STANZAS: nat := 1024
  const MAX_STANZA_ARGS: nat := 128
  const COLUMNS: nat := 64

  datatype Stanza = Stanza(kind: Text, args: seq<Text>, body: bytes)

  /** The parts `parse_header` returns. */
  datatype Parsed = Parsed(stanzas: seq<Stanza>, mac: bytes, macInput: bytes, payload: bytes)

  datatype HeaderError =
    | NoMacLine | HeaderTooLong | NoStanza | BadMacLine | NotAgeV1 | TooManyStanzas | StanzaNotAscii | StanzaWithoutType
    | TooManyArguments | BodyOutsideStanza | BodyLineTooLong | BodyNotBase64 | NotEncodable

  // ---- text ----

  predicate IsAscii(t: Text) {
    forall c :: c in t ==> c < 128
  }

  /** `t.encode("ascii")`; None is the UnicodeEncodeError. */
  function EncodeAscii(t: Text): Option<bytes> {
    if IsAscii(t) then Some(AsBytes(t)) else None
  }

  function AsBytes(t: Text): (b: bytes)
    requires IsAscii(t)
    ensures b == t
  {
    if t == [] then []
    else
      assert t[0] in t && forall c :: c in t[1..] ==> c in t;
      var c: byte := t[0];
      [c] + AsBytes(t[1..])
  }

  /** What `str.split()` splits on. */
  predicate IsSpace(c: nat) {
    || 9 <= c <= 13 || 28 <= c <= 32 || c == 0x85 || c == 0xA0 || c == 0x1680 || 0x2000 <= c <= 0x200A
    || c == 0x2028 || c == 0x2029 || c == 0x202F || c == 0x205F || c == 0x3000
  }

  /** A non-empty run without whitespace. */
  predicate IsWord(t: Text) {
    t != [] && forall c :: c in t ==> !IsSpace(c)
  }

  /** Length of the run of non-space at the front. */
  function WordLength(t: Text): (n: nat)
    ensures n <= |t|
  {
    if t == [] || IsSpace(t[0]) then 0 else 1 + WordLength(t[1..])
  }

  /** `t.split()`. */
  function Split(t: Text): seq<Text>
    decreases |t|
  {
    if t == [] then []
    else if IsSpace(t[0]) then Split(t[1..])
    else [t[..WordLength(t)]] + Split(t[WordLength(t)..])
  }

  /** `" ".join(words)`. */
  function JoinWords(words: seq<Text>): Text {
    if words == [] then []
    else if |words| == 1 then words[0]
    else words[0] + [SPACE] + JoinWords(words[1..])
  }

  // ---- the writer ----

  /** Base64 folded at 64 columns, always ending in a line under 64 columns. */
  function Folded(encoded: Text): seq<Text> {
    if |encoded| < COLUMNS then [encoded] else [encoded[..COLUMNS]] + Folded(encoded[COLUMNS..])
  }

  /** `stanza_lines`. */
  function StanzaLines(s: Stanza): seq<Text> {
    [ARROW + JoinWords([s.kind] + s.args)] + Folded(B64e(s.body))
  }

  function AllLines(stanzas: seq<Stanza>): seq<Text> {
    if stanzas == [] then [] else StanzaLines(stanzas[0]) + AllLines(stanzas[1..])
  }

  /** Each line with its newline. */
  function Terminated(lines: seq<Text>): Text {
    if lines == [] then [] else lines[0] + [NL] + Terminated(lines[1..])
  }

  /** The header through its `---` mark: what the MAC covers. */
  function Partial(stanzas: seq<Stanza>): Text {
    Terminated([V1_HEADER] + AllLines(stanzas)) + DASHES
  }

  /** HMAC-SHA-256 of the partial header under the key HKDF derives from the file key. */
  type HeaderMac = (bytes, bytes) -> bytes

  /** `build_header`. */
  function BuildHeader(headerMac: HeaderMac, fileKey: bytes, stanzas: seq<Stanza>): Result<bytes, HeaderError> {
    match EncodeAscii(Partial(stanzas))
    case None => Err(NotEncodable)
    case Some(partial) => Ok(partial + [SPACE] + LettersAsBytes(headerMac(fileKey, partial)) + [NL])
  }

  function LettersAsBytes(mac: bytes): (b: bytes)
    ensures b == B64e(mac)
  {
    B64eIsAscii(mac);
    AsBytes(B64e(mac))
  }

  lemma B64eIsAscii(data: bytes)
    ensures IsAscii(B64e(data))
  {
    B64eLetters(data);
  }

  // ---- the parser ----

  /** Position of the next newline at or after `pos`; `|data|` when there is none. */
  function FindNewline(data: bytes, pos: nat): (nl: nat)
    requires pos <= |data|
    ensures pos <= nl <= |data| && (nl < |data| ==> data[nl] == NL)
    ensures forall i :: pos <= i < nl ==> data[i] != NL
    decreases |data| - pos
  {
    if pos == |data| || data[pos] == NL then pos else FindNewline(data, pos + 1)
  }

  /** `header_line`: one line and where the next begins. */
  function HeaderLine(data: bytes, pos: nat): (r: Result<(bytes, nat), HeaderError>)
    requires pos < |data|
    ensures r.Ok? ==> pos < r.value.1 <= |data|
  {
    var nl := FindNewline(data, pos);
    if nl == |data| then Err(NoMacLine)
    else if nl + 1 > MAX_HEADER_BYTES then Err(HeaderTooLong)
    else Ok((data[pos..nl], nl + 1))
  }

  /** The parse state between lines: whether the version line is still due, whether the last stanza is open. */
  datatype Scan = Scan(first: bool, open: bool, stanzas: seq<Stanza>)

  /** `open_stanza`. */
  function OpenStanza(line: Text, s: Scan): Result<Scan, HeaderError>
    requires ARROW <= line
  {
    if |s.stanzas| >= MAX_STANZAS then Err(TooManyStanzas)
    else if !IsAscii(line[3..]) then Err(StanzaNotAscii)
    else
      var args := Split(line[3..]);
      if args == [] then Err(StanzaWithoutType)
      else if |args| - 1 > MAX_STANZA_ARGS then Err(TooManyArguments)
      else Ok(s.(open := true, stanzas := s.stanzas + [Stanza(args[0], args[1..], [])]))
  }

  /** The open stanza's body grows in place. */
  function Extended(stanzas: seq<Stanza>, piece: bytes): seq<Stanza>
    requires stanzas != []
  {
    var last := stanzas[|stanzas| - 1];
    stanzas[..|stanzas| - 1] + [last.(body := last.body + piece)]
  }

  /** `accept_body_line`, then the closing of the stanza by a short line. */
  function BodyLine(line: Text, s: Scan): Result<Scan, HeaderError> {
    if !s.open || s.stanzas == [] then Err(BodyOutsideStanza)
    else if |line| > COLUMNS then Err(BodyLineTooLong)
    else
      match B64d(line)
      case None => Err(BodyNotBase64)
      case Some(piece) => Ok(s.(open := |line| == COLUMNS, stanzas := Extended(s.stanzas, piece)))
  }

  /** `header_step`: one line that is not the MAC line. */
  function HeaderStep(line: Text, s: Scan): Result<Scan, HeaderError> {
    if s.first then (if line == V1_HEADER then Ok(s.(first := false)) else Err(NotAgeV1))
    else if ARROW <= line then OpenStanza(line, s)
    else BodyLine(line, s)
  }

  /** `mac_line`: the claimed MAC. */
  function MacLine(line: Text): Result<bytes, HeaderError> {
    if |line| != 4 + 43 || line[3] != SPACE then Err(BadMacLine)
    else
      match B64d(line[4..])
      case None => Err(BadMacLine)
      case Some(mac) => Ok(mac)
  }

  /** The rest of the parse from a line's start. */
  function ParseFrom(data: bytes, pos: nat, s: Scan): Result<Parsed, HeaderError>
    requires pos <= |data|
    decreases |data| - pos
  {
    if pos == |data| then Err(NoMacLine)
    else
      match HeaderLine(data, pos)
      case Err(e) => Err(e)
      case Ok((line, next)) =>
        if DASHES <= line then
          if s.stanzas == [] then Err(NoStanza)
          else
            match MacLine(line)
            case Err(e) => Err(e)
            case Ok(mac) => Ok(Parsed(s.stanzas, mac, data[..pos + 3], data[next..]))
        else
          match HeaderStep(line, s)
          case Err(e) => Err(e)
          case Ok(s') => ParseFrom(data, next, s')
  }

  function Parse(data: bytes): Result<Parsed, HeaderError> {
    ParseFrom(data, 0, Scan(true, false, []))
  }

  /** `parse_header`. */
  method ParseHeader(data: bytes) returns (r: Result<Parsed, HeaderError>)
    ensures r == Parse(data)
  {
    var pos := 0;
    var s := Scan(true, false, []);
    while pos < |data|
      invariant pos <= |data| && ParseFrom(data, pos, s) == Parse(data)
      decreases |data| - pos
    {
      var found := HeaderLine(data, pos);
      if found.Err? {
        return Err(found.error);
      }
      var (line, next) := found.value;
      if DASHES <= line {
        if s.stanzas == [] {
          return Err(NoStanza);
        }
        var mac := MacLine(line);
        if mac.Err? {
          return Err(mac.error);
        }
        return Ok(Parsed(s.stanzas, mac.value, data[..pos + 3], data[next..]));
      }
      var step := HeaderStep(line, s);
      if step.Err? {
        return Err(step.error);
      }
      s := step.value;
      pos := next;
    }
    r := Err(NoMacLine);
  }

  // ---- words ----

  lemma {:induction false} WordLengthOf(w: Text, rest: Text)
    requires IsWord(w) && (rest == [] || IsSpace(rest[0]))
    ensures WordLength(w + rest) == |w|
  {
    hide IsSpace;
    assert w[0] in w;
    if |w| == 1 {
      assert (w + rest)[1..] == rest;
    } else {
      assert forall c :: c in w[1..] ==> c in w;
      assert (w + rest)[1..] == w[1..] + rest;
      WordLengthOf(w[1..], rest);
    }
  }

  lemma SplitWord(w: Text, rest: Text)
    requires IsWord(w) && (rest == [] || IsSpace(rest[0]))
    ensures Split(w + rest) == [w] + Split(rest)
  {
    WordLengthOf(w, rest);
    hide IsSpace, WordLength;
    assert w[0] in w && (w + rest)[0] == w[0];
    assert (w + rest)[..|w|] == w && (w + rest)[|w|..] == rest;
  }

  /** Joining words with spaces is undone by splitting. */
  lemma {:induction false} SplitJoin(words: seq<Text>)
    requires forall w :: w in words ==> IsWord(w)
    ensures Split(JoinWords(words)) == words
  {
    hide IsSpace, IsWord;
    if words != [] {
      assert words[0] in words;
      if |words| == 1 {
        assert words[0] + [] == words[0];
        SplitWord(words[0], []);
        assert [words[0]] + Split([]) == words;
      } else {
        var rest := JoinWords(words[1..]);
        assert forall w :: w in words[1..] ==> w in words;
        assert words[0] + [SPACE] + rest == words[0] + ([SPACE] + rest);
        SpaceIsSpace();
        SplitWord(words[0], [SPACE] + rest);
        assert ([SPACE] + rest)[1..] == rest;
        SplitJoin(words[1..]);
      }
    }
  }

  lemma SpaceIsSpace()
    ensures IsSpace(SPACE) && IsSpace(NL)
  {
  }

  lemma {:induction false} WordLengthIsRun(t: Text)
    ensures forall c :: c in t[..WordLength(t)] ==> !IsSpace(c)
  {
    hide IsSpace;
    if t != [] && !IsSpace(t[0]) {
      WordLengthIsRun(t[1..]);
      assert t[..WordLength(t)] == [t[0]] + t[1..][..WordLength(t[1..])];
    }
  }

  /** What a split yields are words made of the text's characters. */
  lemma {:induction false} SplitYieldsWords(t: Text)
    ensures forall w :: w in Split(t) ==> IsWord(w)
    ensures IsAscii(t) ==> forall w :: w in Split(t) ==> IsAscii(w)
    decreases |t|
  {
    hide IsSpace;
    if t != [] {
      assert forall c :: c in t[1..] ==> c in t;
      if IsSpace(t[0]) {
        SplitYieldsWords(t[1..]);
      } else {
        var n := WordLength(t);
        WordLengthIsRun(t);
        assert forall c :: c in t[n..] || c in t[..n] ==> c in t;
        assert n > 0;
        SplitYieldsWords(t[n..]);
      }
    }
  }

  // ---- parsing what was written ----

  /** A line the parser reads back whole and does not take for the MAC line. */
  ghost predicate IsPlainLine(line: Text) {
    NL !in line && !(DASHES <= line)
  }

  ghost predicate ArePlain(lines: seq<Text>) {
    forall l :: l in lines ==> IsPlainLine(l)
  }

  /** The parse state after several lines. */
  function StepLines(lines: seq<Text>, s: Scan): Result<Scan, HeaderError> {
    if lines == [] then Ok(s)
    else
      match HeaderStep(lines[0], s)
      case Err(e) => Err(e)
      case Ok(s') => StepLines(lines[1..], s')
  }

  lemma {:induction false} StepLinesConcat(a: seq<Text>, b: seq<Text>, s: Scan)
    requires StepLines(a, s).Ok?
    ensures StepLines(a + b, s) == StepLines(b, StepLines(a, s).value)
    decreases |a|
  {
    hide HeaderStep;
    if a == [] {
      assert a + b == b;
    } else {
      assert (a + b)[0] == a[0] && (a + b)[1..] == a[1..] + b;
      StepLinesConcat(a[1..], b, HeaderStep(a[0], s).value);
    }
  }

  lemma {:induction false} TerminatedConcat(a: seq<Text>, b: seq<Text>)
    ensures Terminated(a + b) == Terminated(a) + Terminated(b)
  {
    if a == [] {
      assert a + b == b;
    } else {
      assert (a + b)[0] == a[0] && (a + b)[1..] == a[1..] + b;
      TerminatedConcat(a[1..], b);
    }
  }

  /** A newline-free line that stands at `pos` is the line read there. */
  lemma ReadsLine(data: bytes, pos: nat, line: Text, rest: Text)
    requires pos <= |data| && data[pos..] == line + [NL] + rest && NL !in line
    requires pos + |line| + 1 <= MAX_HEADER_BYTES
    ensures pos + |line| + 1 <= |data| && data[pos + |line| + 1..] == rest
    ensures pos < |data| && HeaderLine(data, pos) == Ok((line, pos + |line| + 1))
  {
    var tail := data[pos..];
    assert |tail| == |line| + 1 + |rest|;
    assert forall i :: 0 <= i < |tail| ==> tail[i] == data[pos + i];
    assert tail[|line|] == NL;
    var nl := FindNewline(data, pos);
    assert nl <= pos + |line|;
    assert forall k :: 0 <= k < |line| ==> data[pos + k] == tail[k] == line[k];
    assert nl == pos + |line|;
    assert data[pos..nl] == tail[..|line|] == line;
    assert data[nl + 1..] == tail[|line| + 1..] == rest;
  }

  /** Plain lines that the state accepts are consumed one by one. */
  lemma {:induction false} ConsumesLines(data: bytes, pos: nat, lines: seq<Text>, rest: Text, s: Scan)
    requires pos <= |data| && data[pos..] == Terminated(lines) + rest && ArePlain(lines)
    requires pos + |Terminated(lines)| <= MAX_HEADER_BYTES && StepLines(lines, s).Ok?
    ensures pos + |Terminated(lines)| <= |data| && data[pos + |Terminated(lines)|..] == rest
    ensures ParseFrom(data, pos, s) == ParseFrom(data, pos + |Terminated(lines)|, StepLines(lines, s).value)
    decreases |lines|
  {
    hide HeaderStep, HeaderLine, MacLine;
    if lines == [] {
      assert Terminated(lines) + rest == rest;
    } else {
      var line, more := lines[0], Terminated(lines[1..]);
      assert line in lines;
      assert Terminated(lines) + rest == line + [NL] + (more + rest);
      ReadsLine(data, pos, line, more + rest);
      assert ArePlain(lines[1..]) by {
        assert forall l :: l in lines[1..] ==> l in lines;
      }
      ConsumesLines(data, pos + |line| + 1, lines[1..], rest, HeaderStep(line, s).value);
    }
  }

  /** The stanzas a header can carry: words for kind and arguments, within the caps. */
  ghost predicate IsCarriableStanza(s: Stanza) {
    && |s.args| <= MAX_STANZA_ARGS
    && forall w :: w in [s.kind] + s.args ==> IsWord(w) && IsAscii(w)
  }

  ghost predicate AreCarriable(stanzas: seq<Stanza>) {
    1 <= |stanzas| <= MAX_STANZAS && forall s :: s in stanzas ==> IsCarriableStanza(s)
  }

  lemma {:induction false} JoinedText(words: seq<Text>)
    requires forall w :: w in words ==> IsWord(w) && IsAscii(w)
    ensures IsAscii(JoinWords(words)) && NL !in JoinWords(words)
  {
    hide IsSpace;
    SpaceIsSpace();
    if words != [] {
      assert words[0] in words;
      if |words| > 1 {
        assert forall w :: w in words[1..] ==> w in words;
        JoinedText(words[1..]);
      }
    }
  }

  /** The argument line opens a stanza with exactly these words. */
  lemma ArgumentLine(st: Stanza, s: Scan)
    requires IsCarriableStanza(st) && !s.first && |s.stanzas| < MAX_STANZAS
    ensures var line := ARROW + JoinWords([st.kind] + st.args);
      && IsPlainLine(line) && IsAscii(line)
      && HeaderStep(line, s) == Ok(Scan(false, true, s.stanzas + [Stanza(st.kind, st.args, [])]))
  {
    var words := [st.kind] + st.args;
    JoinedText(words);
    SplitJoin(words);
    hide Split, JoinWords, IsWord;
    var line := ARROW + JoinWords(words);
    assert line[1] == 62;
    assert line[3..] == JoinWords(words);
    assert words[0] == st.kind && words[1..] == st.args;
  }

  lemma LettersArePlain(line: Text)
    requires forall c :: c in line ==> IsLetter(c)
    ensures IsPlainLine(line) && !(ARROW <= line) && IsAscii(line)
  {
    assert line != [] ==> line[0] in line;
  }

  lemma {:induction false} FoldedLines(body: bytes)
    ensures ArePlain(Folded(B64e(body))) && forall l :: l in Folded(B64e(body)) ==> IsAscii(l)
    decreases |body|
  {
    B64eLetters(body);
    LineOf48(body);
    hide B64e, IsLetter, IsPlainLine, IsAscii;
    if |body| >= 48 {
      FoldedLines(body[48..]);
      var line := B64e(body)[..COLUMNS];
      assert forall c :: c in line ==> c in B64e(body);
      LettersArePlain(line);
    } else {
      LettersArePlain(B64e(body));
    }
  }

  lemma Grown(stanzas: seq<Stanza>, st: Stanza, piece: bytes)
    ensures Extended(stanzas + [st], piece) == stanzas + [st.(body := st.body + piece)]
  {
    assert (stanzas + [st])[..|stanzas|] == stanzas;
  }

  /** The folded body lines put back the body, and the short last one closes the stanza. */
  lemma {:induction false} BodyLines(body: bytes, before: bytes, kind: Text, args: seq<Text>, stanzas: seq<Stanza>)
    ensures StepLines(Folded(B64e(body)), Scan(false, true, stanzas + [Stanza(kind, args, before)]))
         == Ok(Scan(false, false, stanzas + [Stanza(kind, args, before + body)]))
    decreases |body|
  {
    hide B64e, B64d, IsLetter, Extended;
    var s := Scan(false, true, stanzas + [Stanza(kind, args, before)]);
    LineOf48(body);
    B64eLetters(body);
    if |body| >= 48 {
      var line, piece := B64e(body)[..COLUMNS], body[..48];
      assert forall c :: c in line ==> c in B64e(body);
      LettersArePlain(line);
      B64RoundTrip(piece);
      Grown(stanzas, Stanza(kind, args, before), piece);
      assert Folded(B64e(body))[1..] == Folded(B64e(body[48..]));
      BodyLines(body[48..], before + piece, kind, args, stanzas);
      assert before + piece + body[48..] == before + body;
    } else {
      LettersArePlain(B64e(body));
      B64RoundTrip(body);
      Grown(stanzas, Stanza(kind, args, before), body);
    }
  }

  lemma StanzaIsRead(st: Stanza, s: Scan)
    requires IsCarriableStanza(st) && !s.first && |s.stanzas| < MAX_STANZAS
    ensures ArePlain(StanzaLines(st)) && forall l :: l in StanzaLines(st) ==> IsAscii(l)
    ensures StepLines(StanzaLines(st), s) == Ok(Scan(false, false, s.stanzas + [st]))
  {
    ArgumentLine(st, s);
    FoldedLines(st.body);
    BodyLines(st.body, [], st.kind, st.args, s.stanzas);
    hide HeaderStep, Folded, JoinWords, IsPlainLine, IsAscii, B64e;
    assert [] + st.body == st.body;
    assert StanzaLines(st)[1..] == Folded(B64e(st.body));
  }

  lemma {:induction false} StanzasAreRead(stanzas: seq<Stanza>, s: Scan)
    requires (forall st :: st in stanzas ==> IsCarriableStanza(st)) && !s.first
    requires |s.stanzas| + |stanzas| <= MAX_STANZAS
    ensures ArePlain(AllLines(stanzas)) && forall l :: l in AllLines(stanzas) ==> IsAscii(l)
    ensures StepLines(AllLines(stanzas), s).Ok?
    ensures StepLines(AllLines(stanzas), s).value.stanzas == s.stanzas + stanzas
    decreases |stanzas|
  {
    hide StanzaLines, IsCarriableStanza, IsPlainLine, IsAscii, HeaderStep;
    if stanzas != [] {
      var st, rest := stanzas[0], stanzas[1..];
      assert st in stanzas && forall x :: x in rest ==> x in stanzas;
      StanzaIsRead(st, s);
      var s' := Scan(false, false, s.stanzas + [st]);
      StanzasAreRead(rest, s');
      StepLinesConcat(StanzaLines(st), AllLines(rest), s);
      assert s.stanzas + [st] + rest == s.stanzas + stanzas;
    } else {
      assert s.stanzas + stanzas == s.stanzas;
    }
  }

  /** A MAC is 32 bytes. */
  ghost predicate MacSize(headerMac: HeaderMac) {
    forall k, m :: |headerMac(k, m)| == 32
  }

  lemma TerminatedIsAscii(lines: seq<Text>)
    requires forall l :: l in lines ==> IsAscii(l)
    ensures IsAscii(Terminated(lines))
  {
    if lines != [] {
      assert lines[0] in lines && forall l :: l in lines[1..] ==> l in lines;
      TerminatedIsAscii(lines[1..]);
    }
  }

  lemma VersionLine(s: Scan)
    requires s.first
    ensures IsPlainLine(V1_HEADER) && IsAscii(V1_HEADER)
    ensures StepLines([V1_HEADER], s) == Ok(s.(first := false))
  {
    assert V1_HEADER[0] == 97;
    assert [V1_HEADER][1..] == [];
  }

  /** The lines before the MAC line, read from the start. */
  lemma AllLinesAreRead(stanzas: seq<Stanza>)
    requires AreCarriable(stanzas)
    ensures var lines := [V1_HEADER] + AllLines(stanzas);
      && ArePlain(lines) && IsAscii(Terminated(lines))
      && StepLines(lines, Scan(true, false, [])).Ok?
      && StepLines(lines, Scan(true, false, [])).value.stanzas == stanzas
  {
    hide HeaderStep, IsPlainLine, IsAscii, IsCarriableStanza;
    var s := Scan(true, false, []);
    VersionLine(s);
    StanzasAreRead(stanzas, s.(first := false));
    StepLinesConcat([V1_HEADER], AllLines(stanzas), s);
    TerminatedIsAscii([V1_HEADER] + AllLines(stanzas));
    assert [] + stanzas == stanzas;
  }

  lemma MacLineOf(mac: bytes)
    requires |mac| == 32
    ensures var line := DASHES + [SPACE] + B64e(mac);
      |line| == 47 && NL !in line && DASHES <= line && MacLine(line) == Ok(mac)
  {
    B64eLength(mac);
    B64eLetters(mac);
    B64RoundTrip(mac);
    LettersArePlain(B64e(mac));
    hide B64e, B64d, IsLetter;
    assert (DASHES + [SPACE] + B64e(mac))[4..] == B64e(mac);
  }

  /** The MAC line read at its place ends the parse. */
  lemma MacLineIsRead(data: bytes, pos: nat, mac: bytes, payload: bytes, s: Scan)
    requires pos <= |data| && data[pos..] == DASHES + [SPACE] + B64e(mac) + [NL] + payload
    requires |mac| == 32 && pos + 48 <= MAX_HEADER_BYTES && s.stanzas != []
    ensures pos + 3 <= |data|
    ensures ParseFrom(data, pos, s) == Ok(Parsed(s.stanzas, mac, data[..pos + 3], payload))
  {
    hide B64e, MacLine, HeaderLine, HeaderStep;
    MacLineOf(mac);
    var line := DASHES + [SPACE] + B64e(mac);
    assert line + [NL] + payload == data[pos..];
    ReadsLine(data, pos, line, payload);
  }

  /** A written header has this shape, whatever follows it. */
  lemma HeaderShape(headerMac: HeaderMac, fileKey: bytes, stanzas: seq<Stanza>, payload: bytes)
    requires AreCarriable(stanzas)
    ensures BuildHeader(headerMac, fileKey, stanzas).Ok? && IsAscii(Partial(stanzas))
    ensures var header := BuildHeader(headerMac, fileKey, stanzas).value;
      var lines, mac := [V1_HEADER] + AllLines(stanzas), headerMac(fileKey, AsBytes(Partial(stanzas)));
      header + payload == Terminated(lines) + (DASHES + [SPACE] + B64e(mac) + [NL] + payload)
  {
    AllLinesAreRead(stanzas);
    hide B64e, Terminated, AllLines;
    var t, mac := Terminated([V1_HEADER] + AllLines(stanzas)), headerMac(fileKey, AsBytes(Partial(stanzas)));
    assert t + DASHES + [SPACE] + B64e(mac) + [NL] + payload == t + (DASHES + [SPACE] + B64e(mac) + [NL] + payload);
  }

  /** Reading back a written header gives the stanzas, the MAC, the bytes it covers, and the payload. */
  lemma HeaderRoundTrip(headerMac: HeaderMac, fileKey: bytes, stanzas: seq<Stanza>, payload: bytes)
    requires MacSize(headerMac) && AreCarriable(stanzas)
    ensures BuildHeader(headerMac, fileKey, stanzas).Ok? && IsAscii(Partial(stanzas))
    ensures |BuildHeader(headerMac, fileKey, stanzas).value| <= MAX_HEADER_BYTES ==>
      var partial := AsBytes(Partial(stanzas));
      Parse(BuildHeader(headerMac, fileKey, stanzas).value + payload)
        == Ok(Parsed(stanzas, headerMac(fileKey, partial), partial, payload))
  {
    HeaderShape(headerMac, fileKey, stanzas, payload);
    AllLinesAreRead(stanzas);
    hide HeaderStep, IsPlainLine, IsAscii, B64e, Terminated, AllLines, BuildHeader, AreCarriable, StepLines;
    var header := BuildHeader(headerMac, fileKey, stanzas).value;
    if |header| <= MAX_HEADER_BYTES {
      HeaderSize(headerMac, fileKey, stanzas);
      var lines, partial := [V1_HEADER] + AllLines(stanzas), AsBytes(Partial(stanzas));
      var mac, data := headerMac(fileKey, partial), header + payload;
      var tail := DASHES + [SPACE] + B64e(mac) + [NL] + payload;
      var s := Scan(true, false, []);
      assert data[0..] == Terminated(lines) + tail;
      ConsumesLines(data, 0, lines, tail, s);
      StanzasNonEmpty(stanzas);
      MacLineIsRead(data, |Terminated(lines)|, mac, payload, StepLines(lines, s).value);
      assert data[..|Terminated(lines)| + 3] == partial;
    }
  }

  lemma StanzasNonEmpty(stanzas: seq<Stanza>)
    requires AreCarriable(stanzas)
    ensures stanzas != []
  {
  }

  lemma HeaderSize(headerMac: HeaderMac, fileKey: bytes, stanzas: seq<Stanza>)
    requires MacSize(headerMac) && AreCarriable(stanzas)
    ensures BuildHeader(headerMac, fileKey, stanzas).Ok?
    ensures |BuildHeader(headerMac, fileKey, stanzas).value| == |Terminated([V1_HEADER] + AllLines(stanzas))| + 48
  {
    HeaderShape(headerMac, fileKey, stanzas, []);
    hide BuildHeader, AllLines, Terminated, B64e;
    var mac := headerMac(fileKey, AsBytes(Partial(stanzas)));
    B64eLength(mac);
  }

  // ---- what any accepted header satisfies ----

  /** The running stanzas stay within the caps, and every stanza line gives words. */
  ghost predicate IsSound(s: Scan) {
    |s.stanzas| <= MAX_STANZAS && forall st :: st in s.stanzas ==> IsCarriableStanza(st)
  }

  lemma StepIsSound(line: Text, s: Scan)
    requires IsSound(s) && HeaderStep(line, s).Ok?
    ensures IsSound(HeaderStep(line, s).value)
  {
    hide Split, IsWord, IsAscii;
    if !s.first && ARROW <= line {
      OpenIsSound(line, s);
    } else if !s.first {
      var last := s.stanzas[|s.stanzas| - 1];
      assert last in s.stanzas && forall x :: x in s.stanzas[..|s.stanzas| - 1] ==> x in s.stanzas;
      hide B64d;
    }
  }

  lemma OpenIsSound(line: Text, s: Scan)
    requires IsSound(s) && ARROW <= line && OpenStanza(line, s).Ok?
    ensures IsSound(OpenStanza(line, s).value)
  {
    SplitYieldsWords(line[3..]);
    hide Split, IsWord, IsAscii;
    var args := Split(line[3..]);
    assert [args[0]] + args[1..] == args;
  }

  /** How a parse cuts its data: the MAC's bytes are a prefix that ends in the mark, then a space, 43 columns that
      decode to the MAC and a newline follow, and the rest is the payload. */
  ghost predicate IsCut(data: bytes, p: Parsed) {
    var n := |p.macInput|;
    && 3 <= n && n + 45 <= |data| && n + 45 <= MAX_HEADER_BYTES
    && p.macInput == data[..n] && data[n - 3..n] == DASHES
    && data[n] == SPACE && data[n + 44] == NL && B64d(data[n + 1..n + 44]) == Some(p.mac)
    && p.payload == data[n + 45..]
  }

  lemma MacLineCuts(data: bytes, pos: nat, stanzas: seq<Stanza>)
    requires pos < |data| && HeaderLine(data, pos).Ok?
    requires var (line, next) := HeaderLine(data, pos).value; DASHES <= line && MacLine(line).Ok?
    ensures var (line, next) := HeaderLine(data, pos).value;
      IsCut(data, Parsed(stanzas, MacLine(line).value, data[..pos + 3], data[next..]))
  {
    hide B64d;
    var (line, next) := HeaderLine(data, pos).value;
    assert next == pos + 48 && line == data[pos..pos + 47];
    assert data[pos..pos + 3] == line[..3];
    assert line[4..] == data[pos + 4..pos + 47];
    assert line[3] == data[pos + 3];
  }

  /** Every header any data is accepted with keeps the caps and cuts the data so. */
  lemma {:induction false} ParsedIsSound(data: bytes, pos: nat, s: Scan)
    requires pos <= |data| && IsSound(s) && ParseFrom(data, pos, s).Ok?
    ensures AreCarriable(ParseFrom(data, pos, s).value.stanzas) && IsCut(data, ParseFrom(data, pos, s).value)
    decreases |data| - pos
  {
    hide IsCarriableStanza, HeaderStep, IsCut, MacLine, HeaderLine;
    var (line, next) := HeaderLine(data, pos).value;
    if DASHES <= line {
      MacLineCuts(data, pos, s.stanzas);
    } else {
      StepIsSound(line, s);
      ParsedIsSound(data, next, HeaderStep(line, s).value);
    }
  }

  /** Exactly the carriable stanza lists under the size cap survive being written and read back. */
  lemma RoundTripExactlyWhenCarriable(headerMac: HeaderMac, fileKey: bytes, stanzas: seq<Stanza>, payload: bytes)
    requires MacSize(headerMac) && BuildHeader(headerMac, fileKey, stanzas).Ok?
    ensures var header, partial := BuildHeader(headerMac, fileKey, stanzas).value, AsBytes(Partial(stanzas));
      (Parse(header + payload) == Ok(Parsed(stanzas, headerMac(fileKey, partial), partial, payload)))
        <==> (AreCarriable(stanzas) && |header| <= MAX_HEADER_BYTES)
  {
    hide IsCarriableStanza, Partial, B64e;
    var header, partial := BuildHeader(headerMac, fileKey, stanzas).value, AsBytes(Partial(stanzas));
    var mac := headerMac(fileKey, partial);
    assert |header| == |partial| + 45 by {
      B64eLength(mac);
    }
    if AreCarriable(stanzas) {
      HeaderRoundTrip(headerMac, fileKey, stanzas, payload);
    }
    if Parse(header + payload) == Ok(Parsed(stanzas, mac, partial, payload)) {
      ParsedIsSound(header + payload, 0, Scan(true, false, []));
    }
  }

  // ---- the size of a parsed MAC ----

  /** 43 columns decode to 32 bytes exactly when all are letters; else the last is a pad, and they decode to 31. */
  lemma MacColumns(columns: Text)
    requires |columns| == 43 && B64d(columns).Some?
    ensures |B64d(columns).value| == if AllLetters(columns) then 32 else 31
    ensures !AllLetters(columns) ==> AllLetters(columns[..42]) && columns[42] == PAD
  {
    AcceptedIsAcceptable(columns);
    hide B64d, LetterRun, IsLetter;
    var n := LetterRun(columns);
    if n < 43 {
      assert columns[n..][0] == columns[n] && columns[n..][0] in columns[n..];
      assert columns[n] in columns;
    } else {
      assert columns[..n] == columns;
    }
  }

  /** A parsed MAC has 32 bytes exactly when its columns are all letters, and 31 otherwise. */
  lemma ParsedMacSize(data: bytes)
    requires Parse(data).Ok?
    ensures var p := Parse(data).value; var n := |p.macInput|;
      n + 44 <= |data| && |p.mac| == if AllLetters(data[n + 1..n + 44]) then 32 else 31
  {
    hide B64d, ParseFrom, AllLetters, AreCarriable;
    ParsedIsSound(data, 0, Scan(true, false, []));
    MacColumns(data[|Parse(data).value.macInput| + 1..|Parse(data).value.macInput| + 44]);
  }

  /** Every 31 bytes are the MAC of some line: their 42 letters and a pad. */
  lemma ShortMacIsParsed(mac: bytes)
    requires |mac| == 31
    ensures MacLine(DASHES + [SPACE] + (B64e(mac) + [PAD])) == Ok(mac)
  {
    B64eLength(mac);
    B64RoundTrip(mac);
    hide B64e, Decode;
    var columns := B64e(mac) + [PAD];
    assert columns + Padding(43) == B64e(mac) + Padding(42) by {
      assert Padding(43) == [PAD] && Padding(42) == [PAD, PAD];
    }
    assert (DASHES + [SPACE] + columns)[4..] == columns;
  }
}
