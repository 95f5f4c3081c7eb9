/** The headers the line parser accepts, as a grammar. */
module AgeHeaderGrammar {
  import opened Wrappers
  import opened Bytes
  import opened Base64
  import opened AgeHeader

  /** The lines of one stanza: its argument line and its body lines. */
  datatype Block = Block(line: Text, body: seq<Text>)

  ghost predicate IsArgumentLine(line: Text) {
    && ARROW <= line && NL !in line && IsAscii(line[3..])
    && 1 <= |Split(line[3..])| <= 129
  }

  ghost predicate IsBodyLine(line: Text) {
    |line| <= 64 && B64d(line).Some?
  }

  /** Full lines, and at most one short one, the last. */
  ghost predicate IsFolded(body: seq<Text>) {
    && (forall i :: 0 <= i < |body| ==> IsBodyLine(body[i]))
    && forall i :: 0 <= i < |body| - 1 ==> |body[i]| == 64
  }

  ghost predicate AreBlocks(blocks: seq<Block>) {
    forall i :: 0 <= i < |blocks| ==> IsArgumentLine(blocks[i].line) && IsFolded(blocks[i].body)
  }

  /** All the lines, in order. */
  function LinesOf(blocks: seq<Block>): seq<Text> {
    if blocks == [] then []
    else
      var last := blocks[|blocks| - 1];
      LinesOf(blocks[..|blocks| - 1]) + [last.line] + last.body
  }

  /** The lines' decodings, one after the other. */
  function Joined(body: seq<Text>): bytes {
    if body == [] then [] else Joined(body[..|body| - 1]) + B64d(body[|body| - 1]).GetOr([])
  }

  ghost predicate IsStanzaOf(b: Block, st: Stanza)
    requires |b.line| >= 3
  {
    [st.kind] + st.args == Split(b.line[3..]) && st.body == Joined(b.body)
  }

  ghost predicate AreStanzasOf(blocks: seq<Block>, stanzas: seq<Stanza>) {
    && |stanzas| == |blocks|
    && forall i :: 0 <= i < |blocks| ==> |blocks[i].line| >= 3 && IsStanzaOf(blocks[i], stanzas[i])
  }

  /** The data is a header of these blocks: the version line, the blocks' lines and the MAC line, within the caps of
      the reference implementation. */
  ghost predicate IsHeader(data: bytes, blocks: seq<Block>, p: Parsed) {
    && AreBlocks(blocks) && 1 <= |blocks| <= 1024 && AreStanzasOf(blocks, p.stanzas)
    && p.macInput == Terminated([V1_HEADER] + LinesOf(blocks)) + DASHES
    && IsCut(data, p) && |p.macInput| + 45 <= 0x20_0000
  }

  // ---- one line more ----

  ghost predicate IsOpen(blocks: seq<Block>) {
    blocks != [] && var body := blocks[|blocks| - 1].body; body == [] || |body[|body| - 1]| == 64
  }

  /** The parse state after the lines of these blocks. */
  ghost predicate Stands(blocks: seq<Block>, s: Scan) {
    && AreBlocks(blocks) && |blocks| <= MAX_STANZAS && AreStanzasOf(blocks, s.stanzas)
    && !s.first && (s.open <==> IsOpen(blocks))
  }

  ghost predicate Takes(blocks: seq<Block>, line: Text) {
    if ARROW <= line then IsArgumentLine(line) && |blocks| < MAX_STANZAS else IsOpen(blocks) && IsBodyLine(line)
  }

  ghost function Taken(blocks: seq<Block>, line: Text): seq<Block>
    requires Takes(blocks, line)
  {
    if ARROW <= line then blocks + [Block(line, [])]
    else
      var n := |blocks| - 1;
      blocks[..n] + [Block(blocks[n].line, blocks[n].body + [line])]
  }

  lemma ArgumentLineIsTaken(blocks: seq<Block>, s: Scan, line: Text)
    requires Stands(blocks, s) && NL !in line && ARROW <= line
    ensures HeaderStep(line, s).Ok? <==> Takes(blocks, line)
    ensures Takes(blocks, line) ==> Stands(Taken(blocks, line), HeaderStep(line, s).value)
  {
    hide Split, IsAscii;
    if Takes(blocks, line) {
      var args := Split(line[3..]);
      assert [args[0]] + args[1..] == args;
      assert IsStanzaOf(Block(line, []), Stanza(args[0], args[1..], []));
    }
  }

  lemma DecodesLine(line: Text)
    requires IsBodyLine(line)
    ensures B64d(line).GetOr([]) == B64d(line).value
  {
    hide B64d;
  }

  lemma FoldedNext(body: seq<Text>, line: Text)
    requires IsFolded(body) && IsBodyLine(line) && (body == [] || |body[|body| - 1]| == 64)
    ensures IsFolded(body + [line]) && Joined(body + [line]) == Joined(body) + B64d(line).value
  {
    hide IsBodyLine;
    var more := body + [line];
    assert more[..|body|] == body;
    forall i | 0 <= i < |more| ensures IsBodyLine(more[i]) && (i < |more| - 1 ==> |more[i]| == 64) {
      assert i < |body| ==> more[i] == body[i];
    }
    DecodesLine(line);
  }

  lemma BodyLineIsTaken(blocks: seq<Block>, s: Scan, line: Text)
    requires Stands(blocks, s) && !(ARROW <= line)
    ensures HeaderStep(line, s).Ok? <==> Takes(blocks, line)
    ensures Takes(blocks, line) ==> Stands(Taken(blocks, line), HeaderStep(line, s).value)
  {
    hide Split, IsFolded, IsAscii, IsArgumentLine, B64d, Joined;
    if Takes(blocks, line) {
      FoldedNext(blocks[|blocks| - 1].body, line);
    }
  }

  lemma LettersAndPads(line: Text)
    requires B64d(line).Some?
    ensures forall i :: 0 <= i < |line| ==> IsLetter(line[i]) || line[i] == PAD
  {
    AcceptedIsAcceptable(line);
    hide B64d, LetterRun, IsLetter, Padding;
    var n := LetterRun(line);
    forall i | 0 <= i < |line| ensures IsLetter(line[i]) || line[i] == PAD {
      if i < n {
        assert line[..n][i] in line[..n];
      } else {
        assert line[n..][i - n] in line[n..];
      }
    }
  }

  lemma BodyLineIsPlain(line: Text)
    requires IsBodyLine(line)
    ensures IsPlainLine(line) && !(ARROW <= line)
  {
    LettersAndPads(line);
    hide B64d;
  }

  lemma LinesOfTaken(blocks: seq<Block>, line: Text)
    requires Takes(blocks, line)
    ensures LinesOf(Taken(blocks, line)) == LinesOf(blocks) + [line]
  {
    hide IsArgumentLine, IsBodyLine;
    var n := |blocks| - 1;
    if ARROW <= line {
      assert (blocks + [Block(line, [])])[..|blocks|] == blocks;
    } else {
      var taken := Taken(blocks, line);
      assert taken[..n] == blocks[..n];
      var before := LinesOf(blocks[..n]) + [blocks[n].line];
      assert before + (blocks[n].body + [line]) == before + blocks[n].body + [line];
    }
  }

  lemma {:induction false} TerminatedNext(lines: seq<Text>, line: Text)
    ensures Terminated(lines + [line]) == Terminated(lines) + line + [NL]
  {
    TerminatedConcat(lines, [line]);
    assert Terminated([line]) == line + [NL];
  }

  // ---- what is accepted is a header ----

  /** From a state some blocks led to, an accepted parse ends in a header. */
  lemma {:induction false} AcceptedFrom(data: bytes, pos: nat, blocks: seq<Block>, s: Scan) returns (all: seq<Block>)
    requires pos <= |data| && Stands(blocks, s) && data[..pos] == Terminated([V1_HEADER] + LinesOf(blocks))
    requires ParseFrom(data, pos, s).Ok?
    ensures IsHeader(data, all, ParseFrom(data, pos, s).value)
    decreases |data| - pos
  {
    hide IsCut, HeaderStep, MacLine, LinesOf, Terminated, AreBlocks, AreStanzasOf, IsOpen, Takes, Taken;
    var (line, next) := HeaderLine(data, pos).value;
    if DASHES <= line {
      MacLineCuts(data, pos, s.stanzas);
      assert data[..pos + 3] == data[..pos] + DASHES by {
        assert data[pos..pos + 3] == line[..3];
      }
      SomeBlock(blocks, s.stanzas);
      assert |data[..pos + 3]| + 45 <= MAX_HEADER_BYTES by {
        CutSize(data, ParseFrom(data, pos, s).value);
      }
      all := blocks;
    } else {
      assert NL !in line;
      if ARROW <= line {
        ArgumentLineIsTaken(blocks, s, line);
      } else {
        BodyLineIsTaken(blocks, s, line);
      }
      LinesOfTaken(blocks, line);
      TerminatedNext([V1_HEADER] + LinesOf(blocks), line);
      assert [V1_HEADER] + (LinesOf(blocks) + [line]) == [V1_HEADER] + LinesOf(blocks) + [line];
      assert data[..next] == data[..pos] + line + [NL];
      all := AcceptedFrom(data, next, Taken(blocks, line), HeaderStep(line, s).value);
    }
  }

  lemma CutSize(data: bytes, p: Parsed)
    requires IsCut(data, p)
    ensures |p.macInput| + 45 <= MAX_HEADER_BYTES
  {
    hide B64d;
  }

  lemma SomeBlock(blocks: seq<Block>, stanzas: seq<Stanza>)
    requires AreStanzasOf(blocks, stanzas) && stanzas != []
    ensures blocks != []
  {
  }

  lemma NoBlocks(s: Scan)
    requires s == Scan(false, false, [])
    ensures Stands([], s) && LinesOf([]) == []
  {
  }

  lemma AcceptedIsHeader(data: bytes) returns (blocks: seq<Block>)
    requires Parse(data).Ok?
    ensures IsHeader(data, blocks, Parse(data).value)
  {
    hide IsCut, HeaderStep, MacLine, LinesOf, Stands, IsHeader;
    var s := Scan(true, false, []);
    var (line, next) := HeaderLine(data, 0).value;
    FirstLine(data);
    NoBlocks(Scan(false, false, []));
    TerminatedNext([], V1_HEADER);
    assert [] + [V1_HEADER] == [V1_HEADER] + [];
    blocks := AcceptedFrom(data, next, [], Scan(false, false, []));
  }

  lemma FirstLine(data: bytes)
    requires Parse(data).Ok?
    ensures data != [] && HeaderLine(data, 0).Ok?
    ensures var (line, next) := HeaderLine(data, 0).value;
      && line == V1_HEADER && data[..next] == V1_HEADER + [NL]
      && Parse(data) == ParseFrom(data, next, Scan(false, false, []))
  {
    hide MacLine;
  }

  // ---- a header is accepted ----

  /** The blocks before the last line. */
  ghost function Before(blocks: seq<Block>): seq<Block>
    requires blocks != []
  {
    var n := |blocks| - 1;
    var body := blocks[n].body;
    blocks[..n] + if body == [] then [] else [Block(blocks[n].line, body[..|body| - 1])]
  }

  ghost function LastLine(blocks: seq<Block>): Text
    requires blocks != []
  {
    var last := blocks[|blocks| - 1];
    if last.body == [] then last.line else last.body[|last.body| - 1]
  }

  lemma LastIsTaken(blocks: seq<Block>)
    requires blocks != [] && AreBlocks(blocks) && |blocks| <= MAX_STANZAS
    ensures AreBlocks(Before(blocks)) && |Before(blocks)| <= MAX_STANZAS && IsPlainLine(LastLine(blocks))
    ensures Takes(Before(blocks), LastLine(blocks)) && Taken(Before(blocks), LastLine(blocks)) == blocks
  {
    hide Split, B64d, IsAscii;
    var n := |blocks| - 1;
    var line, body, before := blocks[n].line, blocks[n].body, Before(blocks);
    if body == [] {
      assert line[1] == 62;
      assert blocks == before + [Block(line, [])];
    } else {
      var last := body[|body| - 1];
      assert IsBodyLine(last);
      BodyLineIsPlain(last);
      assert body == body[..|body| - 1] + [last];
      assert blocks == blocks[..n] + [blocks[n]];
    }
  }

  lemma {:induction false} HeaderIsRead(blocks: seq<Block>) returns (s: Scan)
    requires AreBlocks(blocks) && |blocks| <= MAX_STANZAS
    ensures var lines := [V1_HEADER] + LinesOf(blocks);
      ArePlain(lines) && StepLines(lines, Scan(true, false, [])) == Ok(s) && Stands(blocks, s)
    decreases |LinesOf(blocks)|
  {
    hide LinesOf, AreBlocks, IsOpen, Takes, Taken, Before, LastLine, IsPlainLine, HeaderStep, AreStanzasOf;
    if blocks == [] {
      s := Scan(false, false, []);
      NoBlocks(s);
      VersionLine(Scan(true, false, []));
      assert [V1_HEADER] + [] == [V1_HEADER];
    } else {
      var before, line := Before(blocks), LastLine(blocks);
      LastIsTaken(blocks);
      LinesOfTaken(before, line);
      var s' := HeaderIsRead(before);
      if ARROW <= line {
        NoNewline(line);
        ArgumentLineIsTaken(before, s', line);
      } else {
        BodyLineIsTaken(before, s', line);
      }
      s := HeaderStep(line, s').value;
      assert [V1_HEADER] + (LinesOf(before) + [line]) == [V1_HEADER] + LinesOf(before) + [line];
      StepLinesConcat([V1_HEADER] + LinesOf(before), [line], Scan(true, false, []));
      StepLast(line, s');
    }
  }

  lemma NoNewline(line: Text)
    requires IsPlainLine(line)
    ensures NL !in line
  {
  }

  lemma StepLast(line: Text, s: Scan)
    requires HeaderStep(line, s).Ok?
    ensures StepLines([line], s) == HeaderStep(line, s)
  {
    hide HeaderStep;
    assert [line][1..] == [];
  }

  lemma StanzasAreUnique(blocks: seq<Block>, a: seq<Stanza>, b: seq<Stanza>)
    requires AreStanzasOf(blocks, a) && AreStanzasOf(blocks, b)
    ensures a == b
  {
    hide Split, Joined;
    forall i | 0 <= i < |a| ensures a[i] == b[i] {
      assert IsStanzaOf(blocks[i], a[i]) && IsStanzaOf(blocks[i], b[i]);
      var x, y := [a[i].kind] + a[i].args, [b[i].kind] + b[i].args;
      assert x[0] == y[0] && x[1..] == a[i].args && y[1..] == b[i].args;
    }
  }

  /** The lines and the MAC line cut the data as a header does. */
  lemma CutMacLine(data: bytes, p: Parsed, pos: nat)
    requires IsCut(data, p) && pos + 3 == |p.macInput|
    ensures pos + 48 <= |data| && pos + 48 <= MAX_HEADER_BYTES
    ensures var line := data[pos..pos + 47];
      && data[pos..] == line + [NL] + p.payload && NL !in line && DASHES <= line && MacLine(line) == Ok(p.mac)
  {
    var columns := data[pos + 4..pos + 47];
    LettersAndPads(columns);
    hide B64d, IsLetter;
    var line := data[pos..pos + 47];
    assert line[4..] == columns;
    assert line[..3] == data[pos..pos + 3];
    NoNewlineIn(line, columns);
  }

  lemma NoNewlineIn(line: Text, columns: Text)
    requires |line| >= 4 && line[4..] == columns && line[..3] == DASHES && line[3] == SPACE
    requires forall i :: 0 <= i < |columns| ==> IsLetter(columns[i]) || columns[i] == PAD
    ensures NL !in line
  {
    forall i | 0 <= i < |line| ensures line[i] != NL {
      if i < 3 {
        assert line[i] == line[..3][i];
      } else if i > 3 {
        assert line[i] == columns[i - 4];
      }
    }
  }

  lemma HeaderIsAccepted(data: bytes, blocks: seq<Block>, p: Parsed)
    requires IsHeader(data, blocks, p)
    ensures Parse(data) == Ok(p)
  {
    hide IsCut, MacLine, HeaderLine, HeaderStep, LinesOf, Terminated, AreBlocks, AreStanzasOf, StepLines, ArePlain;
    var lines := [V1_HEADER] + LinesOf(blocks);
    var s := HeaderIsRead(blocks);
    StanzasAreUnique(blocks, s.stanzas, p.stanzas);
    var pos := |Terminated(lines)|;
    CutMacLine(data, p, pos);
    CutPrefix(data, p);
    assert data[0..] == data && data == Terminated(lines) + data[pos..];
    ConsumesLines(data, 0, lines, data[pos..], Scan(true, false, []));
    var line := data[pos..pos + 47];
    ReadsLine(data, pos, line, p.payload);
    SomeStanza(blocks, p.stanzas);
    assert p.macInput == data[..pos + 3];
  }

  lemma CutPrefix(data: bytes, p: Parsed)
    requires IsCut(data, p)
    ensures |p.macInput| <= |data| && p.macInput == data[..|p.macInput|]
  {
    hide B64d;
  }

  lemma SomeStanza(blocks: seq<Block>, stanzas: seq<Stanza>)
    requires AreStanzasOf(blocks, stanzas) && blocks != []
    ensures stanzas != []
  {
  }

  /** The parser accepts exactly the headers of the grammar, each with the stanzas of its blocks. */
  lemma ParsesExactlyHeaders(data: bytes, p: Parsed)
    ensures Parse(data) == Ok(p) <==> exists blocks :: IsHeader(data, blocks, p)
  {
    hide Parse, IsHeader;
    if Parse(data) == Ok(p) {
      var blocks := AcceptedIsHeader(data);
      assert IsHeader(data, blocks, p);
    }
    if blocks :| IsHeader(data, blocks, p) {
      HeaderIsAccepted(data, blocks, p);
    }
  }
}
