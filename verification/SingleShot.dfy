/** What the single-shot conversion keeps of an answer, and what a streaming client finishes with, each by the parser
    alone. */
module SingleShot {
  import opened Wrappers
  import opened AnthropicStream
  import opened StreamGrammar
  import opened StreamConservation
  import opened StreamRefinement

  /** `input` is what an arguments string stands for: its parse, that of the empty object's text when there are no
      arguments, and the empty object when the text does not parse. */
  ghost predicate IsInputOf<J(!new)>(parser: Parser<J>, args: string, input: J) {
    var parsed := if args == "" then parser.loads("{}") else parser.loads(args);
    && (forall j :: parsed == Some(j) ==> input == j)
    && (parsed == None ==> input == parser.emptyObject)
  }

  /** The list of positions, in order, that hold text parts. */
  ghost predicate TextPositions(parts: seq<Part>, at: seq<nat>) {
    && (forall k :: 0 <= k < |at| ==> at[k] < |parts| && parts[at[k]].TextPart?)
    && (forall j, k :: 0 <= j < k < |at| ==> at[j] < at[k])
    && forall i :: 0 <= i < |parts| && parts[i].TextPart? ==> i in at
  }

  lemma InputIsParsed<J(!new)>(parser: Parser<J>, args: string)
    ensures IsInputOf(parser, args, Input(parser, args))
  {
  }

  lemma NextPositions(parts: seq<Part>, last: Part, at: seq<nat>)
    requires TextPositions(parts, at)
    ensures TextPositions(parts + [last], at + if last.TextPart? then [|parts|] else [])
  {
    var more := at + if last.TextPart? then [|parts|] else [];
    forall i | 0 <= i <= |parts| && (parts + [last])[i].TextPart? ensures i in more {
      if i < |parts| {
        var k :| 0 <= k < |at| && at[k] == i;
        assert more[k] == i;
      } else {
        assert more[|at|] == i;
      }
    }
  }

  lemma {:induction false} PartsKeepTheirTexts<J>(parts: seq<Part>) returns (at: seq<nat>)
    ensures TextPositions(parts, at) && |PartBlocks<J>(parts)| == |at|
    ensures forall k :: 0 <= k < |at| ==> PartBlocks<J>(parts)[k] == Text(parts[at[k]].text)
  {
    at := [];
    if parts != [] {
      var init, last := parts[..|parts| - 1], parts[|parts| - 1];
      var before := PartsKeepTheirTexts<J>(init);
      assert parts == init + [last];
      NextPositions(init, last, before);
      at := before + if last.TextPart? then [|init|] else [];
      assert forall k :: 0 <= k < |before| ==> at[k] == before[k] && parts[at[k]] == init[at[k]];
    }
  }

  /** After the texts, one tool block for each call, in order, with the call's id and name and its arguments parsed. */
  lemma AnswerKeepsItsCalls<J(!new)>(parser: Parser<J>, r: Response)
    ensures var content, n := OpenaiToAnthropic(parser, r).content, |r.calls|;
      && |content| >= n
      && (forall i :: 0 <= i < |content| - n ==> content[i].Text?)
      && forall j :: 0 <= j < n ==>
        var block, call := content[|content| - n + j], r.calls[j];
        block.ToolUse? && block.id == call.id && block.name == call.name && IsInputOf(parser, call.args, block.input)
  {
    var texts := TextBlocks<J>(r.content);
    TextsAreTexts<J>(r.content);
    var lead := if texts == [] && r.calls == [] then [Text("")] else texts;
    hide Input, IsInputOf, TextBlocks;
    assert OpenaiToAnthropic(parser, r).content == lead + ToolUseBlocks(parser, r.calls);
    forall j | 0 <= j < |r.calls| ensures IsInputOf(parser, r.calls[j].args, Input(parser, r.calls[j].args)) {
      InputIsParsed(parser, r.calls[j].args);
    }
  }

  lemma TextsAreTexts<J>(content: Content)
    ensures forall i :: 0 <= i < |TextBlocks<J>(content)| ==> TextBlocks<J>(content)[i].Text?
  {
    if content.Parts? {
      var at := PartsKeepTheirTexts<J>(content.parts);
    }
  }

  /** The texts: the string unless it is empty, or the text parts in order; one empty text when there would be nothing
      at all. */
  lemma AnswerKeepsItsTexts<J(!new)>(parser: Parser<J>, r: Response) returns (at: seq<nat>)
    ensures var content := OpenaiToAnthropic(parser, r).content;
      var n := |content| - |r.calls|;
      && n >= 0
      && (r.content.Plain? && r.content.text != "" ==> content[..n] == [Text(r.content.text)])
      && (r.content.Parts? ==> TextPositions(r.content.parts, at))
      && (r.content.Parts? && at != [] ==>
        n == |at| && forall k :: 0 <= k < n ==> content[k] == Text(r.content.parts[at[k]].text))
      && ((r.content.Parts? && at == []) || r.content.NoContent? || r.content == Plain("") ==>
        content[..n] == if r.calls == [] then [Text("")] else [])
  {
    at := [];
    if r.content.Parts? {
      at := PartsKeepTheirTexts<J>(r.content.parts);
    }
    hide ToolUseBlock, Input, TextPositions;
    var content := OpenaiToAnthropic(parser, r).content;
    var texts := TextBlocks<J>(r.content);
    if texts != [] || r.calls != [] {
      assert content == texts + ToolUseBlocks(parser, r.calls);
      assert content[..|texts|] == texts;
    }
  }

  /** The head, the counts and the stop reason of the Messages shape. */
  lemma AnswerKeepsItsHead<J(!new)>(parser: Parser<J>, r: Response)
    ensures var m := OpenaiToAnthropic(parser, r);
      && (m.id == if r.id.Some? then r.id.value else "msg_msks")
      && (m.model == if r.model.Some? then r.model.value else "")
      && m.inputTokens == r.prompt && m.outputTokens == r.completion
      && (m.stop == "max_tokens" <==> r.finish == "length")
      && (m.stop == "tool_use" <==> r.finish in ["tool_calls", "function_call"])
      && (m.stop == "end_turn" <==> r.finish !in ["length", "tool_calls", "function_call"])
  {
    hide ContentBlocks;
  }

  // ---- the streaming client ----

  /** However the chunks come, the client finishes with one tool block for each call index: the name and id of the
      first fragment, or an id made up for it, and the parse of all its fragments joined. */
  lemma EveryCallIsDelivered<J(!new)>(parser: Parser<J>, chunks: seq<Chunk>, k: int) returns (i: nat)
    requires k in Indices(Pieces(chunks))
    ensures var content, first := Delivered(parser, chunks).content, FirstCall(Pieces(chunks), k);
      && i < |content| && content[i].ToolUse? && content[i].name == first.name
      && content[i].id == (if first.id != "" then first.id else FallbackId(k))
      && IsInputOf(parser, ArgsOf(Pieces(chunks), k), content[i].input)
  {
    var ps := Pieces(chunks);
    var (b, es) := RunFrom(NO_BLOCKS, ps);
    var head := HeadOf(chunks);
    ClientAtEnd(chunks);
    RunKeepsInv(ps);
    RunHolds(head, ps);
    FirstCallIndex(ps, k);
    InputIsParsed(parser, ArgsOf(ps, k));
    hide RunFrom, Pieces, Indices, OwnerOf, ArgsOf, FirstCall, Whole, ReceiveAll, FallbackId, LastFinish, StopReason,
      LastCompletion, Input, IsInputOf;
    i := b.tools[k];
    assert ReceiveAll(NO_MESSAGE, Whole(chunks)).blocks == ReceiveAll(head, es).blocks;
  }

  lemma {:induction false} FirstCallIndex(ps: seq<Piece>, k: int)
    requires k in Indices(ps)
    ensures FirstCall(ps, k).index == k
  {
    if k in Indices(ps[..|ps| - 1]) {
      FirstCallIndex(ps[..|ps| - 1], k);
    }
  }

  ghost predicate StartsEmpty(e: Event) {
    e.Start? ==> e.block == TextStart("") || (e.block.ToolStart? && e.block.input == "{}")
  }

  lemma {:induction false} RunStartsEmpty(ps: seq<Piece>)
    ensures forall e :: e in RunFrom(NO_BLOCKS, ps).1 ==> StartsEmpty(e)
  {
    if ps != [] {
      var init, last := ps[..|ps| - 1], ps[|ps| - 1];
      RunStartsEmpty(init);
      var b := RunFrom(NO_BLOCKS, init).0;
      assert forall e :: e in Step(b, last).1 ==> StartsEmpty(e);
    }
  }

  /** A streamed block starts empty: its content comes in deltas alone. */
  lemma StreamedBlocksStartEmpty(chunks: seq<Chunk>)
    ensures forall e :: e in Whole(chunks) ==> StartsEmpty(e)
  {
    WholeShape(chunks);
    RunStartsEmpty(Pieces(chunks));
    hide RunFrom, Pieces;
  }

  ghost predicate SaysSomething(e: Event) {
    e.Delta? ==> match e.body case TextDelta(text) => text != "" case JsonDelta(json) => json != ""
  }

  lemma {:induction false} RunSaysSomething(ps: seq<Piece>)
    requires NoEmptyText(ps)
    ensures forall e :: e in RunFrom(NO_BLOCKS, ps).1 ==> SaysSomething(e)
  {
    if ps != [] {
      var init, last := ps[..|ps| - 1], ps[|ps| - 1];
      RunSaysSomething(init);
      var b := RunFrom(NO_BLOCKS, init).0;
      assert forall e :: e in Step(b, last).1 ==> SaysSomething(e);
    }
  }

  /** No delta is empty. */
  lemma StreamedDeltasSaySomething(chunks: seq<Chunk>)
    ensures forall e :: e in Whole(chunks) ==> SaysSomething(e)
  {
    WholeShape(chunks);
    PiecesHaveText(chunks);
    RunSaysSomething(Pieces(chunks));
    hide RunFrom, Pieces, NoEmptyText;
  }

  // ---- made-up ids ----

  /** What a run of decimal digits stands for. */
  function DecimalValue(s: string): int {
    if s == "" then 0 else 10 * DecimalValue(s[..|s| - 1]) + (s[|s| - 1] as int - '0' as int)
  }

  lemma DecimalAppend(s: string, c: char)
    ensures DecimalValue(s + [c]) == 10 * DecimalValue(s) + (c as int - '0' as int)
  {
    assert (s + [c])[..|s|] == s;
  }

  lemma LastDigit(n: nat) returns (c: char)
    ensures Digits(n) == (if n < 10 then "" else Digits(n / 10)) + [c]
    ensures c as int - '0' as int == n % 10 && c != '-'
  {
    c := ['0', '1', '2', '3', '4', '5', '6', '7', '8', '9'][n % 10];
  }

  lemma {:induction false} DigitsAreDecimal(n: nat)
    ensures DecimalValue(Digits(n)) == n && Digits(n) != "" && Digits(n)[0] != '-'
  {
    var c := LastDigit(n);
    var init := if n < 10 then "" else Digits(n / 10);
    hide Digits;
    DecimalAppend(init, c);
    if n >= 10 {
      DigitsAreDecimal(n / 10);
    }
  }

  /** Calls of different indexes never share a made-up id. */
  lemma FallbackIdsAreDistinct(i: int, j: int)
    requires FallbackId(i) == FallbackId(j)
    ensures i == j
  {
    NumeralOf(i);
    NumeralOf(j);
  }

  ghost function SignedValue(s: string): int {
    if s != "" && s[0] == '-' then -DecimalValue(s[1..]) else DecimalValue(s)
  }

  lemma NumeralOf(i: int)
    ensures |FallbackId(i)| >= 11 && FallbackId(i)[..11] == "toolu_msks_" && SignedValue(FallbackId(i)[11..]) == i
  {
    DigitsAreDecimal(if i < 0 then -i else i);
    hide Digits, DecimalValue;
    var numeral := if i < 0 then "-" + Digits(-i) else Digits(i);
    assert FallbackId(i)[11..] == numeral;
    if i < 0 {
      assert numeral[1..] == Digits(-i);
    }
  }
}
