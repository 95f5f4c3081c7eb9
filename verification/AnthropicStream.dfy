/** The streaming conversion of an OpenAI chunk stream into a Messages event stream. */
module AnthropicStream {
  import opened Wrappers

  /** One tool-call fragment; an absent id, name or argument string is empty. */
  datatype ToolCall = ToolCall(index: int, id: string, name: string, args: string)

  /** One choice's delta; an absent finish reason or content is empty. */
  datatype Choice = Choice(finish: string, content: string, calls: seq<ToolCall>)

  datatype Usage = Usage(prompt: nat, completion: nat)

  datatype Chunk = Chunk(id: Option<string>, model: Option<string>, usage: Option<Usage>, choices: seq<Choice>)

  /** The block a start frame carries; a tool's input as the JSON text the frame holds. */
  datatype StartBlock = TextStart(text: string) | ToolStart(id: string, name: string, input: string)
  datatype DeltaBody = TextDelta(text: string) | JsonDelta(json: string)

  datatype Event =
    | MessageStart(id: string, model: string, inputTokens: nat)
    | Ping
    | Start(index: nat, block: StartBlock)
    | Delta(index: nat, body: DeltaBody)
    | Stop(index: nat)
    /** an absent input count is None */
    | MessageDelta(reason: string, finalInput: Option<nat>, outputTokens: nat)
    | MessageStop

  /** The empty object. */
  const NO_INPUT := "{}"

  /** `stop_reason`. */
  function StopReason(finish: string): string {
    if finish == "stop" then "end_turn"
    else if finish == "length" then "max_tokens"
    else if finish == "tool_calls" || finish == "function_call" then "tool_use"
    else "end_turn"
  }

  function Digits(n: nat): string {
    (if n < 10 then "" else Digits(n / 10)) + [['0', '1', '2', '3', '4', '5', '6', '7', '8', '9'][n % 10]]
  }

  /** The id a tool block gets when its first fragment carries none. */
  function FallbackId(index: int): string {
    "toolu_msks_" + if index < 0 then "-" + Digits(-index) else Digits(index)
  }

  // ---- what the converter does, piece by piece ----

  /** What a chunk stream carries, in order: non-empty text, or a tool-call fragment. */
  datatype Piece = TextPiece(text: string) | CallPiece(call: ToolCall)

  /** The converter's block bookkeeping. */
  datatype Blocks = Blocks(next: nat, open: Option<nat>, text: Option<nat>, tools: map<int, nat>)

  const NO_BLOCKS := Blocks(0, None, None, map[])

  function CloseOpen(b: Blocks): seq<Event> {
    if b.open.None? then [] else [Stop(b.open.value)]
  }

  function Closed(b: Blocks): Blocks {
    if b.open.None? then b else b.(open := None, text := None)
  }

  function TextStep(b: Blocks, text: string): (Blocks, seq<Event>) {
    if b.text.None? then
      (Blocks(b.next + 1, Some(b.next), Some(b.next), b.tools),
       CloseOpen(b) + [Start(b.next, TextStart("")), Delta(b.next, TextDelta(text))])
    else (b, [Delta(b.text.value, TextDelta(text))])
  }

  function Fragment(index: nat, args: string): seq<Event> {
    if args == "" then [] else [Delta(index, JsonDelta(args))]
  }

  function ToolStep(b: Blocks, call: ToolCall): (Blocks, seq<Event>) {
    if call.index in b.tools then (b, Fragment(b.tools[call.index], call.args))
    else
      var id := if call.id == "" then FallbackId(call.index) else call.id;
      (Blocks(b.next + 1, Some(b.next), Closed(b).text, b.tools[call.index := b.next]),
       CloseOpen(b) + [Start(b.next, ToolStart(id, call.name, NO_INPUT))] + Fragment(b.next, call.args))
  }

  function Step(b: Blocks, p: Piece): (Blocks, seq<Event>) {
    match p
    case TextPiece(text) => TextStep(b, text)
    case CallPiece(call) => ToolStep(b, call)
  }

  function RunFrom(b: Blocks, ps: seq<Piece>): (Blocks, seq<Event>) {
    if ps == [] then (b, [])
    else
      var (b1, e1) := RunFrom(b, ps[..|ps| - 1]);
      var (b2, e2) := Step(b1, ps[|ps| - 1]);
      (b2, e1 + e2)
  }

  function CallPieces(calls: seq<ToolCall>): (ps: seq<Piece>)
    ensures |ps| == |calls| && forall i :: 0 <= i < |calls| ==> ps[i] == CallPiece(calls[i])
  {
    seq(|calls|, i requires 0 <= i < |calls| => CallPiece(calls[i]))
  }

  function ChoicePieces(choice: Choice): seq<Piece> {
    (if choice.content == "" then [] else [TextPiece(choice.content)]) + CallPieces(choice.calls)
  }

  function ChoicesPieces(choices: seq<Choice>): seq<Piece> {
    if choices == [] then [] else ChoicesPieces(choices[..|choices| - 1]) + ChoicePieces(choices[|choices| - 1])
  }

  /** The stop reason after some choices: the last finish reason named, else what it was. */
  function StopAfter(stop: string, choices: seq<Choice>): string {
    if choices == [] then stop
    else
      var last := choices[|choices| - 1];
      if last.finish != "" then StopReason(last.finish) else StopAfter(stop, choices[..|choices| - 1])
  }

  /** The whole converter's state. */
  datatype Converter = Converter(
    id: string, model: string, inputTokens: nat, outputTokens: nat, stop: string, blocks: Blocks, started: bool)

  const FRESH := Converter("msg_msks", "", 0, 0, "end_turn", NO_BLOCKS, false)

  function Started(c: Converter, chunk: Chunk): Converter {
    if c.started then c
    else
      c.(id := chunk.id.GetOr(c.id), model := chunk.model.GetOr(c.model),
         inputTokens := if chunk.usage.Some? then chunk.usage.value.prompt else 0, started := true)
  }

  function StartEvents(c: Converter): seq<Event> {
    [MessageStart(c.id, c.model, c.inputTokens), Ping]
  }

  /** `feed`. */
  function Feed(c: Converter, chunk: Chunk): (Converter, seq<Event>) {
    var c1 := Started(c, chunk);
    var (b, events) := RunFrom(c1.blocks, ChoicesPieces(chunk.choices));
    var usage := chunk.usage;
    var tokens := if usage.Some? && usage.value.completion != 0 then usage.value.completion else c.outputTokens;
    (c1.(blocks := b, stop := StopAfter(c1.stop, chunk.choices), outputTokens := tokens),
     (if c.started then [] else StartEvents(c1)) + events)
  }

  /** `finish`: the closing events. */
  function Finish(c: Converter): seq<Event> {
    (if c.started then [] else StartEvents(c)) + CloseOpen(c.blocks)
    + [MessageDelta(c.stop, None, c.outputTokens), MessageStop]
  }

  // ---- the converter as the code has it ----

  class Stream {
    var id: string
    var model: string
    var inputTokens: nat
    var outputTokens: nat
    var stop: string
    var nextIndex: nat
    var openBlock: Option<nat>
    var textIndex: Option<nat>
    var toolIndexes: map<int, nat>
    var started: bool

    ghost function Bookkeeping(): Blocks
      reads this
    {
      Blocks(nextIndex, openBlock, textIndex, toolIndexes)
    }

    ghost function Now(): Converter
      reads this
    {
      Converter(id, model, inputTokens, outputTokens, stop, Bookkeeping(), started)
    }

    constructor ()
      ensures Now() == FRESH
    {
      id, model, inputTokens, outputTokens, stop := "msg_msks", "", 0, 0, "end_turn";
      nextIndex, openBlock, textIndex, toolIndexes, started := 0, None, None, map[], false;
    }

    /** `close_open`. */
    method CloseOpenBlock() returns (events: seq<Event>)
      modifies `openBlock, `textIndex
      ensures events == CloseOpen(old(Bookkeeping()))
      ensures Bookkeeping() == Closed(old(Bookkeeping()))
    {
      if openBlock.None? {
        return [];
      }
      events := [Stop(openBlock.value)];
      openBlock := None;
      textIndex := None;
    }

    /** `text_events`. */
    method TextEvents(text: string) returns (events: seq<Event>)
      modifies `nextIndex, `openBlock, `textIndex
      ensures (Bookkeeping(), events) == TextStep(old(Bookkeeping()), text)
    {
      if textIndex.None? {
        events := CloseOpenBlock();
        textIndex := Some(nextIndex);
        nextIndex := nextIndex + 1;
        openBlock := textIndex;
        events := events + [Start(textIndex.value, TextStart(""))];
      } else {
        events := [];
      }
      events := events + [Delta(textIndex.value, TextDelta(text))];
      assert events == TextStep(old(Bookkeeping()), text).1;
    }

    /** `open_tool_block`. */
    method OpenToolBlock(index: int, call: ToolCall) returns (events: seq<Event>)
      modifies `nextIndex, `openBlock, `textIndex, `toolIndexes
      ensures var i := old(nextIndex);
        Bookkeeping() == Blocks(i + 1, Some(i), Closed(old(Bookkeeping())).text, old(toolIndexes)[index := i])
      ensures events == CloseOpen(old(Bookkeeping()))
        + [Start(old(nextIndex), ToolStart(if call.id == "" then FallbackId(index) else call.id, call.name, NO_INPUT))]
    {
      events := CloseOpenBlock();
      var blockIndex := nextIndex;
      nextIndex := nextIndex + 1;
      toolIndexes := toolIndexes[index := blockIndex];
      openBlock := Some(blockIndex);
      var id := if call.id == "" then FallbackId(index) else call.id;
      events := events + [Start(blockIndex, ToolStart(id, call.name, NO_INPUT))];
    }

    /** `tool_events`, with `fragment_events`. */
    method ToolEvents(call: ToolCall) returns (events: seq<Event>)
      modifies `nextIndex, `openBlock, `textIndex, `toolIndexes
      ensures (Bookkeeping(), events) == ToolStep(old(Bookkeeping()), call)
    {
      events := [];
      if call.index !in toolIndexes {
        events := OpenToolBlock(call.index, call);
      }
      events := events + Fragment(toolIndexes[call.index], call.args);
      assert events == ToolStep(old(Bookkeeping()), call).1;
    }

    /** `delta_events`. */
    method DeltaEvents(choice: Choice) returns (events: seq<Event>)
      modifies `nextIndex, `openBlock, `textIndex, `toolIndexes
      ensures (Bookkeeping(), events) == RunFrom(old(Bookkeeping()), ChoicePieces(choice))
    {
      hide RunFrom, TextStep, ToolStep;
      ghost var b, ps := Bookkeeping(), ChoicePieces(choice);
      var skip := if choice.content == "" then 0 else 1;
      events := [];
      RunNone(b, ps);
      if choice.content != "" {
        var more := TextEvents(choice.content);
        RunNext(b, ps, 0);
        events := events + more;
      }
      for i := 0 to |choice.calls|
        invariant (Bookkeeping(), events) == RunFrom(b, ps[..skip + i])
      {
        var more := ToolEvents(choice.calls[i]);
        assert ps[skip + i] == CallPiece(choice.calls[i]);
        RunNext(b, ps, skip + i);
        events := events + more;
      }
      assert ps[..|ps|] == ps;
    }

    /** `choices_events`, with `choice_events`. */
    method ChoicesEvents(choices: seq<Choice>) returns (events: seq<Event>)
      modifies `nextIndex, `openBlock, `textIndex, `toolIndexes, `stop
      ensures (Bookkeeping(), events) == RunFrom(old(Bookkeeping()), ChoicesPieces(choices))
      ensures stop == StopAfter(old(stop), choices)
    {
      ghost var b, s := Bookkeeping(), stop;
      events := [];
      for i := 0 to |choices|
        invariant (Bookkeeping(), events) == RunFrom(b, ChoicesPieces(choices[..i]))
        invariant stop == StopAfter(s, choices[..i])
      {
        var choice := choices[i];
        assert choices[..i + 1][..i] == choices[..i];
        if choice.finish != "" {
          stop := StopReason(choice.finish);
        }
        var more := DeltaEvents(choice);
        RunConcat(b, ChoicesPieces(choices[..i]), ChoicePieces(choice));
        events := events + more;
      }
      assert choices[..|choices|] == choices;
    }

    /** `feed`, with `start_if_first` and `record_usage`. */
    method FeedChunk(chunk: Chunk) returns (events: seq<Event>)
      modifies this
      ensures (Now(), events) == Feed(old(Now()), chunk)
    {
      events := [];
      if !started {
        id := chunk.id.GetOr(id);
        model := chunk.model.GetOr(model);
        inputTokens := if chunk.usage.Some? then chunk.usage.value.prompt else 0;
        started := true;
        events := [MessageStart(id, model, inputTokens), Ping];
      }
      var more := ChoicesEvents(chunk.choices);
      events := events + more;
      if chunk.usage.Some? && chunk.usage.value.completion != 0 {
        outputTokens := chunk.usage.value.completion;
      }
    }

    /** `finish`. */
    method FinishStream() returns (events: seq<Event>)
      modifies this
      ensures events == Finish(old(Now()))
    {
      events := [];
      if !started {
        started := true;
        events := [MessageStart(id, model, inputTokens), Ping];
      }
      var more := CloseOpenBlock();
      events := events + more + [MessageDelta(stop, None, outputTokens), MessageStop];
    }
  }

  lemma RunNone(b: Blocks, ps: seq<Piece>)
    ensures RunFrom(b, ps[..0]) == (b, [])
  {
  }

  lemma RunNext(b: Blocks, ps: seq<Piece>, i: nat)
    requires i < |ps|
    ensures RunFrom(b, ps[..i + 1]).0 == Step(RunFrom(b, ps[..i]).0, ps[i]).0
    ensures RunFrom(b, ps[..i + 1]).1 == RunFrom(b, ps[..i]).1 + Step(RunFrom(b, ps[..i]).0, ps[i]).1
  {
    assert ps[..i + 1][..i] == ps[..i];
  }

  lemma {:induction false} RunConcat(b: Blocks, ps: seq<Piece>, qs: seq<Piece>)
    ensures RunFrom(b, ps + qs).0 == RunFrom(RunFrom(b, ps).0, qs).0
    ensures RunFrom(b, ps + qs).1 == RunFrom(b, ps).1 + RunFrom(RunFrom(b, ps).0, qs).1
    decreases |qs|
  {
    hide Step;
    if qs == [] {
      assert ps + qs == ps;
    } else {
      var n := |qs| - 1;
      assert (ps + qs)[..|ps| + n] == ps + qs[..n];
      RunConcat(b, ps, qs[..n]);
    }
  }
}
