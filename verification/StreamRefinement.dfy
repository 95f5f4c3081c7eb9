/** Streaming against the single-shot conversion: what a client reassembles from the events, and what
    `openai_to_anthropic` makes of the whole answer. */
module StreamRefinement {
  import opened Wrappers
  import opened AnthropicStream
  import opened StreamGrammar
  import opened StreamConservation

  // ---- the single-shot conversion ----

  datatype Call = Call(id: string, name: string, args: string)

  datatype Part = TextPart(text: string) | OtherPart

  /** A message's content: a string, a list of parts, or anything else. */
  datatype Content = Plain(text: string) | Parts(parts: seq<Part>) | NoContent

  /** A whole completion with one choice; an absent finish reason is empty. */
  datatype Response = Response(
    id: Option<string>, model: Option<string>, prompt: nat, completion: nat, finish: string,
    content: Content, calls: seq<Call>)

  /** How an arguments string becomes an input: `None` is a string that does not parse. */
  datatype Parser<J> = Parser(loads: string -> Option<J>, emptyObject: J)

  datatype ContentBlock<J> = Text(text: string) | ToolUse(id: string, name: string, input: J)

  datatype Message<J> = Message(
    id: string, model: string, content: seq<ContentBlock<J>>, stop: string, inputTokens: nat, outputTokens: nat)

  function Input<J>(parser: Parser<J>, args: string): J {
    parser.loads(if args == "" then "{}" else args).GetOr(parser.emptyObject)
  }

  function ToolUseBlock<J>(parser: Parser<J>, call: Call): ContentBlock<J> {
    ToolUse(call.id, call.name, Input(parser, call.args))
  }

  function ToolUseBlocks<J>(parser: Parser<J>, calls: seq<Call>): seq<ContentBlock<J>> {
    seq(|calls|, j requires 0 <= j < |calls| => ToolUseBlock(parser, calls[j]))
  }

  function PartBlocks<J>(parts: seq<Part>): seq<ContentBlock<J>> {
    if parts == [] then []
    else
      var last := parts[|parts| - 1];
      PartBlocks(parts[..|parts| - 1]) + if last.TextPart? then [Text(last.text)] else []
  }

  function TextBlocks<J>(content: Content): seq<ContentBlock<J>> {
    match content
    case Plain(text) => if text == "" then [] else [Text(text)]
    case Parts(parts) => PartBlocks(parts)
    case NoContent => []
  }

  /** `content_blocks`: never empty, as the Messages shape requires. */
  function ContentBlocks<J>(parser: Parser<J>, content: Content, calls: seq<Call>): (blocks: seq<ContentBlock<J>>)
    ensures blocks != []
  {
    var blocks := TextBlocks(content) + ToolUseBlocks(parser, calls);
    if blocks == [] then [Text("")] else blocks
  }

  function OpenaiToAnthropic<J>(parser: Parser<J>, r: Response): Message<J> {
    Message(r.id.GetOr("msg_msks"), r.model.GetOr(""), ContentBlocks(parser, r.content, r.calls), StopReason(r.finish),
            r.prompt, r.completion)
  }

  // ---- the whole answer some chunks are pieces of ----

  /** The first fragment of tool index `k`: the one that names the call. */
  function FirstCall(ps: seq<Piece>, k: int): ToolCall
    requires k in Indices(ps)
  {
    var init, last := ps[..|ps| - 1], ps[|ps| - 1];
    if k in Indices(init) then FirstCall(init, k) else last.call
  }

  /** The tool indices in order of first appearance. */
  function Order(ps: seq<Piece>): (order: seq<int>)
    ensures forall k :: k in order <==> k in Indices(ps)
  {
    if ps == [] then []
    else
      var init, last := ps[..|ps| - 1], ps[|ps| - 1];
      Order(init) + if last.CallPiece? && last.call.index !in Indices(init) then [last.call.index] else []
  }

  function CallOf(ps: seq<Piece>, k: int): Call
    requires k in Indices(ps)
  {
    Call(FirstCall(ps, k).id, FirstCall(ps, k).name, ArgsOf(ps, k))
  }

  function CallsOf(ps: seq<Piece>): (calls: seq<Call>)
    ensures |calls| == |Order(ps)|
    ensures forall j :: 0 <= j < |calls| ==> calls[j] == CallOf(ps, Order(ps)[j])
  {
    seq(|Order(ps)|, j requires 0 <= j < |Order(ps)| => CallOf(ps, Order(ps)[j]))
  }

  /** The last finish reason some choices name, if any. */
  function FinishOf(choices: seq<Choice>): string {
    if choices == [] then ""
    else if choices[|choices| - 1].finish != "" then choices[|choices| - 1].finish
    else FinishOf(choices[..|choices| - 1])
  }

  function LastFinish(chunks: seq<Chunk>): string {
    if chunks == [] then ""
    else
      var finish := FinishOf(chunks[|chunks| - 1].choices);
      if finish != "" then finish else LastFinish(chunks[..|chunks| - 1])
  }

  /** The last output count that says anything. */
  function LastCompletion(chunks: seq<Chunk>): nat {
    if chunks == [] then 0
    else
      var usage := chunks[|chunks| - 1].usage;
      if usage.Some? && usage.value.completion != 0 then usage.value.completion
      else LastCompletion(chunks[..|chunks| - 1])
  }

  /** The prompt count of the last usage reported. */
  function LastPrompt(chunks: seq<Chunk>): nat {
    if chunks == [] then 0
    else
      var usage := chunks[|chunks| - 1].usage;
      if usage.Some? then usage.value.prompt else LastPrompt(chunks[..|chunks| - 1])
  }

  /** The prompt count the first chunk carries, which the frame is sent with. */
  function FirstPrompt(chunks: seq<Chunk>): nat {
    if chunks != [] && chunks[0].usage.Some? then chunks[0].usage.value.prompt else 0
  }

  function Assembled(chunks: seq<Chunk>): Response {
    Response(
      if chunks == [] then None else chunks[0].id, if chunks == [] then None else chunks[0].model,
      LastPrompt(chunks), LastCompletion(chunks), LastFinish(chunks), Plain(TextOf(Pieces(chunks))),
      CallsOf(Pieces(chunks)))
  }

  // ---- the client ----

  datatype Block = TextBlock(text: string) | ToolBlock(id: string, name: string, json: string)

  datatype Client = Client(
    id: string, model: string, blocks: seq<Block>, stop: string, inputTokens: nat, outputTokens: nat)

  const NO_MESSAGE := Client("", "", [], "", 0, 0)

  function Opened(block: StartBlock): Block {
    match block
    case TextStart(text) => TextBlock(text)
    case ToolStart(id, name, _) => ToolBlock(id, name, "")
  }

  function Extended(block: Block, delta: DeltaBody): Block {
    match (block, delta)
    case (TextBlock(text), TextDelta(more)) => TextBlock(text + more)
    case (ToolBlock(id, name, json), JsonDelta(more)) => ToolBlock(id, name, json + more)
    case _ => block
  }

  /** A Messages client: a start appends the block it announces, a delta extends the block it names. */
  function Receive(c: Client, e: Event): Client {
    match e
    case MessageStart(id, model, tokens) => c.(id := id, model := model, inputTokens := tokens)
    case Start(i, block) => if i == |c.blocks| then c.(blocks := c.blocks + [Opened(block)]) else c
    case Delta(i, body) => if i < |c.blocks| then c.(blocks := c.blocks[i := Extended(c.blocks[i], body)]) else c
    case MessageDelta(reason, input, output) =>
      c.(stop := reason, inputTokens := input.GetOr(c.inputTokens), outputTokens := output)
    case _ => c
  }

  function ReceiveAll(c: Client, es: seq<Event>): Client {
    if es == [] then c else Receive(ReceiveAll(c, es[..|es| - 1]), es[|es| - 1])
  }

  function Finished<J>(parser: Parser<J>, block: Block): ContentBlock<J> {
    match block
    case TextBlock(text) => Text(text)
    case ToolBlock(id, name, json) => ToolUse(id, name, Input(parser, json))
  }

  function Contents<J>(parser: Parser<J>, blocks: seq<Block>): seq<ContentBlock<J>> {
    seq(|blocks|, i requires 0 <= i < |blocks| => Finished(parser, blocks[i]))
  }

  /** The message a client holds once the stream of `chunks` has ended. */
  function Delivered<J>(parser: Parser<J>, chunks: seq<Chunk>): Message<J> {
    var c := ReceiveAll(NO_MESSAGE, Whole(chunks));
    Message(c.id, c.model, Contents(parser, c.blocks), c.stop, c.inputTokens, c.outputTokens)
  }

  // ---- what one piece does to the client ----

  lemma {:induction false} ReceiveConcat(c: Client, a: seq<Event>, b: seq<Event>)
    ensures ReceiveAll(c, a + b) == ReceiveAll(ReceiveAll(c, a), b)
    decreases |b|
  {
    hide Receive;
    if b == [] {
      assert a + b == a;
    } else {
      var init, last := b[..|b| - 1], b[|b| - 1];
      ReceiveConcat(c, a, init);
      assert (a + b)[..|a + b| - 1] == a + init;
    }
  }

  lemma ReceiveOne(c: Client, e: Event)
    ensures ReceiveAll(c, [e]) == Receive(c, e)
  {
    assert |[e][..0]| == 0;
  }

  lemma ReceiveClose(c: Client, b: Blocks)
    ensures ReceiveAll(c, CloseOpen(b)) == c
  {
    if b.open.Some? {
      ReceiveOne(c, Stop(b.open.value));
    }
  }

  lemma ReceiveFragment(c: Client, i: nat, args: string)
    requires i < |c.blocks| && c.blocks[i].ToolBlock?
    ensures var t := c.blocks[i];
      ReceiveAll(c, Fragment(i, args)) == c.(blocks := c.blocks[i := ToolBlock(t.id, t.name, t.json + args)])
  {
    var t := c.blocks[i];
    if args == "" {
      assert t.json + args == t.json;
      assert c.blocks[i := t] == c.blocks;
    } else {
      ReceiveOne(c, Delta(i, JsonDelta(args)));
    }
  }

  lemma ReplaceLast(blocks: seq<Block>, x: Block, y: Block)
    ensures (blocks + [x])[|blocks| := y] == blocks + [y]
  {
  }

  lemma ReceiveText(c: Client, b: Blocks, text: string)
    requires |c.blocks| == b.next
    requires b.text.Some? ==> b.text.value < b.next && c.blocks[b.text.value].TextBlock?
    ensures ReceiveAll(c, TextStep(b, text).1)
         == if b.text.None? then c.(blocks := c.blocks + [TextBlock(text)])
            else c.(blocks := c.blocks[b.text.value := TextBlock(c.blocks[b.text.value].text + text)])
  {
    hide ReceiveAll;
    if b.text.None? {
      var s, d := Start(b.next, TextStart("")), Delta(b.next, TextDelta(text));
      assert [s] + [d] == [s, d];
      ReceiveConcat(c, CloseOpen(b), [s, d]);
      ReceiveClose(c, b);
      ReceiveConcat(c, [s], [d]);
      ReceiveOne(c, s);
      ReceiveOne(Receive(c, s), d);
      assert "" + text == text;
      ReplaceLast(c.blocks, TextBlock(""), TextBlock(text));
    } else {
      ReceiveOne(c, Delta(b.text.value, TextDelta(text)));
    }
  }

  /** The id a client sees for a call. */
  function IdOf(call: ToolCall): string {
    if call.id == "" then FallbackId(call.index) else call.id
  }

  lemma ReceiveNewTool(c: Client, b: Blocks, call: ToolCall)
    requires |c.blocks| == b.next && call.index !in b.tools
    ensures ReceiveAll(c, ToolStep(b, call).1) == c.(blocks := c.blocks + [ToolBlock(IdOf(call), call.name, call.args)])
  {
    hide ReceiveAll, FallbackId;
    var s := Start(b.next, ToolStart(IdOf(call), call.name, NO_INPUT));
    ReceiveConcat(c, CloseOpen(b) + [s], Fragment(b.next, call.args));
    ReceiveConcat(c, CloseOpen(b), [s]);
    ReceiveClose(c, b);
    ReceiveOne(c, s);
    ReceiveFragment(Receive(c, s), b.next, call.args);
    assert "" + call.args == call.args;
    ReplaceLast(c.blocks, ToolBlock(IdOf(call), call.name, ""), ToolBlock(IdOf(call), call.name, call.args));
  }

  // ---- what the client holds after some pieces ----

  function BlockOf(ps: seq<Piece>, k: int): Block
    requires k in Indices(ps)
  {
    ToolBlock(IdOf(FirstCall(ps, k)), FirstCall(ps, k).name, ArgsOf(ps, k))
  }

  ghost predicate Holds(c: Client, b: Blocks, ps: seq<Piece>) {
    && |c.blocks| == b.next
    && (b.text.Some? ==> b.text.value < b.next && c.blocks[b.text.value].TextBlock?)
    && forall k :: k in b.tools ==> k in Indices(ps) && b.tools[k] < b.next && c.blocks[b.tools[k]] == BlockOf(ps, k)
  }

  lemma NextBlock(ps: seq<Piece>, p: Piece, k: int)
    requires k in Indices(ps + [p])
    ensures k in Indices(ps) || (p.CallPiece? && p.call.index == k)
    ensures FirstCall(ps + [p], k) == if k in Indices(ps) then FirstCall(ps, k) else p.call
    ensures ArgsOf(ps + [p], k) == ArgsOf(ps, k) + if p.CallPiece? && p.call.index == k then p.call.args else ""
  {
    assert (ps + [p])[..|ps|] == ps;
  }

  lemma TextHolds(c: Client, b: Blocks, ps: seq<Piece>, text: string)
    requires Inv(b, ps) && Holds(c, b, ps)
    ensures Holds(ReceiveAll(c, TextStep(b, text).1), TextStep(b, text).0, ps + [TextPiece(text)])
  {
    hide Indices, OwnerOf, ReceiveAll, ArgsOf, FirstCall, IdOf;
    ReceiveText(c, b, text);
    NextOwner(ps, TextPiece(text));
    var p := TextPiece(text);
    forall k | k in b.tools ensures k in Indices(ps + [p]) && BlockOf(ps + [p], k) == BlockOf(ps, k) {
      NextBlock(ps, p, k);
    }
  }

  lemma NewToolHolds(c: Client, b: Blocks, ps: seq<Piece>, call: ToolCall)
    requires Inv(b, ps) && Holds(c, b, ps) && call.index !in b.tools
    ensures Holds(ReceiveAll(c, ToolStep(b, call).1), ToolStep(b, call).0, ps + [CallPiece(call)])
  {
    hide Indices, OwnerOf, ReceiveAll, ArgsOf, FirstCall, IdOf, FallbackId;
    var p := CallPiece(call);
    ReceiveNewTool(c, b, call);
    NextOwner(ps, p);
    ArgsOfStranger(ps, call.index);
    forall k | k in b.tools || k == call.index
      ensures k in Indices(ps + [p])
      ensures BlockOf(ps + [p], k)
           == if k in b.tools then BlockOf(ps, k) else ToolBlock(IdOf(call), call.name, call.args)
    {
      NextBlock(ps, p, k);
    }
  }

  lemma KnownToolHolds(c: Client, b: Blocks, ps: seq<Piece>, call: ToolCall)
    requires Inv(b, ps) && Holds(c, b, ps) && call.index in b.tools
    ensures Holds(ReceiveAll(c, ToolStep(b, call).1), ToolStep(b, call).0, ps + [CallPiece(call)])
  {
    hide Indices, OwnerOf, ReceiveAll, ArgsOf, FirstCall, IdOf;
    var p := CallPiece(call);
    ReceiveFragment(c, b.tools[call.index], call.args);
    NextOwner(ps, p);
    forall k | k in b.tools
      ensures k in Indices(ps + [p])
      ensures k != call.index ==> BlockOf(ps + [p], k) == BlockOf(ps, k)
      ensures BlockOf(ps + [p], k).json == BlockOf(ps, k).json + if k == call.index then call.args else ""
      ensures BlockOf(ps + [p], k).id == BlockOf(ps, k).id && BlockOf(ps + [p], k).name == BlockOf(ps, k).name
    {
      NextBlock(ps, p, k);
    }
  }

  lemma {:induction false} RunHolds(c: Client, ps: seq<Piece>)
    requires c.blocks == []
    ensures var (b, es) := RunFrom(NO_BLOCKS, ps); Holds(ReceiveAll(c, es), b, ps)
  {
    if ps != [] {
      var init, last := ps[..|ps| - 1], ps[|ps| - 1];
      RunHolds(c, init);
      RunKeepsInv(init);
      assert ps == init + [last];
      hide Holds, Inv, TextStep, ToolStep, ReceiveAll;
      var (b, es) := RunFrom(NO_BLOCKS, init);
      ReceiveConcat(c, es, Step(b, last).1);
      var c' := ReceiveAll(c, es);
      match last
      case TextPiece(text) => TextHolds(c', b, init, text);
      case CallPiece(call) =>
        if call.index in b.tools {
          KnownToolHolds(c', b, init, call);
        } else {
          NewToolHolds(c', b, init, call);
        }
    }
  }

  // ---- text before calls ----

  /** No text piece comes after a call piece. */
  ghost predicate TextFirst(ps: seq<Piece>) {
    forall i, j :: 0 <= i < j < |ps| && ps[i].CallPiece? ==> ps[j].CallPiece?
  }

  ghost predicate NoEmptyText(ps: seq<Piece>) {
    forall i :: 0 <= i < |ps| && ps[i].TextPiece? ==> ps[i].text != ""
  }

  lemma {:induction false} AnyCall(ps: seq<Piece>) returns (i: nat)
    requires Indices(ps) != {}
    ensures i < |ps| && ps[i].CallPiece?
  {
    var n := |ps| - 1;
    if ps[n].CallPiece? {
      i := n;
    } else {
      i := AnyCall(ps[..n]);
    }
  }

  lemma {:induction false} CallIsIndexed(ps: seq<Piece>, i: nat)
    requires i < |ps| && ps[i].CallPiece?
    ensures ps[i].call.index in Indices(ps)
  {
    if i < |ps| - 1 {
      CallIsIndexed(ps[..|ps| - 1], i);
    }
  }

  lemma TextFirstNext(ps: seq<Piece>, p: Piece)
    ensures TextFirst(ps + [p]) <==> TextFirst(ps) && (p.TextPiece? ==> Indices(ps) == {})
  {
    hide Indices;
    var qs := ps + [p];
    assert forall i :: 0 <= i < |ps| ==> qs[i] == ps[i];
    if Indices(ps) != {} {
      var i := AnyCall(ps);
      assert qs[i].CallPiece? && qs[|ps|] == p;
    }
    if TextFirst(ps) && !TextFirst(qs) {
      var i, j :| 0 <= i < j < |qs| && qs[i].CallPiece? && !qs[j].CallPiece?;
      CallIsIndexed(ps, i);
    }
  }

  lemma {:induction false} OwnerWhenTextFirst(ps: seq<Piece>)
    requires TextFirst(ps) && NoEmptyText(ps)
    ensures Indices(ps) != {} ==> OwnerOf(ps).ToolOwner?
    ensures Indices(ps) == {} && ps != [] ==> OwnerOf(ps) == TextOwner && TextOf(ps) != ""
  {
    if ps != [] {
      var init, last := ps[..|ps| - 1], ps[|ps| - 1];
      assert ps == init + [last];
      TextFirstNext(init, last);
      OwnerWhenTextFirst(init);
    }
  }

  function Lead(ps: seq<Piece>): nat {
    if TextOf(ps) == "" then 0 else 1
  }

  /** The client's blocks are the text, if any, and then the calls in order of appearance. */
  ghost predicate InOrder(c: Client, b: Blocks, ps: seq<Piece>) {
    && |c.blocks| == b.next == Lead(ps) + |Order(ps)|
    && (forall j :: 0 <= j < |Order(ps)| ==> Order(ps)[j] in b.tools && b.tools[Order(ps)[j]] == Lead(ps) + j)
    && (TextOf(ps) != "" ==> c.blocks[0] == TextBlock(TextOf(ps)))
  }

  ghost predicate HasLateText(blocks: seq<Block>) {
    exists i :: 0 < i < |blocks| && blocks[i].TextBlock?
  }

  ghost predicate Laid(c: Client, b: Blocks, ps: seq<Piece>) {
    if TextFirst(ps) then InOrder(c, b, ps) else HasLateText(c.blocks)
  }

  lemma NextOrder(ps: seq<Piece>, p: Piece)
    ensures Order(ps + [p]) == Order(ps) + if p.CallPiece? && p.call.index !in Indices(ps) then [p.call.index] else []
  {
    assert (ps + [p])[..|ps|] == ps;
  }

  lemma LateTextStays(blocks: seq<Block>, i: nat, y: Block, x: Block)
    requires HasLateText(blocks)
    ensures HasLateText(blocks + [x])
    ensures i < |blocks| && y.TextBlock? == blocks[i].TextBlock? ==> HasLateText(blocks[i := y])
  {
    var n :| 0 < n < |blocks| && blocks[n].TextBlock?;
    assert (blocks + [x])[n] == blocks[n];
    if i < |blocks| && y.TextBlock? == blocks[i].TextBlock? {
      assert blocks[i := y][n].TextBlock?;
    }
  }

  lemma TextLaid(c: Client, b: Blocks, ps: seq<Piece>, text: string)
    requires text != "" && NoEmptyText(ps)
    requires Inv(b, ps) && Holds(c, b, ps) && Laid(c, b, ps)
    ensures Laid(ReceiveAll(c, TextStep(b, text).1), TextStep(b, text).0, ps + [TextPiece(text)])
  {
    TextFirstNext(ps, TextPiece(text));
    hide OwnerOf, Inv, Holds, InOrder, ReceiveAll, TextFirst, HasLateText, TextStep;
    if TextFirst(ps) && Indices(ps) == {} {
      FirstTextLaid(c, b, ps, text);
    } else {
      LateTextLaid(c, b, ps, text);
    }
  }

  lemma FirstTextLaid(c: Client, b: Blocks, ps: seq<Piece>, text: string)
    requires text != "" && NoEmptyText(ps) && TextFirst(ps) && Indices(ps) == {}
    requires Inv(b, ps) && Holds(c, b, ps) && InOrder(c, b, ps)
    ensures InOrder(ReceiveAll(c, TextStep(b, text).1), TextStep(b, text).0, ps + [TextPiece(text)])
  {
    ReceiveText(c, b, text);
    NextText(ps, TextPiece(text), 0);
    NextOrder(ps, TextPiece(text));
    NoOrder(ps);
    OnlyTextSoFar(b, ps);
    hide Inv, Holds, ReceiveAll, TextFirst, NoEmptyText, Order, TextOf, Indices;
    assert "" + text == text;
  }

  lemma OnlyTextSoFar(b: Blocks, ps: seq<Piece>)
    requires NoEmptyText(ps) && TextFirst(ps) && Indices(ps) == {} && Inv(b, ps)
    ensures if TextOf(ps) == "" then ps == [] && b.next == 0 && b.text == None
            else b.text == Some(b.next - 1)
  {
    OwnerWhenTextFirst(ps);
    NoText();
    hide TextFirst, NoEmptyText, Indices, TextOf;
  }

  lemma LateTextLaid(c: Client, b: Blocks, ps: seq<Piece>, text: string)
    requires text != "" && NoEmptyText(ps) && !(TextFirst(ps) && Indices(ps) == {})
    requires Inv(b, ps) && Holds(c, b, ps) && Laid(c, b, ps)
    ensures HasLateText(ReceiveAll(c, TextStep(b, text).1).blocks)
  {
    ReceiveText(c, b, text);
    hide OwnerOf, ReceiveAll, TextFirst, NoEmptyText, Order, TextOf, BlockOf, Indices, HasLateText;
    if TextFirst(ps) {
      OwnerWhenTextFirst(ps);
      LateText(c.blocks, text);
    } else {
      LateTextStays(c.blocks, 0, TextBlock(text), TextBlock(text));
      if b.text.Some? {
        LateTextStays(c.blocks, b.text.value, TextBlock(c.blocks[b.text.value].text + text), TextBlock(text));
      }
    }
  }

  lemma NoOrder(ps: seq<Piece>)
    requires Indices(ps) == {}
    ensures Order(ps) == []
  {
    if ps != [] {
      NoOrder(ps[..|ps| - 1]);
    }
  }

  lemma NoText()
    ensures TextOf([]) == ""
  {
  }

  lemma LateText(blocks: seq<Block>, text: string)
    requires |blocks| > 0
    ensures HasLateText(blocks + [TextBlock(text)])
  {
    assert (blocks + [TextBlock(text)])[|blocks|].TextBlock?;
  }

  lemma NewToolLaid(c: Client, b: Blocks, ps: seq<Piece>, call: ToolCall)
    requires Inv(b, ps) && Holds(c, b, ps) && Laid(c, b, ps) && call.index !in b.tools
    ensures Laid(ReceiveAll(c, ToolStep(b, call).1), ToolStep(b, call).0, ps + [CallPiece(call)])
  {
    hide OwnerOf, ReceiveAll, TextFirst, TextOf, Indices, ArgsOf, IdOf, FallbackId, Order, BlockOf;
    ReceiveNewTool(c, b, call);
    TextFirstNext(ps, CallPiece(call));
    NextText(ps, CallPiece(call), 0);
    NextOrder(ps, CallPiece(call));
    if !TextFirst(ps) {
      var x := ToolBlock(IdOf(call), call.name, call.args);
      LateTextStays(c.blocks, 0, x, x);
    }
  }

  lemma KnownToolLaid(c: Client, b: Blocks, ps: seq<Piece>, call: ToolCall)
    requires Inv(b, ps) && Holds(c, b, ps) && Laid(c, b, ps) && call.index in b.tools
    ensures Laid(ReceiveAll(c, ToolStep(b, call).1), ToolStep(b, call).0, ps + [CallPiece(call)])
  {
    hide OwnerOf, ReceiveAll, TextFirst, TextOf, Indices, ArgsOf, IdOf, FirstCall, Order;
    var i := b.tools[call.index];
    ReceiveFragment(c, i, call.args);
    TextFirstNext(ps, CallPiece(call));
    NextText(ps, CallPiece(call), 0);
    NextOrder(ps, CallPiece(call));
    if TextFirst(ps) {
      assert call.index in Order(ps);
      var j :| 0 <= j < |Order(ps)| && Order(ps)[j] == call.index;
      assert i == Lead(ps) + j;
    } else {
      var t := c.blocks[i];
      LateTextStays(c.blocks, i, ToolBlock(t.id, t.name, t.json + call.args), t);
    }
  }

  lemma StepLaid(c: Client, b: Blocks, ps: seq<Piece>, p: Piece)
    requires NoEmptyText(ps + [p])
    requires Inv(b, ps) && Holds(c, b, ps) && Laid(c, b, ps)
    ensures Laid(ReceiveAll(c, Step(b, p).1), Step(b, p).0, ps + [p])
  {
    hide Holds, Laid, Inv, TextStep, ToolStep, ReceiveAll;
    var qs := ps + [p];
    assert forall i :: 0 <= i < |ps| ==> qs[i] == ps[i];
    assert qs[|ps|] == p;
    match p
    case TextPiece(text) => TextLaid(c, b, ps, text);
    case CallPiece(call) =>
      if call.index in b.tools {
        KnownToolLaid(c, b, ps, call);
      } else {
        NewToolLaid(c, b, ps, call);
      }
  }

  lemma {:induction false} RunLaid(c: Client, ps: seq<Piece>)
    requires c.blocks == [] && NoEmptyText(ps)
    ensures var (b, es) := RunFrom(NO_BLOCKS, ps); Laid(ReceiveAll(c, es), b, ps)
  {
    hide Holds, Laid, Inv, Step, ReceiveAll;
    if ps == [] {
      NothingLaid(c);
    } else {
      var init, last := ps[..|ps| - 1], ps[|ps| - 1];
      assert ps == init + [last];
      RunLaid(c, init);
      RunHolds(c, init);
      RunKeepsInv(init);
      var (b, es) := RunFrom(NO_BLOCKS, init);
      ReceiveConcat(c, es, Step(b, last).1);
      StepLaid(ReceiveAll(c, es), b, init, last);
    }
  }

  lemma NothingLaid(c: Client)
    requires c.blocks == []
    ensures Laid(ReceiveAll(c, []), NO_BLOCKS, [])
  {
  }

  // ---- the blocks of the two conversions ----

  /** Every call's first fragment carries an id. */
  ghost predicate CallsAreNamed(ps: seq<Piece>) {
    forall k :: k in Indices(ps) ==> FirstCall(ps, k).id != ""
  }

  lemma FallbackIdIsNotEmpty(call: ToolCall)
    ensures IdOf(call) == call.id <==> call.id != ""
  {
  }

  lemma WhereBlocksAre<J>(parser: Parser<J>, text: string, calls: seq<Call>)
    requires text != "" || calls != []
    ensures var lead := if text == "" then 0 else 1;
      var blocks := ContentBlocks(parser, Plain(text), calls);
      && |blocks| == lead + |calls|
      && (text != "" ==> blocks[0] == Text(text))
      && forall j :: 0 <= j < |calls| ==> blocks[lead + j] == ToolUseBlock(parser, calls[j])
  {
    hide ToolUseBlock;
  }

  lemma LateTextIsNeverSingleShot<J>(parser: Parser<J>, blocks: seq<Block>, text: string, calls: seq<Call>)
    requires HasLateText(blocks)
    ensures Contents(parser, blocks) != ContentBlocks(parser, Plain(text), calls)
  {
    var i :| 0 < i < |blocks| && blocks[i].TextBlock?;
    assert Contents(parser, blocks)[i].Text?;
    if text != "" || calls != [] {
      WhereBlocksAre(parser, text, calls);
    }
  }

  lemma CallBlocksAgree<J>(parser: Parser<J>, ps: seq<Piece>, k: int)
    requires k in Indices(ps)
    ensures Finished(parser, BlockOf(ps, k)) == ToolUseBlock(parser, CallOf(ps, k)) <==> FirstCall(ps, k).id != ""
  {
    hide Indices, ArgsOf, FirstCall, Input, IdOf;
    FallbackIdIsNotEmpty(FirstCall(ps, k));
  }

  /** Which calls, in order of appearance, carry an id. */
  ghost function NamedAt(ps: seq<Piece>): (named: seq<bool>)
    ensures |named| == |Order(ps)|
    ensures forall j :: 0 <= j < |named| ==> named[j] == (FirstCall(ps, Order(ps)[j]).id != "")
  {
    seq(|Order(ps)|, j requires 0 <= j < |Order(ps)| => FirstCall(ps, Order(ps)[j]).id != "")
  }

  /** Two lists agree up to `lead`, and after it exactly where `named` holds. */
  ghost predicate AgreeWhere<B(!new)>(here: seq<B>, there: seq<B>, lead: nat, named: seq<bool>) {
    && |here| == |there| == lead + |named|
    && (forall i :: 0 <= i < lead ==> here[i] == there[i])
    && forall j :: 0 <= j < |named| ==> (here[lead + j] == there[lead + j] <==> named[j])
  }

  lemma AgreeEverywhere<B(!new)>(here: seq<B>, there: seq<B>, lead: nat, named: seq<bool>)
    requires AgreeWhere(here, there, lead, named)
    ensures here == there <==> false !in named
  {
    if here == there {
      forall j | 0 <= j < |named| ensures named[j] {
        assert here[lead + j] == there[lead + j];
      }
    } else if false !in named {
      forall i | 0 <= i < |here| ensures here[i] == there[i] {
        if i >= lead {
          assert named[i - lead] in named;
          assert here[lead + (i - lead)] == there[lead + (i - lead)];
        }
      }
      assert false;
    }
  }

  lemma OrderedBlocks<J(!new)>(parser: Parser<J>, c: Client, b: Blocks, ps: seq<Piece>)
    requires TextOf(ps) != "" || Order(ps) != []
    requires Holds(c, b, ps) && InOrder(c, b, ps)
    ensures AgreeWhere(
      Contents(parser, c.blocks), ContentBlocks(parser, Plain(TextOf(ps)), CallsOf(ps)), Lead(ps), NamedAt(ps))
  {
    hide Indices, TextOf, Order, BlockOf, CallOf, ContentBlocks, Finished, ToolUseBlock, FirstCall;
    var order, text, calls, lead := Order(ps), TextOf(ps), CallsOf(ps), Lead(ps);
    WhereBlocksAre(parser, text, calls);
    var here, there := Contents(parser, c.blocks), ContentBlocks(parser, Plain(text), calls);
    forall j | 0 <= j < |order|
      ensures here[lead + j] == there[lead + j] <==> FirstCall(ps, order[j]).id != ""
    {
      CallBlocksAgree(parser, ps, order[j]);
    }
    LeadAgrees(parser, c, ps);
  }

  lemma SomethingIsSaid(ps: seq<Piece>)
    requires NoEmptyText(ps) && ps != [] && TextFirst(ps)
    ensures TextOf(ps) != "" || Order(ps) != []
  {
    OwnerWhenTextFirst(ps);
    hide *;
    if Indices(ps) != {} {
      var k :| k in Indices(ps);
      assert k in Order(ps);
    }
  }

  lemma NamedWhereNamed(ps: seq<Piece>)
    ensures CallsAreNamed(ps) <==> false !in NamedAt(ps)
  {
    hide Order, Indices, FirstCall, NamedAt;
    var named, order := NamedAt(ps), Order(ps);
    if CallsAreNamed(ps) {
      forall j | 0 <= j < |named| ensures named[j] {
        assert order[j] in order;
      }
    } else {
      var k :| k in Indices(ps) && FirstCall(ps, k).id == "";
      assert k in order;
      var j :| 0 <= j < |order| && order[j] == k;
      assert !named[j];
    }
  }

  /** In order, the two contents are equal exactly when every call has an id. */
  lemma OrderedBlocksAgree<J(!new)>(parser: Parser<J>, c: Client, b: Blocks, ps: seq<Piece>)
    requires NoEmptyText(ps) && ps != [] && TextFirst(ps)
    requires Holds(c, b, ps) && InOrder(c, b, ps)
    ensures Contents(parser, c.blocks) == ContentBlocks(parser, Plain(TextOf(ps)), CallsOf(ps)) <==> CallsAreNamed(ps)
  {
    SomethingIsSaid(ps);
    hide *;
    OrderedBlocks(parser, c, b, ps);
    NamedWhereNamed(ps);
    AgreeEverywhere(
      Contents(parser, c.blocks), ContentBlocks(parser, Plain(TextOf(ps)), CallsOf(ps)), Lead(ps), NamedAt(ps));
  }

  lemma LeadAgrees<J>(parser: Parser<J>, c: Client, ps: seq<Piece>)
    requires TextOf(ps) != "" ==> c.blocks != [] && c.blocks[0] == TextBlock(TextOf(ps))
    ensures TextOf(ps) != "" ==> Contents(parser, c.blocks)[0] == Text(TextOf(ps))
  {
  }

  lemma BlocksAgree<J(!new)>(parser: Parser<J>, c: Client, b: Blocks, ps: seq<Piece>)
    requires NoEmptyText(ps) && Inv(b, ps) && Holds(c, b, ps) && Laid(c, b, ps)
    ensures Contents(parser, c.blocks) == ContentBlocks(parser, Plain(TextOf(ps)), CallsOf(ps))
       <==> ps != [] && TextFirst(ps) && CallsAreNamed(ps)
  {
    if ps == [] {
    } else if TextFirst(ps) {
      OrderedBlocksAgree(parser, c, b, ps);
    } else {
      LateTextIsNeverSingleShot(parser, c.blocks, TextOf(ps), CallsOf(ps));
    }
  }

  // ---- whole streams ----

  lemma {:induction false} PiecesHaveText(chunks: seq<Chunk>)
    ensures NoEmptyText(Pieces(chunks))
  {
    if chunks != [] {
      PiecesHaveText(chunks[..|chunks| - 1]);
      ChoicesHaveText(chunks[|chunks| - 1].choices);
    }
  }

  lemma {:induction false} ChoicesHaveText(choices: seq<Choice>)
    ensures NoEmptyText(ChoicesPieces(choices))
  {
    if choices != [] {
      ChoicesHaveText(choices[..|choices| - 1]);
    }
  }

  lemma {:induction false} StopIsLastFinish(stop: string, choices: seq<Choice>)
    ensures StopAfter(stop, choices) == if FinishOf(choices) == "" then stop else StopReason(FinishOf(choices))
  {
    if choices != [] {
      StopIsLastFinish(stop, choices[..|choices| - 1]);
    }
  }

  lemma {:induction false} ClosingTotals(chunks: seq<Chunk>)
    ensures RunChunks(chunks).0.stop == StopReason(LastFinish(chunks))
    ensures RunChunks(chunks).0.outputTokens == LastCompletion(chunks)
  {
    hide RunFrom, StopAfter, FinishOf;
    if chunks != [] {
      var init, last := chunks[..|chunks| - 1], chunks[|chunks| - 1];
      ClosingTotals(init);
      StopIsLastFinish(RunChunks(init).0.stop, last.choices);
    }
  }

  ghost predicate IsBodyEvent(e: Event) {
    e.Start? || e.Delta? || e.Stop?
  }

  lemma {:induction false} BodyKeepsHead(c: Client, es: seq<Event>)
    requires forall e :: e in es ==> IsBodyEvent(e)
    ensures ReceiveAll(c, es).(blocks := []) == c.(blocks := [])
  {
    if es == [] {
      assert ReceiveAll(c, es) == c;
    } else {
      var init, last := es[..|es| - 1], es[|es| - 1];
      BodyKeepsHead(c, init);
      assert IsBodyEvent(last);
      assert Receive(ReceiveAll(c, init), last).(blocks := []) == ReceiveAll(c, init).(blocks := []);
    }
  }

  lemma StepIsBody(b: Blocks, p: Piece)
    ensures forall e :: e in Step(b, p).1 ==> IsBodyEvent(e)
  {
  }

  lemma {:induction false} RunIsBody(ps: seq<Piece>)
    ensures forall e :: e in RunFrom(NO_BLOCKS, ps).1 ==> IsBodyEvent(e)
  {
    hide Step, IsBodyEvent;
    if ps != [] {
      var (b, es) := RunFrom(NO_BLOCKS, ps[..|ps| - 1]);
      RunIsBody(ps[..|ps| - 1]);
      StepIsBody(b, ps[|ps| - 1]);
      assert RunFrom(NO_BLOCKS, ps).1 == es + Step(b, ps[|ps| - 1]).1;
    }
  }

  /** What the frame tells the client. */
  function HeadOf(chunks: seq<Chunk>): Client {
    var r := Assembled(chunks);
    NO_MESSAGE.(id := r.id.GetOr("msg_msks"), model := r.model.GetOr(""), inputTokens := FirstPrompt(chunks))
  }

  /** What the client holds at the end: the pieces' blocks under the frame's head and the closing totals. */
  lemma ClientAtEnd(chunks: seq<Chunk>)
    ensures var r := Assembled(chunks);
      var head := HeadOf(chunks);
      ReceiveAll(NO_MESSAGE, Whole(chunks))
        == ReceiveAll(head, RunFrom(NO_BLOCKS, Pieces(chunks)).1).(
          stop := StopReason(r.finish), outputTokens := r.completion)
  {
    WholeShape(chunks);
    ClosingTotals(chunks);
    hide RunFrom, Pieces, RunChunks, LastFinish, LastCompletion, StopReason;
    var ps := Pieces(chunks);
    var (b, es) := RunFrom(NO_BLOCKS, ps);
    var r := Assembled(chunks);
    var frame, close := Frame(chunks), CloseOpen(b);
    var x, y := MessageDelta(StopReason(r.finish), None, r.completion), MessageStop;
    var head := HeadOf(chunks);
    assert Whole(chunks) == frame + es + close + [x, y];
    HeadArrives(chunks);
    ReceiveConcat(NO_MESSAGE, frame + es + close, [x, y]);
    ReceiveConcat(NO_MESSAGE, frame + es, close);
    ReceiveConcat(NO_MESSAGE, frame, es);
    var c := ReceiveAll(head, es);
    ReceiveClose(c, b);
    ReceiveTwo(c, x, y);
  }

  lemma ReceiveTwo(c: Client, x: Event, y: Event)
    ensures ReceiveAll(c, [x, y]) == Receive(Receive(c, x), y)
  {
    hide Receive, ReceiveAll;
    assert [x] + [y] == [x, y];
    ReceiveConcat(c, [x], [y]);
    ReceiveOne(c, x);
    ReceiveOne(Receive(c, x), y);
  }

  lemma HeadArrives(chunks: seq<Chunk>)
    ensures ReceiveAll(NO_MESSAGE, Frame(chunks)) == HeadOf(chunks)
  {
    hide ReceiveAll, LastCompletion, LastFinish, TextOf, CallsOf, Pieces;
    var frame := Frame(chunks);
    ReceiveTwo(NO_MESSAGE, frame[0], frame[1]);
    assert frame == [frame[0], frame[1]];
  }

  /** Streaming refines the single shot. The head, stop reason and output count always agree; the input count agrees
      exactly when the first chunk reports the one the last usage does; and the content agrees exactly when the answer
      is not empty, its text precedes its calls and every call has an id. How the answer is cut into chunks, and how a
      call's fragments interleave, makes no difference. */
  lemma StreamRefinesSingleShot<J(!new)>(parser: Parser<J>, chunks: seq<Chunk>)
    ensures var here, there := Delivered(parser, chunks), OpenaiToAnthropic(parser, Assembled(chunks));
      && here.(content := [], inputTokens := 0) == there.(content := [], inputTokens := 0)
      && here.inputTokens == FirstPrompt(chunks) && there.inputTokens == LastPrompt(chunks)
    ensures Delivered(parser, chunks).content == OpenaiToAnthropic(parser, Assembled(chunks)).content
       <==> Pieces(chunks) != [] && TextFirst(Pieces(chunks)) && CallsAreNamed(Pieces(chunks))
    ensures Delivered(parser, chunks) == OpenaiToAnthropic(parser, Assembled(chunks))
       <==> (Pieces(chunks) != [] && TextFirst(Pieces(chunks)) && CallsAreNamed(Pieces(chunks))
             && FirstPrompt(chunks) == LastPrompt(chunks))
  {
    hide RunFrom, Pieces, Contents, ContentBlocks, CallsAreNamed, TextFirst, Holds, Laid, Inv, ReceiveAll, TextOf,
      CallsOf, LastFinish, LastCompletion, LastPrompt, FirstPrompt, StopReason, Whole, NoEmptyText;
    var ps := Pieces(chunks);
    var (b, es) := RunFrom(NO_BLOCKS, ps);
    var head := HeadOf(chunks);
    ClientAtEnd(chunks);
    PiecesHaveText(chunks);
    RunKeepsInv(ps);
    RunHolds(head, ps);
    RunLaid(head, ps);
    RunIsBody(ps);
    BodyKeepsHead(head, es);
    BlocksAgree(parser, ReceiveAll(head, es), b, ps);
  }

  /** Usage on the last chunk alone, where an OpenAI stream sends it, comes too late for the frame: the client is told
      no input. */
  lemma LateUsageIsLost<J(!new)>(parser: Parser<J>, text: string, prompt: nat)
    ensures var say := Chunk(None, None, None, [Choice("", text, [])]);
      var end := Chunk(None, None, Some(Usage(prompt, 1)), []);
      && Delivered(parser, [say, end]).inputTokens == 0
      && OpenaiToAnthropic(parser, Assembled([say, end])).inputTokens == prompt
  {
    var say := Chunk(None, None, None, [Choice("", text, [])]);
    var end := Chunk(None, None, Some(Usage(prompt, 1)), []);
    StreamRefinesSingleShot(parser, [say, end]);
  }
}
