/** A whole message as the event sequence of a stream: the answer to a client that asked for one. */
module MessageReplay {
  import opened Wrappers
  import opened AnthropicStream
  import opened StreamGrammar
  import opened StreamConservation
  import opened StreamRefinement

  /** A block as its start frame carries it, content and all. */
  function Announced<J>(dumps: J -> string, block: ContentBlock<J>): StartBlock {
    match block
    case Text(text) => TextStart(text)
    case ToolUse(id, name, input) => ToolStart(id, name, dumps(input))
  }

  /** A block's whole content as one delta. */
  function WholeDelta<J>(dumps: J -> string, block: ContentBlock<J>): DeltaBody {
    match block
    case Text(text) => TextDelta(text)
    case ToolUse(_, _, input) => JsonDelta(dumps(input))
  }

  function BlockEvents<J>(dumps: J -> string, i: nat, block: ContentBlock<J>): seq<Event> {
    [Start(i, Announced(dumps, block)), Delta(i, WholeDelta(dumps, block)), Stop(i)]
  }

  function BlocksEvents<J>(dumps: J -> string, content: seq<ContentBlock<J>>): seq<Event> {
    if content == [] then []
    else
      var n := |content| - 1;
      BlocksEvents(dumps, content[..n]) + BlockEvents(dumps, n, content[n])
  }

  function Replay<J>(dumps: J -> string, m: Message<J>): seq<Event> {
    [MessageStart(m.id, m.model, m.inputTokens), Ping] + BlocksEvents(dumps, m.content)
    + [MessageDelta(m.stop, Some(m.inputTokens), m.outputTokens), MessageStop]
  }

  /** `events_from_message`. */
  method EventsFromMessage<J>(dumps: J -> string, m: Message<J>) returns (events: seq<Event>)
    ensures events == Replay(dumps, m)
  {
    events := [MessageStart(m.id, m.model, m.inputTokens), Ping];
    ghost var frame := events;
    for index := 0 to |m.content|
      invariant events == frame + BlocksEvents(dumps, m.content[..index])
    {
      var block := m.content[index];
      assert m.content[..index + 1][..index] == m.content[..index];
      events := events + [Start(index, Announced(dumps, block))];
      var body := if block.Text? then TextDelta(block.text) else JsonDelta(dumps(block.input));
      events := events + [Delta(index, body)];
      events := events + [Stop(index)];
      assert events == frame + (BlocksEvents(dumps, m.content[..index]) + BlockEvents(dumps, index, block));
    }
    assert m.content[..|m.content|] == m.content;
    events := events + [MessageDelta(m.stop, Some(m.inputTokens), m.outputTokens)];
    events := events + [MessageStop];
    assert events == Replay(dumps, m);
  }

  /** The frames one by one: each block announced in full, carried whole by one delta, and stopped. */
  lemma ReplayFrames<J>(dumps: J -> string, m: Message<J>, i: nat)
    requires i < |m.content|
    ensures var es, block := Replay(dumps, m), m.content[i];
      && |es| == 4 + 3 * |m.content|
      && (block.Text? ==>
        es[2 + 3 * i] == Start(i, TextStart(block.text)) && es[3 + 3 * i] == Delta(i, TextDelta(block.text)))
      && (block.ToolUse? ==>
        && es[2 + 3 * i] == Start(i, ToolStart(block.id, block.name, dumps(block.input)))
        && es[3 + 3 * i] == Delta(i, JsonDelta(dumps(block.input))))
      && es[4 + 3 * i] == Stop(i)
  {
    FramesOf(dumps, m.content, i);
    BlockAt(dumps, i, m.content[i]);
    hide *;
    FrameAt(dumps, m, 3 * i);
    FrameAt(dumps, m, 3 * i + 1);
    FrameAt(dumps, m, 3 * i + 2);
  }

  lemma FrameAt<J>(dumps: J -> string, m: Message<J>, k: nat)
    requires k < |BlocksEvents(dumps, m.content)|
    ensures |Replay(dumps, m)| == 4 + |BlocksEvents(dumps, m.content)|
    ensures Replay(dumps, m)[2 + k] == BlocksEvents(dumps, m.content)[k]
  {
    hide BlocksEvents;
  }

  lemma BlockAt<J>(dumps: J -> string, n: nat, block: ContentBlock<J>)
    ensures var es := BlockEvents(dumps, n, block);
      && |es| == 3 && es[2] == Stop(n)
      && (block.Text? ==> es[0] == Start(n, TextStart(block.text)) && es[1] == Delta(n, TextDelta(block.text)))
      && (block.ToolUse? ==>
        && es[0] == Start(n, ToolStart(block.id, block.name, dumps(block.input)))
        && es[1] == Delta(n, JsonDelta(dumps(block.input))))
  {
  }

  lemma {:induction false} FramesOf<J>(dumps: J -> string, content: seq<ContentBlock<J>>, i: nat)
    requires i < |content|
    ensures var es, block := BlocksEvents(dumps, content), BlockEvents(dumps, i, content[i]);
      |es| == 3 * |content| && |block| == 3
        && es[3 * i] == block[0] && es[3 * i + 1] == block[1] && es[3 * i + 2] == block[2]
  {
    var n := |content| - 1;
    SizeOf(dumps, content[..n]);
    BlockAt(dumps, n, content[n]);
    hide BlockEvents;
    if i < n {
      FramesOf(dumps, content[..n], i);
    }
  }

  lemma {:induction false} SizeOf<J>(dumps: J -> string, content: seq<ContentBlock<J>>)
    ensures |BlocksEvents(dumps, content)| == 3 * |content|
  {
    if content != [] {
      SizeOf(dumps, content[..|content| - 1]);
    }
  }

  /** The tool blocks among the first blocks. */
  function ToolsOf<J>(content: seq<ContentBlock<J>>): set<nat> {
    set i: nat | i < |content| && content[i].ToolUse?
  }

  lemma BlockIsAccepted<J>(dumps: J -> string, i: nat, block: ContentBlock<J>, tools: set<nat>)
    requires i !in tools
    ensures AcceptAll(true, Body(i, None, tools), BlockEvents(dumps, i, block))
         == Body(i + 1, None, if block.ToolUse? then tools + {i} else tools)
  {
    var es := BlockEvents(dumps, i, block);
    var more := if block.ToolUse? then tools + {i} else tools;
    AcceptTwo(true, Body(i, None, tools), es[0], es[1]);
    AcceptTwo(true, Body(i + 1, Some(i), more), es[2], Ping);
    assert es == [es[0], es[1]] + [es[2]];
    AcceptConcat(true, Body(i, None, tools), [es[0], es[1]], [es[2]]);
  }

  lemma {:induction false} BlocksAreAccepted<J>(dumps: J -> string, content: seq<ContentBlock<J>>)
    ensures AcceptAll(true, Body(0, None, {}), BlocksEvents(dumps, content)) == Body(|content|, None, ToolsOf(content))
  {
    if content == [] {
      assert ToolsOf(content) == {};
    } else {
      var n := |content| - 1;
      var init, last := content[..n], content[n];
      BlocksAreAccepted(dumps, init);
      hide AcceptAll;
      AcceptConcat(true, Body(0, None, {}), BlocksEvents(dumps, init), BlockEvents(dumps, n, last));
      BlockIsAccepted(dumps, n, last, ToolsOf(init));
      assert ToolsOf(content) == if last.ToolUse? then ToolsOf(init) + {n} else ToolsOf(init);
    }
  }

  /** The replay of any message is a stream in which every delta names the open block. */
  lemma ReplayIsAccepted<J>(dumps: J -> string, m: Message<J>)
    ensures AcceptAll(true, Begin, Replay(dumps, m)) == Ended
  {
    hide AcceptAll;
    var frame := [MessageStart(m.id, m.model, m.inputTokens), Ping];
    var es := BlocksEvents(dumps, m.content);
    var close := [MessageDelta(m.stop, Some(m.inputTokens), m.outputTokens), MessageStop];
    AcceptConcat(true, Begin, frame + es, close);
    AcceptConcat(true, Begin, frame, es);
    AcceptTwo(true, Begin, frame[0], frame[1]);
    BlocksAreAccepted(dumps, m.content);
    AcceptTwo(true, Body(|m.content|, None, ToolsOf(m.content)), close[0], close[1]);
  }

  function TextOfBlocks<J>(content: seq<ContentBlock<J>>): string {
    if content == [] then ""
    else
      var last := content[|content| - 1];
      TextOfBlocks(content[..|content| - 1]) + if last.Text? then last.text else ""
  }

  lemma BlockDeltas<J>(dumps: J -> string, n: nat, block: ContentBlock<J>, i: nat)
    ensures TextDeltas(BlockEvents(dumps, n, block)) == if block.Text? then block.text else ""
    ensures JsonDeltas(BlockEvents(dumps, n, block), i) == if block.ToolUse? && i == n then dumps(block.input) else ""
  {
    hide TextDeltas, JsonDeltas;
    var es := BlockEvents(dumps, n, block);
    assert es == [es[0]] + [es[1]] + [es[2]];
    DeltasConcat([es[0]] + [es[1]], [es[2]], i);
    DeltasConcat([es[0]], [es[1]], i);
    OneDelta(es[0], i);
    OneDelta(es[1], i);
    OneDelta(es[2], i);
  }

  lemma LastBlock<J>(dumps: J -> string, content: seq<ContentBlock<J>>)
    requires content != []
    ensures var n := |content| - 1;
      && BlocksEvents(dumps, content) == BlocksEvents(dumps, content[..n]) + BlockEvents(dumps, n, content[n])
      && TextOfBlocks(content) == TextOfBlocks(content[..n]) + if content[n].Text? then content[n].text else ""
  {
    hide BlockEvents;
  }

  function InputAt<J>(dumps: J -> string, content: seq<ContentBlock<J>>, i: nat): string {
    if i < |content| && content[i].ToolUse? then dumps(content[i].input) else ""
  }

  lemma InputOfLast<J>(dumps: J -> string, content: seq<ContentBlock<J>>, i: nat)
    requires content != []
    ensures var n := |content| - 1;
      InputAt(dumps, content, i)
        == InputAt(dumps, content[..n], i) + if content[n].ToolUse? && i == n then dumps(content[n].input) else ""
  {
    var init := content[..|content| - 1];
    assert InputAt(dumps, init, i) + "" == InputAt(dumps, init, i);
    assert "" + InputAt(dumps, content, i) == InputAt(dumps, content, i);
  }

  lemma {:induction false} BlocksDeltas<J>(dumps: J -> string, content: seq<ContentBlock<J>>, i: nat)
    ensures TextDeltas(BlocksEvents(dumps, content)) == TextOfBlocks(content)
    ensures JsonDeltas(BlocksEvents(dumps, content), i) == InputAt(dumps, content, i)
  {
    if content != [] {
      var n := |content| - 1;
      BlocksDeltas(dumps, content[..n], i);
      LastBlock(dumps, content);
      InputOfLast(dumps, content, i);
      BlockDeltas(dumps, n, content[n], i);
      hide *;
      DeltasConcat(BlocksEvents(dumps, content[..n]), BlockEvents(dumps, n, content[n]), i);
    } else {
      assert BlocksEvents(dumps, content) == [];
    }
  }

  /** The replay's deltas are the message's content: its texts in order, and each tool block's input under its index. */
  lemma ReplayCarriesTheMessage<J>(dumps: J -> string, m: Message<J>, i: nat)
    ensures var es := Replay(dumps, m);
      && TextDeltas(es) == TextOfBlocks(m.content)
      && JsonDeltas(es, i) == InputAt(dumps, m.content, i)
  {
    hide TextDeltas, JsonDeltas;
    var frame := [MessageStart(m.id, m.model, m.inputTokens), Ping];
    var es := BlocksEvents(dumps, m.content);
    var close := [MessageDelta(m.stop, Some(m.inputTokens), m.outputTokens), MessageStop];
    DeltasConcat(frame + es, close, i);
    DeltasConcat(frame, es, i);
    NoDeltaIn(frame, i);
    NoDeltaIn(close, i);
    BlocksDeltas(dumps, m.content, i);
  }

  // ---- the client of a replay ----

  /** A start frame as a client reads it that takes every text from the deltas. */
  function Bare(e: Event): Event {
    if e.Start? && e.block.TextStart? then Start(e.index, TextStart("")) else e
  }

  function BareAll(es: seq<Event>): (bare: seq<Event>)
    ensures |bare| == |es| && forall i :: 0 <= i < |es| ==> bare[i] == Bare(es[i])
  {
    seq(|es|, i requires 0 <= i < |es| => Bare(es[i]))
  }

  /** The events as one of two clients reads them. */
  function ReadBy(bare: bool, es: seq<Event>): seq<Event> {
    if bare then BareAll(es) else es
  }

  /** What that client holds of a replayed block: a start frame announces a text in full, and the delta brings it
      again. */
  function HeldBlock<J>(dumps: J -> string, bare: bool, block: ContentBlock<J>): Block {
    match block
    case Text(text) => TextBlock(if bare then text else text + text)
    case ToolUse(id, name, input) => ToolBlock(id, name, dumps(input))
  }

  lemma ReadConcat(bare: bool, a: seq<Event>, b: seq<Event>)
    ensures ReadBy(bare, a + b) == ReadBy(bare, a) + ReadBy(bare, b)
  {
    hide Bare;
  }

  lemma ReceiveBlock<J>(dumps: J -> string, c: Client, bare: bool, block: ContentBlock<J>, held: Block)
    requires held == HeldBlock(dumps, bare, block)
    ensures var es := ReadBy(bare, BlockEvents(dumps, |c.blocks|, block));
      ReceiveAll(c, es) == c.(blocks := c.blocks + [held])
  {
    var n := |c.blocks|;
    var s, d, z := Start(n, Announced(dumps, block)), Delta(n, WholeDelta(dumps, block)), Stop(n);
    var s' := if bare then Bare(s) else s;
    assert BlockEvents(dumps, n, block) == [s, d, z];
    assert ReadBy(bare, [s, d, z]) == [s', d, z];
    ReceiveThree(c, s', d, z);
    hide ReceiveAll;
    var text := if block.Text? then block.text else dumps(block.input);
    assert "" + text == text;
    ReplaceLast(c.blocks, Opened(Announced(dumps, block)), held);
    ReplaceLast(c.blocks, TextBlock(""), held);
  }

  lemma ReceiveThree(c: Client, x: Event, y: Event, z: Event)
    ensures ReceiveAll(c, [x, y, z]) == Receive(Receive(Receive(c, x), y), z)
  {
    hide Receive, ReceiveAll;
    assert [x, y] + [z] == [x, y, z];
    ReceiveConcat(c, [x, y], [z]);
    ReceiveTwo(c, x, y);
    ReceiveOne(Receive(Receive(c, x), y), z);
  }

  ghost predicate HoldsAll<J(!new)>(
    dumps: J -> string, bare: bool, content: seq<ContentBlock<J>>, blocks: seq<Block>)
  {
    && |blocks| == |content|
    && forall i :: 0 <= i < |content| ==> blocks[i] == HeldBlock(dumps, bare, content[i])
  }

  lemma NextIsHeld<J(!new)>(
    dumps: J -> string, bare: bool, content: seq<ContentBlock<J>>, last: ContentBlock<J>, blocks: seq<Block>)
    requires HoldsAll(dumps, bare, content, blocks)
    ensures HoldsAll(dumps, bare, content + [last], blocks + [HeldBlock(dumps, bare, last)])
  {
    hide HeldBlock;
  }

  lemma {:induction false} ReceiveBlocks<J(!new)>(
    dumps: J -> string, c: Client, bare: bool, content: seq<ContentBlock<J>>)
    requires c.blocks == []
    ensures var d := ReceiveAll(c, ReadBy(bare, BlocksEvents(dumps, content)));
      d.(blocks := []) == c && |d.blocks| == |content| && HoldsAll(dumps, bare, content, d.blocks)
  {
    if content != [] {
      var n := |content| - 1;
      var init, last := content[..n], content[n];
      LastBlock(dumps, content);
      hide *;
      ReceiveBlocks(dumps, c, bare, init);
      var es, more := BlocksEvents(dumps, init), BlockEvents(dumps, n, last);
      ReadConcat(bare, es, more);
      ReceiveConcat(c, ReadBy(bare, es), ReadBy(bare, more));
      var d := ReceiveAll(c, ReadBy(bare, es));
      ReceiveBlock(dumps, d, bare, last, HeldBlock(dumps, bare, last));
      assert content == init + [last];
      NextIsHeld(dumps, bare, init, last, d.blocks);
    } else {
      assert ReadBy(bare, BlocksEvents(dumps, content)) == [];
      assert HoldsAll(dumps, bare, content, []);
    }
  }

  lemma ReceiveFramed(m: Client, frame: seq<Event>, es: seq<Event>)
    requires frame == [MessageStart(m.id, m.model, m.inputTokens), Ping] && m.blocks == []
    requires ReceiveAll(m.(stop := "", outputTokens := 0), es).(blocks := []) == m.(stop := "", outputTokens := 0)
    ensures var close := [MessageDelta(m.stop, Some(m.inputTokens), m.outputTokens), MessageStop];
      ReceiveAll(NO_MESSAGE, frame + es + close)
        == m.(blocks := ReceiveAll(m.(stop := "", outputTokens := 0), es).blocks)
  {
    hide ReceiveAll;
    var close := [MessageDelta(m.stop, Some(m.inputTokens), m.outputTokens), MessageStop];
    var head := m.(stop := "", outputTokens := 0);
    ReceiveConcat(NO_MESSAGE, frame + es, close);
    ReceiveConcat(NO_MESSAGE, frame, es);
    ReceiveTwo(NO_MESSAGE, frame[0], frame[1]);
    ReceiveTwo(ReceiveAll(head, es), close[0], close[1]);
  }

  /** A client of the replay holds the message's id, model, stop reason and counts, and each block's id and name; a
      client that starts a text from its announcement holds every text twice over, and one that takes texts from the
      deltas alone holds the content itself. */
  lemma ReplayIsReceived<J(!new)>(dumps: J -> string, m: Message<J>)
    ensures var c, d := ReceiveAll(NO_MESSAGE, Replay(dumps, m)), ReceiveAll(NO_MESSAGE, BareAll(Replay(dumps, m)));
      && c.(blocks := []) == d.(blocks := []) == Client(m.id, m.model, [], m.stop, m.inputTokens, m.outputTokens)
      && |c.blocks| == |d.blocks| == |m.content|
      && forall i :: 0 <= i < |m.content| ==>
        var block := m.content[i];
        && (block.Text? ==> c.blocks[i] == TextBlock(block.text + block.text) && d.blocks[i] == TextBlock(block.text))
        && (block.ToolUse? ==> c.blocks[i] == d.blocks[i] == ToolBlock(block.id, block.name, dumps(block.input)))
  {
    var frame := [MessageStart(m.id, m.model, m.inputTokens), Ping];
    var close := [MessageDelta(m.stop, Some(m.inputTokens), m.outputTokens), MessageStop];
    var es := BlocksEvents(dumps, m.content);
    var whole := Client(m.id, m.model, [], m.stop, m.inputTokens, m.outputTokens);
    hide ReceiveAll, BlocksEvents, BareAll;
    ReceiveBlocks(dumps, whole.(stop := "", outputTokens := 0), false, m.content);
    ReceiveBlocks(dumps, whole.(stop := "", outputTokens := 0), true, m.content);
    ReceiveFramed(whole, frame, es);
    ReceiveFramed(whole, frame, BareAll(es));
    ReadConcat(true, frame + es, close);
    ReadConcat(true, frame, es);
    assert BareAll(frame) == frame && BareAll(close) == close;
  }

  /** With a parser that reads back what was dumped, the client that starts texts from their announcements finishes
      with the message exactly when no text block says anything. */
  lemma ReplayIsTheMessageIff<J(!new)>(dumps: J -> string, parser: Parser<J>, m: Message<J>)
    requires forall j :: dumps(j) != "" && parser.loads(dumps(j)) == Some(j)
    ensures Contents(parser, ReceiveAll(NO_MESSAGE, BareAll(Replay(dumps, m))).blocks) == m.content
    ensures Contents(parser, ReceiveAll(NO_MESSAGE, Replay(dumps, m)).blocks) == m.content
       <==> forall i :: 0 <= i < |m.content| && m.content[i].Text? ==> m.content[i].text == ""
  {
    ReplayIsReceived(dumps, m);
    hide ReceiveAll, Replay, BareAll;
    var blocks := ReceiveAll(NO_MESSAGE, Replay(dumps, m)).blocks;
    forall i | 0 <= i < |blocks|
      ensures Contents(parser, blocks)[i] == m.content[i] <==> (m.content[i].Text? ==> m.content[i].text == "")
    {
      if m.content[i].Text? && m.content[i].text != "" {
        assert |m.content[i].text + m.content[i].text| != |m.content[i].text|;
      }
    }
  }
}
