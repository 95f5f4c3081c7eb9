/** Every converted stream is well bracketed and conserves what the chunks carried. */
module StreamGrammar {
  import opened Wrappers
  import opened AnthropicStream

  // ---- whole runs ----

  function RunChunks(chunks: seq<Chunk>): (Converter, seq<Event>) {
    if chunks == [] then (FRESH, [])
    else
      var (c1, e1) := RunChunks(chunks[..|chunks| - 1]);
      var (c2, e2) := Feed(c1, chunks[|chunks| - 1]);
      (c2, e1 + e2)
  }

  /** Everything a client is sent: each chunk's events, then the closing ones. */
  function Whole(chunks: seq<Chunk>): seq<Event> {
    RunChunks(chunks).1 + Finish(RunChunks(chunks).0)
  }

  /** All text and fragments the chunks carry, in order. */
  function Pieces(chunks: seq<Chunk>): seq<Piece> {
    if chunks == [] then []
    else Pieces(chunks[..|chunks| - 1]) + ChoicesPieces(chunks[|chunks| - 1].choices)
  }

  /** The opening frame: the first chunk's id, model and input usage, or the defaults of an empty stream. */
  function Frame(chunks: seq<Chunk>): seq<Event> {
    StartEvents(if chunks == [] then FRESH else Started(FRESH, chunks[0]))
  }

  lemma {:induction false} RunIsPieces(chunks: seq<Chunk>)
    ensures var (c, events) := RunChunks(chunks);
      && (c.started <==> chunks != [])
      && c.blocks == RunFrom(NO_BLOCKS, Pieces(chunks)).0
      && events == (if chunks == [] then [] else Frame(chunks)) + RunFrom(NO_BLOCKS, Pieces(chunks)).1
  {
    hide RunFrom, ChoicesPieces, StopAfter, StartEvents;
    if chunks == [] {
      NoPieces();
    } else {
      var n := |chunks| - 1;
      var init, last := chunks[..n], chunks[n];
      RunIsPieces(init);
      RunConcat(NO_BLOCKS, Pieces(init), ChoicesPieces(last.choices));
      if n == 0 {
        NoPieces();
        assert init == [];
      } else {
        assert init[0] == chunks[0];
      }
    }
  }

  lemma NoPieces()
    ensures RunFrom(NO_BLOCKS, []) == (NO_BLOCKS, [])
  {
  }

  /** A whole stream: the frame, the pieces' events, the open block's stop, the closing pair. */
  lemma WholeShape(chunks: seq<Chunk>)
    ensures var (b, events) := RunFrom(NO_BLOCKS, Pieces(chunks));
      var c := RunChunks(chunks).0;
      Whole(chunks) == Frame(chunks) + events + CloseOpen(b) + [MessageDelta(c.stop, None, c.outputTokens), MessageStop]
  {
    hide RunFrom, StartEvents, CloseOpen;
    RunIsPieces(chunks);
    var (b, events) := RunFrom(NO_BLOCKS, Pieces(chunks));
    var c := RunChunks(chunks).0;
    if chunks == [] {
      NoPieces();
    }
  }

  // ---- who holds the open block ----

  function Indices(ps: seq<Piece>): set<int> {
    if ps == [] then {}
    else
      var last := ps[|ps| - 1];
      Indices(ps[..|ps| - 1]) + if last.CallPiece? then {last.call.index} else {}
  }

  datatype Owner = Nobody | TextOwner | ToolOwner(index: int)

  /** Whose block is open after some pieces: that of the last text, or of the last call index to appear first. */
  function OwnerOf(ps: seq<Piece>): Owner {
    if ps == [] then Nobody
    else
      var init, last := ps[..|ps| - 1], ps[|ps| - 1];
      match last
      case TextPiece(_) => TextOwner
      case CallPiece(call) => if call.index in Indices(init) then OwnerOf(init) else ToolOwner(call.index)
  }

  /** The bookkeeping after the pieces `ps`. */
  ghost predicate Inv(b: Blocks, ps: seq<Piece>) {
    && b.tools.Keys == Indices(ps)
    && (forall k :: k in b.tools ==> b.tools[k] < b.next)
    && (forall j, k :: j in b.tools && k in b.tools && j != k ==> b.tools[j] != b.tools[k])
    && match OwnerOf(ps)
       case Nobody => b == NO_BLOCKS
       case TextOwner =>
         b.next > 0 && b.open == b.text == Some(b.next - 1) && forall k :: k in b.tools ==> b.tools[k] != b.next - 1
       case ToolOwner(k) =>
         b.next > 0 && b.open == Some(b.next - 1) && b.text == None && k in b.tools && b.tools[k] == b.next - 1
  }

  lemma NextOwner(ps: seq<Piece>, p: Piece)
    ensures Indices(ps + [p]) == Indices(ps) + if p.CallPiece? then {p.call.index} else {}
    ensures OwnerOf(ps + [p]) == if p.TextPiece? then TextOwner
      else if p.call.index in Indices(ps) then OwnerOf(ps) else ToolOwner(p.call.index)
  {
    assert (ps + [p])[..|ps|] == ps;
  }

  lemma TextKeepsInv(b: Blocks, ps: seq<Piece>, text: string)
    requires Inv(b, ps)
    ensures Inv(TextStep(b, text).0, ps + [TextPiece(text)])
  {
    NextOwner(ps, TextPiece(text));
    hide OwnerOf, Indices;
    assert Indices(ps) + {} == Indices(ps);
  }

  lemma ToolKeepsInv(b: Blocks, ps: seq<Piece>, call: ToolCall)
    requires Inv(b, ps)
    ensures Inv(ToolStep(b, call).0, ps + [CallPiece(call)])
  {
    NextOwner(ps, CallPiece(call));
    hide OwnerOf, Indices;
    if call.index in b.tools {
      assert Indices(ps) + {call.index} == Indices(ps);
    }
  }

  lemma StepKeepsInv(b: Blocks, ps: seq<Piece>, p: Piece)
    requires Inv(b, ps)
    ensures Inv(Step(b, p).0, ps + [p])
  {
    hide Inv;
    match p
    case TextPiece(text) => TextKeepsInv(b, ps, text);
    case CallPiece(call) => ToolKeepsInv(b, ps, call);
  }

  lemma {:induction false} RunKeepsInv(ps: seq<Piece>)
    ensures Inv(RunFrom(NO_BLOCKS, ps).0, ps)
  {
    if ps != [] {
      var n := |ps| - 1;
      RunKeepsInv(ps[..n]);
      assert ps == ps[..n] + [ps[n]];
      hide Inv, Step;
      StepKeepsInv(RunFrom(NO_BLOCKS, ps[..n]).0, ps[..n], ps[n]);
    }
  }

  // ---- the event grammar ----

  /** `Body` carries the next block index, the open block, and the tool blocks started so far. */
  datatype Phase = Begin | Framed | Body(next: nat, open: Option<nat>, tools: set<nat>) | Closing | Ended | Bad

  /** One event of `message_start ping (start delta* stop)* message_delta message_stop`. A `strict` reader wants every
      delta to name the open block; the other also takes a tool block's delta after that block's stop. */
  function Accept(strict: bool, ph: Phase, e: Event): Phase {
    match (ph, e)
    case (Begin, MessageStart(_, _, _)) => Framed
    case (Framed, Ping) => Body(0, None, {})
    case (Body(next, None, tools), Start(i, block)) =>
      if i == next then Body(next + 1, Some(i), if block.ToolStart? then tools + {i} else tools) else Bad
    case (Body(next, Some(o), tools), Stop(i)) => if i == o then Body(next, None, tools) else Bad
    case (Body(next, open, tools), Delta(i, TextDelta(_))) =>
      if open == Some(i) && i !in tools then ph else Bad
    case (Body(next, open, tools), Delta(i, JsonDelta(_))) =>
      if i in tools && (strict ==> open == Some(i)) then ph else Bad
    case (Body(_, None, _), MessageDelta(_, _, _)) => Closing
    case (Closing, MessageStop) => Ended
    case _ => Bad
  }

  function AcceptAll(strict: bool, ph: Phase, es: seq<Event>): Phase
    decreases |es|
  {
    if es == [] then ph else AcceptAll(strict, Accept(strict, ph, es[0]), es[1..])
  }

  lemma {:induction false} AcceptConcat(strict: bool, ph: Phase, a: seq<Event>, b: seq<Event>)
    ensures AcceptAll(strict, ph, a + b) == AcceptAll(strict, AcceptAll(strict, ph, a), b)
    decreases |a|
  {
    hide Accept;
    if a == [] {
      assert a + b == b;
    } else {
      assert (a + b)[0] == a[0] && (a + b)[1..] == a[1..] + b;
      AcceptConcat(strict, Accept(strict, ph, a[0]), a[1..], b);
    }
  }

  function ToolBlocks(tools: map<int, nat>): set<nat> {
    set k | k in tools :: tools[k]
  }

  /** The reader's view of the bookkeeping. */
  ghost function View(b: Blocks): Phase {
    Body(b.next, b.open, ToolBlocks(b.tools))
  }

  /** The fragment a piece carries, if any, names the open block. */
  ghost predicate IsTimely(ps: seq<Piece>, p: Piece) {
    p.CallPiece? && p.call.args != "" ==> OwnerOf(ps + [p]) == ToolOwner(p.call.index)
  }

  ghost predicate IsTimelyAt(ps: seq<Piece>, i: nat)
    requires i < |ps|
  {
    IsTimely(ps[..i], ps[i])
  }

  /** No tool index carries a fragment after another block opened. */
  ghost predicate NoLateFragment(ps: seq<Piece>) {
    forall i :: 0 <= i < |ps| ==> IsTimelyAt(ps, i)
  }

  lemma AcceptTwo(strict: bool, ph: Phase, x: Event, y: Event)
    ensures AcceptAll(strict, ph, [x, y]) == Accept(strict, Accept(strict, ph, x), y)
    ensures AcceptAll(strict, ph, [x]) == Accept(strict, ph, x)
  {
    hide Accept;
    assert [x, y][0] == x && [x, y][1..] == [y];
    assert |[y][1..]| == 0 && |[x][1..]| == 0;
    assert AcceptAll(strict, Accept(strict, ph, x), [y]) == Accept(strict, Accept(strict, ph, x), y);
  }

  lemma AcceptClose(strict: bool, b: Blocks)
    ensures AcceptAll(strict, View(b), CloseOpen(b)) == Body(b.next, None, View(b).tools)
  {
    hide View;
    ViewOf(b);
    if b.open.Some? {
      AcceptTwo(strict, View(b), Stop(b.open.value), Ping);
    }
  }

  lemma ViewOf(b: Blocks)
    ensures View(b).Body? && View(b).next == b.next && View(b).open == b.open
  {
  }

  lemma TextIsAccepted(strict: bool, b: Blocks, ps: seq<Piece>, text: string)
    requires Inv(b, ps)
    ensures AcceptAll(strict, View(b), TextStep(b, text).1) == View(TextStep(b, text).0)
  {
    hide Indices;
    if b.text.None? {
      var s, d := Start(b.next, TextStart("")), Delta(b.next, TextDelta(text));
      AcceptClose(strict, b);
      AcceptConcat(strict, View(b), CloseOpen(b), [s, d]);
      AcceptTwo(strict, Body(b.next, None, View(b).tools), s, d);
      NotATool(b, b.next);
    } else {
      var d := Delta(b.text.value, TextDelta(text));
      AcceptTwo(strict, View(b), d, d);
      NotATool(b, b.text.value);
    }
  }

  lemma NotATool(b: Blocks, i: nat)
    requires forall k :: k in b.tools ==> b.tools[k] != i
    ensures i !in View(b).tools
  {
  }

  lemma FragmentIsAccepted(strict: bool, ph: Phase, i: nat, args: string)
    requires ph.Body? && i in ph.tools
    ensures AcceptAll(strict, ph, Fragment(i, args))
         == if args == "" || !strict || ph.open == Some(i) then ph else Bad
  {
    if args != "" {
      AcceptTwo(strict, ph, Delta(i, JsonDelta(args)), Ping);
    }
  }

  lemma ToolIsAccepted(strict: bool, b: Blocks, ps: seq<Piece>, call: ToolCall)
    requires Inv(b, ps)
    ensures var p := CallPiece(call);
      AcceptAll(strict, View(b), ToolStep(b, call).1)
        == if strict && !IsTimely(ps, p) then Bad else View(ToolStep(b, call).0)
  {
    NextOwner(ps, CallPiece(call));
    if call.index in b.tools {
      KnownToolIsAccepted(strict, b, ps, call);
    } else {
      NewToolIsAccepted(strict, b, ps, call);
    }
  }

  lemma KnownToolIsAccepted(strict: bool, b: Blocks, ps: seq<Piece>, call: ToolCall)
    requires Inv(b, ps) && call.index in b.tools
    ensures AcceptAll(strict, View(b), ToolStep(b, call).1)
         == if strict && !IsTimely(ps, CallPiece(call)) then Bad else View(b)
  {
    NextOwner(ps, CallPiece(call));
    hide OwnerOf, Indices;
    var i := b.tools[call.index];
    assert i in View(b).tools;
    FragmentIsAccepted(strict, View(b), i, call.args);
  }

  lemma NewToolIsAccepted(strict: bool, b: Blocks, ps: seq<Piece>, call: ToolCall)
    requires Inv(b, ps) && call.index !in b.tools
    ensures IsTimely(ps, CallPiece(call))
    ensures AcceptAll(strict, View(b), ToolStep(b, call).1) == View(ToolStep(b, call).0)
  {
    NextOwner(ps, CallPiece(call));
    hide OwnerOf, Indices, FallbackId;
    var b' := ToolStep(b, call).0;
    var id := if call.id == "" then FallbackId(call.index) else call.id;
    var s := Start(b.next, ToolStart(id, call.name, NO_INPUT));
    AcceptClose(strict, b);
    AcceptConcat(strict, View(b), CloseOpen(b) + [s], Fragment(b.next, call.args));
    AcceptConcat(strict, View(b), CloseOpen(b), [s]);
    AcceptTwo(strict, Body(b.next, None, View(b).tools), s, Ping);
    NewToolView(b, call.index);
    FragmentIsAccepted(strict, View(b'), b.next, call.args);
  }

  lemma NewToolView(b: Blocks, k: int)
    requires k !in b.tools
    ensures ToolBlocks(b.tools[k := b.next]) == View(b).tools + {b.next}
  {
    var t := b.tools[k := b.next];
    forall i | i in View(b).tools + {b.next} ensures i in ToolBlocks(t) {
      if i == b.next {
        assert t[k] == i;
      } else {
        var j :| j in b.tools && b.tools[j] == i;
        assert t[j] == i;
      }
    }
  }

  /** One piece's events: always accepted, and by the strict reader exactly when its fragment is timely. */
  lemma StepIsAccepted(strict: bool, b: Blocks, ps: seq<Piece>, p: Piece)
    requires Inv(b, ps)
    ensures AcceptAll(strict, View(b), Step(b, p).1) == if strict && !IsTimely(ps, p) then Bad else View(Step(b, p).0)
  {
    hide Inv, View, AcceptAll, OwnerOf;
    match p
    case TextPiece(text) => TextIsAccepted(strict, b, ps, text);
    case CallPiece(call) => ToolIsAccepted(strict, b, ps, call);
  }

  lemma {:induction false} BadStaysBad(strict: bool, es: seq<Event>)
    ensures AcceptAll(strict, Bad, es) == Bad
    decreases |es|
  {
    if es != [] {
      BadStaysBad(strict, es[1..]);
    }
  }

  lemma TimelyPrefix(ps: seq<Piece>)
    requires ps != []
    ensures NoLateFragment(ps) <==> NoLateFragment(ps[..|ps| - 1]) && IsTimely(ps[..|ps| - 1], ps[|ps| - 1])
  {
    hide IsTimely;
    var init := ps[..|ps| - 1];
    forall i | 0 <= i < |init| ensures IsTimelyAt(init, i) <==> IsTimelyAt(ps, i) {
      assert init[..i] == ps[..i];
    }
    assert IsTimelyAt(ps, |ps| - 1) <==> IsTimely(init, ps[|ps| - 1]);
  }

  lemma {:induction false} PiecesAreAccepted(strict: bool, ps: seq<Piece>)
    ensures var (b, events) := RunFrom(NO_BLOCKS, ps);
      AcceptAll(strict, Body(0, None, {}), events) == if strict && !NoLateFragment(ps) then Bad else View(b)
  {
    hide NoLateFragment, IsTimely, Step, AcceptAll, Accept;
    if ps == [] {
      NoPiecesAccepted(strict);
    } else {
      var init, last := ps[..|ps| - 1], ps[|ps| - 1];
      var (b, events) := RunFrom(NO_BLOCKS, init);
      PiecesAreAccepted(strict, init);
      TimelyPrefix(ps);
      RunKeepsInv(init);
      AcceptConcat(strict, Body(0, None, {}), events, Step(b, last).1);
      StepIsAccepted(strict, b, init, last);
      BadStaysBad(strict, Step(b, last).1);
    }
  }

  lemma NoPiecesAccepted(strict: bool)
    ensures RunFrom(NO_BLOCKS, []) == (NO_BLOCKS, []) && NoLateFragment([])
    ensures AcceptAll(strict, Body(0, None, {}), []) == View(NO_BLOCKS)
  {
    assert View(NO_BLOCKS).tools == {};
  }

  /** Every stream, whatever the chunks, is framed, bracketed and closed; and every delta names the open block
      exactly when no tool index carries a fragment after another block opened. */
  lemma WholeIsAccepted(chunks: seq<Chunk>)
    ensures AcceptAll(false, Begin, Whole(chunks)) == Ended
    ensures AcceptAll(true, Begin, Whole(chunks)) == Ended <==> NoLateFragment(Pieces(chunks))
  {
    AcceptedBy(false, chunks);
    AcceptedBy(true, chunks);
  }

  lemma AcceptedBy(strict: bool, chunks: seq<Chunk>)
    ensures AcceptAll(strict, Begin, Whole(chunks)) == if strict && !NoLateFragment(Pieces(chunks)) then Bad else Ended
  {
    hide NoLateFragment, RunFrom, AcceptAll;
    WholeShape(chunks);
    var ps := Pieces(chunks);
    var (b, events) := RunFrom(NO_BLOCKS, ps);
    var c := RunChunks(chunks).0;
    var frame, close := Frame(chunks), CloseOpen(b);
    var x, y := MessageDelta(c.stop, None, c.outputTokens), MessageStop;
    AcceptTwo(strict, Begin, frame[0], frame[1]);
    assert frame == [frame[0], frame[1]];
    AcceptConcat(strict, Begin, frame + events + close, [x, y]);
    AcceptConcat(strict, Begin, frame + events, close);
    AcceptConcat(strict, Begin, frame, events);
    PiecesAreAccepted(strict, ps);
    AcceptClose(strict, b);
    AcceptTwo(strict, Body(b.next, None, View(b).tools), x, y);
    BadStaysBad(strict, close);
    BadStaysBad(strict, [x, y]);
  }
}
