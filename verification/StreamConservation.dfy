/** Nothing is lost, moved or invented: every delta stream carries exactly what the chunks carried. */
module StreamConservation {
  import opened Wrappers
  import opened AnthropicStream
  import opened StreamGrammar

  /** The concatenated content of some pieces. */
  function TextOf(ps: seq<Piece>): string {
    if ps == [] then ""
    else
      var last := ps[|ps| - 1];
      TextOf(ps[..|ps| - 1]) + if last.TextPiece? then last.text else ""
  }

  /** The concatenated argument fragments of tool index `k`, in order. */
  function ArgsOf(ps: seq<Piece>, k: int): string {
    if ps == [] then ""
    else
      var last := ps[|ps| - 1];
      ArgsOf(ps[..|ps| - 1], k) + if last.CallPiece? && last.call.index == k then last.call.args else ""
  }

  function TextIn(e: Event): string {
    if e.Delta? && e.body.TextDelta? then e.body.text else ""
  }

  function JsonIn(e: Event, i: nat): string {
    if e.Delta? && e.body.JsonDelta? && e.index == i then e.body.json else ""
  }

  /** The concatenated text deltas a client sees. */
  function TextDeltas(es: seq<Event>): string {
    if es == [] then "" else TextDeltas(es[..|es| - 1]) + TextIn(es[|es| - 1])
  }

  /** The concatenated `partial_json` a client sees for block `i`. */
  function JsonDeltas(es: seq<Event>, i: nat): string {
    if es == [] then "" else JsonDeltas(es[..|es| - 1], i) + JsonIn(es[|es| - 1], i)
  }

  lemma DeltasConcat(a: seq<Event>, b: seq<Event>, i: nat)
    ensures TextDeltas(a + b) == TextDeltas(a) + TextDeltas(b)
    ensures JsonDeltas(a + b, i) == JsonDeltas(a, i) + JsonDeltas(b, i)
  {
    hide TextDeltas, JsonDeltas;
    TextDeltasConcat(a, b);
    JsonDeltasConcat(a, b, i);
  }

  lemma {:induction false} TextDeltasConcat(a: seq<Event>, b: seq<Event>)
    ensures TextDeltas(a + b) == TextDeltas(a) + TextDeltas(b)
    decreases |b|
  {
    hide TextIn;
    if b == [] {
      assert a + b == a;
    } else {
      var init, last := b[..|b| - 1], b[|b| - 1];
      TextDeltasConcat(a, init);
      assert (a + b)[..|a + b| - 1] == a + init && (a + b)[|a + b| - 1] == last;
      assert TextDeltas(a + b) == TextDeltas(a + init) + TextIn(last);
      Regroup(TextDeltas(a), TextDeltas(init), TextIn(last));
    }
  }

  lemma {:induction false} JsonDeltasConcat(a: seq<Event>, b: seq<Event>, i: nat)
    ensures JsonDeltas(a + b, i) == JsonDeltas(a, i) + JsonDeltas(b, i)
    decreases |b|
  {
    hide JsonIn;
    if b == [] {
      assert a + b == a;
    } else {
      var init, last := b[..|b| - 1], b[|b| - 1];
      JsonDeltasConcat(a, init, i);
      assert (a + b)[..|a + b| - 1] == a + init && (a + b)[|a + b| - 1] == last;
      assert JsonDeltas(a + b, i) == JsonDeltas(a + init, i) + JsonIn(last, i);
      Regroup(JsonDeltas(a, i), JsonDeltas(init, i), JsonIn(last, i));
    }
  }

  lemma Regroup(x: string, y: string, z: string)
    ensures (x + y) + z == x + (y + z)
  {
  }

  lemma OneDelta(e: Event, i: nat)
    ensures TextDeltas([e]) == TextIn(e)
    ensures JsonDeltas([e], i) == JsonIn(e, i)
  {
    assert |[e][..0]| == 0;
  }

  lemma NoDelta(b: Blocks, i: nat)
    ensures TextDeltas(CloseOpen(b)) == JsonDeltas(CloseOpen(b), i) == ""
  {
    if b.open.Some? {
      OneDelta(Stop(b.open.value), i);
    }
  }

  lemma FragmentDeltas(index: nat, args: string, i: nat)
    ensures TextDeltas(Fragment(index, args)) == ""
    ensures JsonDeltas(Fragment(index, args), i) == if index == i then args else ""
  {
    OneDelta(Delta(index, JsonDelta(args)), i);
  }

  lemma TextStepDeltas(b: Blocks, text: string, i: nat)
    ensures TextDeltas(TextStep(b, text).1) == text
    ensures JsonDeltas(TextStep(b, text).1, i) == ""
  {
    hide TextDeltas, JsonDeltas;
    if b.text.None? {
      var s, d := Start(b.next, TextStart("")), Delta(b.next, TextDelta(text));
      assert [s] + [d] == [s, d];
      DeltasConcat(CloseOpen(b), [s, d], i);
      DeltasConcat([s], [d], i);
      NoDelta(b, i);
      OneDelta(s, i);
      OneDelta(d, i);
    } else {
      OneDelta(Delta(b.text.value, TextDelta(text)), i);
    }
  }

  lemma ToolStepDeltas(b: Blocks, call: ToolCall, i: nat)
    ensures TextDeltas(ToolStep(b, call).1) == ""
    ensures var (b', es) := ToolStep(b, call);
      JsonDeltas(es, i) == if i == b'.tools[call.index] then call.args else ""
  {
    hide TextDeltas, JsonDeltas, FallbackId;
    if call.index in b.tools {
      FragmentDeltas(b.tools[call.index], call.args, i);
    } else {
      var id := if call.id == "" then FallbackId(call.index) else call.id;
      var s := Start(b.next, ToolStart(id, call.name, NO_INPUT));
      DeltasConcat(CloseOpen(b) + [s], Fragment(b.next, call.args), i);
      DeltasConcat(CloseOpen(b), [s], i);
      NoDelta(b, i);
      OneDelta(s, i);
      FragmentDeltas(b.next, call.args, i);
    }
  }

  /** What the events of `ps` carry: the text, each index's arguments in its own block, text blocks apart. */
  ghost predicate Carries(b: Blocks, es: seq<Event>, ps: seq<Piece>) {
    && TextDeltas(es) == TextOf(ps)
    && (forall k :: k in b.tools ==> JsonDeltas(es, b.tools[k]) == ArgsOf(ps, k))
    && (forall i :: i >= b.next ==> JsonDeltas(es, i) == "")
    && (forall e :: e in es && e.Start? ==>
          e.index < b.next && (e.index in ToolBlocks(b.tools) <==> e.block.ToolStart?))
  }

  lemma {:induction false} ArgsOfStranger(ps: seq<Piece>, k: int)
    requires k !in Indices(ps)
    ensures ArgsOf(ps, k) == ""
  {
    if ps != [] {
      ArgsOfStranger(ps[..|ps| - 1], k);
    }
  }

  lemma NextText(ps: seq<Piece>, p: Piece, k: int)
    ensures TextOf(ps + [p]) == TextOf(ps) + if p.TextPiece? then p.text else ""
    ensures ArgsOf(ps + [p], k) == ArgsOf(ps, k) + if p.CallPiece? && p.call.index == k then p.call.args else ""
  {
    assert (ps + [p])[..|ps|] == ps;
  }

  lemma TextStepStarts(b: Blocks, text: string)
    ensures forall e :: e in TextStep(b, text).1 && e.Start? ==>
      e == Start(b.next, TextStart("")) && TextStep(b, text).0.next == b.next + 1
    ensures TextStep(b, text).0.tools == b.tools && TextStep(b, text).0.next >= b.next
  {
  }

  lemma ToolStepStarts(b: Blocks, call: ToolCall)
    ensures var (b', es) := ToolStep(b, call);
      && call.index in b'.tools
      && (forall e :: e in es && e.Start? ==>
        e.index == b.next && e.block.ToolStart? && b'.next == b.next + 1 && b'.tools[call.index] == b.next)
      && (|| (b' == b && forall e :: e in es ==> !e.Start?)
          || (call.index !in b.tools && b'.next == b.next + 1 && b'.tools == b.tools[call.index := b.next]))
  {
    hide FallbackId;
  }

  lemma TextCarries(b: Blocks, es: seq<Event>, ps: seq<Piece>, text: string)
    requires Inv(b, ps) && Carries(b, es, ps)
    ensures Carries(TextStep(b, text).0, es + TextStep(b, text).1, ps + [TextPiece(text)])
  {
    hide TextDeltas, JsonDeltas, TextOf, ArgsOf, Indices, OwnerOf, TextStep;
    var (b', es') := TextStep(b, text);
    var ps' := ps + [TextPiece(text)];
    TextStepStarts(b, text);
    NextText(ps, TextPiece(text), 0);
    DeltasConcat(es, es', 0);
    TextStepDeltas(b, text, 0);
    forall i: nat ensures JsonDeltas(es + es', i) == JsonDeltas(es, i) {
      DeltasConcat(es, es', i);
      TextStepDeltas(b, text, i);
    }
    forall k ensures ArgsOf(ps', k) == ArgsOf(ps, k) {
      NextText(ps, TextPiece(text), k);
    }
  }

  lemma ToolCarries(b: Blocks, es: seq<Event>, ps: seq<Piece>, call: ToolCall)
    requires Inv(b, ps) && Carries(b, es, ps)
    ensures Carries(ToolStep(b, call).0, es + ToolStep(b, call).1, ps + [CallPiece(call)])
  {
    hide TextDeltas, JsonDeltas, TextOf, ArgsOf, Indices, OwnerOf, ToolStep;
    var (b', es') := ToolStep(b, call);
    var ps' := ps + [CallPiece(call)];
    ToolStepStarts(b, call);
    NextText(ps, CallPiece(call), 0);
    DeltasConcat(es, es', 0);
    ToolStepDeltas(b, call, 0);
    forall i: nat
      ensures JsonDeltas(es + es', i) == JsonDeltas(es, i) + if i == b'.tools[call.index] then call.args else ""
    {
      DeltasConcat(es, es', i);
      ToolStepDeltas(b, call, i);
    }
    forall k ensures ArgsOf(ps', k) == ArgsOf(ps, k) + if call.index == k then call.args else "" {
      NextText(ps, CallPiece(call), k);
    }
    if call.index !in b.tools {
      ArgsOfStranger(ps, call.index);
      NewToolView(b, call.index);
    }
  }

  lemma {:induction false} RunCarries(ps: seq<Piece>)
    ensures var (b, es) := RunFrom(NO_BLOCKS, ps); Carries(b, es, ps)
  {
    if ps != [] {
      var init, last := ps[..|ps| - 1], ps[|ps| - 1];
      RunCarries(init);
      RunKeepsInv(init);
      assert ps == init + [last];
      hide Carries, Inv, TextStep, ToolStep;
      var (b, es) := RunFrom(NO_BLOCKS, init);
      match last
      case TextPiece(text) => TextCarries(b, es, init, text);
      case CallPiece(call) => ToolCarries(b, es, init, call);
    }
  }

  lemma NoDeltaIn(es: seq<Event>, i: nat)
    requires forall e :: e in es ==> !e.Delta?
    ensures TextDeltas(es) == JsonDeltas(es, i) == ""
  {
    if es != [] {
      NoDeltaIn(es[..|es| - 1], i);
    }
  }

  lemma WholeDeltas(chunks: seq<Chunk>, i: nat)
    ensures var es := RunFrom(NO_BLOCKS, Pieces(chunks)).1;
      TextDeltas(Whole(chunks)) == TextDeltas(es) && JsonDeltas(Whole(chunks), i) == JsonDeltas(es, i)
  {
    hide RunFrom, TextDeltas, JsonDeltas;
    WholeShape(chunks);
    var (b, es) := RunFrom(NO_BLOCKS, Pieces(chunks));
    var c := RunChunks(chunks).0;
    var frame, tail := Frame(chunks), [MessageDelta(c.stop, None, c.outputTokens), MessageStop];
    DeltasConcat(frame + es + CloseOpen(b), tail, i);
    DeltasConcat(frame + es, CloseOpen(b), i);
    DeltasConcat(frame, es, i);
    NoDeltaIn(frame, i);
    NoDeltaIn(CloseOpen(b), i);
    NoDeltaIn(tail, i);
  }

  /** For every chunk sequence, interleaved ones included: the text deltas are the content pieces, each tool index has
      a block of its own whose `partial_json` is that index's fragments, and no text block is one of those. */
  lemma WholeConserves(chunks: seq<Chunk>)
    ensures TextDeltas(Whole(chunks)) == TextOf(Pieces(chunks))
    ensures var tools := RunChunks(chunks).0.blocks.tools;
      && tools.Keys == Indices(Pieces(chunks))
      && (forall j, k :: j in tools && k in tools && j != k ==> tools[j] != tools[k])
      && (forall k :: k in tools ==> JsonDeltas(Whole(chunks), tools[k]) == ArgsOf(Pieces(chunks), k))
      && (forall k, e :: k in tools && e in Whole(chunks) && e.Start? && e.index == tools[k] ==> e.block.ToolStart?)
  {
    hide RunFrom, TextDeltas, JsonDeltas, TextOf, ArgsOf, Indices, OwnerOf, Pieces, RunChunks;
    var ps := Pieces(chunks);
    var (b, es) := RunFrom(NO_BLOCKS, ps);
    RunIsPieces(chunks);
    RunCarries(ps);
    RunKeepsInv(ps);
    WholeDeltas(chunks, 0);
    WholeShape(chunks);
    forall k | k in b.tools ensures JsonDeltas(Whole(chunks), b.tools[k]) == ArgsOf(ps, k) {
      WholeDeltas(chunks, b.tools[k]);
    }
    forall k, e | k in b.tools && e in Whole(chunks) && e.Start? && e.index == b.tools[k] ensures e.block.ToolStart? {
      assert e in es;
    }
  }
}
