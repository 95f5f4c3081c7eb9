/** Any way of cutting an answer into chunks streams to the message the answer converts to. */
module StreamCutting {
  import opened Wrappers
  import opened AnthropicStream
  import opened StreamGrammar
  import opened StreamConservation
  import opened StreamRefinement

  function Flat(cuts: seq<string>): string {
    if cuts == [] then "" else Flat(cuts[..|cuts| - 1]) + cuts[|cuts| - 1]
  }

  function CutText(cuts: seq<string>): (ps: seq<Piece>)
    ensures |ps| == |cuts|
  {
    if cuts == [] then [] else CutText(cuts[..|cuts| - 1]) + [TextPiece(cuts[|cuts| - 1])]
  }

  /** A call as index `k`: the first fragment names it, the others only carry arguments. */
  function CutCall(k: int, call: Call, cuts: seq<string>): seq<Piece>
    requires cuts != []
  {
    var n := |cuts| - 1;
    if n == 0 then [CallPiece(ToolCall(k, call.id, call.name, cuts[0]))]
    else CutCall(k, call, cuts[..n]) + [CallPiece(ToolCall(k, "", "", cuts[n]))]
  }

  ghost predicate IsCutOf(calls: seq<Call>, cuts: seq<seq<string>>) {
    |cuts| == |calls| && forall j :: 0 <= j < |calls| ==> cuts[j] != [] && Flat(cuts[j]) == calls[j].args
  }

  function CutCalls(calls: seq<Call>, cuts: seq<seq<string>>): seq<Piece>
    requires |cuts| == |calls| && forall j :: 0 <= j < |cuts| ==> cuts[j] != []
  {
    if calls == [] then []
    else
      var n := |calls| - 1;
      CutCalls(calls[..n], cuts[..n]) + CutCall(n, calls[n], cuts[n])
  }

  lemma {:induction false} CutTextCarries(cuts: seq<string>)
    ensures TextOf(CutText(cuts)) == Flat(cuts)
    ensures Indices(CutText(cuts)) == {} && TextFirst(CutText(cuts))
  {
    if cuts != [] {
      var init, last := cuts[..|cuts| - 1], TextPiece(cuts[|cuts| - 1]);
      CutTextCarries(init);
      hide TextOf, Indices, TextFirst, OwnerOf, ArgsOf;
      NextText(CutText(init), last, 0);
      NextOwner(CutText(init), last);
      TextFirstNext(CutText(init), last);
    }
  }

  /** `qs` is `ps` with one more call, of index `k`. */
  ghost predicate Adds(ps: seq<Piece>, qs: seq<Piece>, k: int, call: Call) {
    && Indices(qs) == Indices(ps) + {k}
    && Order(qs) == Order(ps) + [k]
    && TextOf(qs) == TextOf(ps)
    && (TextFirst(ps) ==> TextFirst(qs))
    && CallOf(qs, k) == call
    && forall j :: j in Indices(ps) ==> CallOf(qs, j) == CallOf(ps, j)
  }

  lemma FirstFragmentAdds(ps: seq<Piece>, k: int, id: string, name: string, args: string)
    requires k !in Indices(ps)
    ensures Adds(ps, ps + [CallPiece(ToolCall(k, id, name, args))], k, Call(id, name, args))
  {
    hide TextOf, Indices, TextFirst, OwnerOf, ArgsOf, Order, FirstCall;
    var p := CallPiece(ToolCall(k, id, name, args));
    NextText(ps, p, k);
    NextOwner(ps, p);
    NextOrder(ps, p);
    TextFirstNext(ps, p);
    ArgsOfStranger(ps, k);
    NextBlock(ps, p, k);
    assert "" + args == args;
    forall j | j in Indices(ps) ensures CallOf(ps + [p], j) == CallOf(ps, j) {
      NextBlock(ps, p, j);
    }
  }

  lemma FragmentAdds(ps: seq<Piece>, qs: seq<Piece>, k: int, call: Call, args: string)
    requires k !in Indices(ps) && Adds(ps, qs, k, call)
    ensures Adds(ps, qs + [CallPiece(ToolCall(k, "", "", args))], k, call.(args := call.args + args))
  {
    hide TextOf, Indices, TextFirst, OwnerOf, ArgsOf, Order, FirstCall;
    var p := CallPiece(ToolCall(k, "", "", args));
    NextText(qs, p, k);
    NextOwner(qs, p);
    NextOrder(qs, p);
    TextFirstNext(qs, p);
    NextBlock(qs, p, k);
    forall j | j in Indices(ps) ensures CallOf(qs + [p], j) == CallOf(qs, j) {
      NextBlock(qs, p, j);
    }
  }

  lemma {:induction false} CutCallAdds(ps: seq<Piece>, k: int, call: Call, cuts: seq<string>)
    requires k !in Indices(ps) && cuts != []
    ensures Adds(ps, ps + CutCall(k, call, cuts), k, call.(args := Flat(cuts)))
    decreases |cuts|
  {
    hide Adds, Indices;
    var n := |cuts| - 1;
    if n == 0 {
      assert Flat(cuts) == cuts[0];
      FirstFragmentAdds(ps, k, call.id, call.name, cuts[0]);
    } else {
      CutCallAdds(ps, k, call, cuts[..n]);
      FragmentAdds(ps, ps + CutCall(k, call, cuts[..n]), k, call.(args := Flat(cuts[..n])), cuts[n]);
      var last := CallPiece(ToolCall(k, "", "", cuts[n]));
      assert ps + CutCall(k, call, cuts) == ps + CutCall(k, call, cuts[..n]) + [last];
    }
  }

  /** `qs` is `ps`, which has no call, with `calls` numbered from 0. */
  ghost predicate AddsAll(ps: seq<Piece>, qs: seq<Piece>, calls: seq<Call>) {
    && |Order(qs)| == |calls|
    && (forall j :: 0 <= j < |calls| ==> Order(qs)[j] == j && j in Indices(qs) && CallOf(qs, j) == calls[j])
    && (forall k :: k in Indices(qs) ==> 0 <= k < |calls|)
    && TextOf(qs) == TextOf(ps)
    && TextFirst(qs)
  }

  lemma AddsOneMore(ps: seq<Piece>, qs: seq<Piece>, rs: seq<Piece>, calls: seq<Call>, call: Call)
    requires AddsAll(ps, qs, calls) && Adds(qs, rs, |calls|, call)
    ensures AddsAll(ps, rs, calls + [call])
  {
    hide TextOf, Indices, TextFirst, Order, CallOf;
  }

  lemma AddsNone(ps: seq<Piece>)
    requires Indices(ps) == {} && TextFirst(ps)
    ensures AddsAll(ps, ps, [])
  {
    NoOrder(ps);
    hide TextOf, Indices, TextFirst, Order, CallOf;
  }

  lemma {:induction false} CutCallsAdd(ps: seq<Piece>, calls: seq<Call>, cuts: seq<seq<string>>)
    requires Indices(ps) == {} && TextFirst(ps)
    requires IsCutOf(calls, cuts)
    ensures AddsAll(ps, ps + CutCalls(calls, cuts), calls)
    decreases |calls|
  {
    hide AddsAll, Adds, Indices, TextFirst, CutCall, Flat;
    if calls == [] {
      AddsNone(ps);
      assert ps + [] == ps;
    } else {
      var n := |calls| - 1;
      var init := CutCalls(calls[..n], cuts[..n]);
      CutCallsAdd(ps, calls[..n], cuts[..n]);
      NextIsNew(ps, ps + init, calls[..n]);
      CutCallAdds(ps + init, n, calls[n], cuts[n]);
      AddsOneMore(ps, ps + init, ps + init + CutCall(n, calls[n], cuts[n]), calls[..n], calls[n]);
      assert calls[..n] + [calls[n]] == calls;
      assert ps + CutCalls(calls, cuts) == ps + init + CutCall(n, calls[n], cuts[n]);
    }
  }

  lemma NextIsNew(ps: seq<Piece>, qs: seq<Piece>, calls: seq<Call>)
    requires AddsAll(ps, qs, calls)
    ensures |calls| !in Indices(qs)
  {
  }

  /** However a non-empty answer with named calls is cut, its stream delivers the answer's own conversion, with the
      input count that the first chunk reports. */
  lemma AnyCutStreamsTheAnswer<J(!new)>(
    parser: Parser<J>, chunks: seq<Chunk>, r: Response, textCuts: seq<string>, callCuts: seq<seq<string>>)
    requires r.content.Plain? && (r.content.text != "" || r.calls != [])
    requires forall j :: 0 <= j < |r.calls| ==> r.calls[j].id != ""
    requires Flat(textCuts) == r.content.text && IsCutOf(r.calls, callCuts)
    requires Pieces(chunks) == CutText(textCuts) + CutCalls(r.calls, callCuts)
    requires chunks != [] && chunks[0].id == r.id && chunks[0].model == r.model
    requires LastFinish(chunks) == r.finish && LastCompletion(chunks) == r.completion
    ensures Delivered(parser, chunks) == OpenaiToAnthropic(parser, r).(inputTokens := FirstPrompt(chunks))
  {
    hide RunFrom, Pieces, TextOf, Indices, TextFirst, CutCalls, CutText, Flat, IsCutOf, Order, FirstCall, ArgsOf,
      Delivered, ContentBlocks, StopReason;
    var ps := Pieces(chunks);
    CutTextCarries(textCuts);
    CutCallsAdd(CutText(textCuts), r.calls, callCuts);
    assert CallsOf(ps) == r.calls;
    forall k | k in Indices(ps) ensures FirstCall(ps, k).id != "" {
      assert CallOf(ps, k) == r.calls[k];
    }
    NothingCarriesNothing();
    StreamRefinesSingleShot(parser, chunks);
  }

  lemma NothingCarriesNothing()
    ensures TextOf([]) == "" && Order([]) == []
  {
  }
}
