/** Whole runs of the rewriter: what comes out for a stream, however it is split. */
module RewriterRuns {
  import opened Buffers
  import opened Bytes
  import opened HeaderLines
  import opened HttpComing
  import opened HttpRuns
  import opened HttpStream
  import opened Layouts
  import opened RewriterRoom
  import opened RewriterRopes
  import opened Rewriters

  const NOTHING := Acc([], [])

  function Outset(stream: seq<Message>): Pos
  {
    Pos(HttpStream.Start(stream), 0, NOTHING)
  }

  /** One more piece of the stream. */
  method RewritePiece(rewriter: Rewriter, buffer: Buffer) returns (text: seq<byte>, r: Outcome)
    requires rewriter.Ready() && buffer.Valid() && buffer.Contents() <= Coming(rewriter.parser)
    modifies rewriter, buffer, buffer.Repr
    ensures buffer.Valid() && fresh(buffer.Repr - old(buffer.Repr)) && text == buffer.Contents()
    ensures r == UserError || r == ParserError ==> old(buffer.size) > 0 && Refused(rewriter.policy, rewriter.history)
    ensures r == Done ==> Approves(rewriter.policy, old(rewriter.history), rewriter.history)
    ensures old(Safe(rewriter.policy, LayoutOf(buffer.spine), rewriter.parser)) ==>
      rewriter.misplaced == old(rewriter.misplaced)
    ensures r == Done ==> rewriter.Ready() && rewriter.emitted == old(rewriter.emitted) + text
    ensures old(rewriter.parser).Ok()
    ensures r == Done || r == BlockTooLong ==>
      && rewriter.parser == Advance(rewriter.policy, old(rewriter.parser), |old(buffer.Contents())|)
      && rewriter.parser.Ok()
      && (r == BlockTooLong <==>
        if rewriter.parser.at.Live() then rewriter.parser.Depth() > MAX_PENDING
        else old(buffer.Contents()) == [] && old(rewriter.emitted) != [])
    ensures r == Done && !rewriter.parser.at.Live() ==> (text != [] <==> old(buffer.Contents()) != [])
    ensures r == Done ==>
      Carry(rewriter.parser, rewriter.pending, rewriter.emitted) ==
        CallOn(rewriter.policy, old(Carry(rewriter.parser, rewriter.pending, rewriter.emitted)),
               old(rewriter.RopeOf(buffer)))
    ensures r == Done && !rewriter.misplaced ==> rewriter.emitted + rewriter.pending == Output(rewriter.parser)
  {
    hide RopeRun, Refilled, CallOn, WaitingLen, Output, Advance, Refused, Approves, Coming, Safe, LayoutOf;
    hide Chain, Proper, Nodes, Text, Last;
    ghost var c, rope := Carry(rewriter.parser, rewriter.pending, rewriter.emitted), rewriter.RopeOf(buffer);
    rewriter.ReadyLen();
    r := rewriter.RewriteBuffer(buffer);
    text := TextOf(buffer);
    if r == Done {
      rewriter.ReadyLen();
      CallText(rewriter.policy, c, rope, text, rewriter.pending);
    }
  }

  // ---- buffers that are given one after another -----------------------------------------------

  /** Buffers of any layout, with no chunk in common and none but those of `chunks`; `ropes` tells what they hold and
      how. */
  ghost predicate Given(buffers: seq<Buffer>, ropes: seq<Rope>, chunks: set<Buf>)
    reads buffers, chunks
    decreases |buffers|
  {
    && |buffers| == |ropes|
    && (buffers != [] ==>
        && buffers[0].Repr <= chunks && buffers[0].Valid() && buffers[0] !in buffers[1..]
        && ropes[0] == Rope(buffers[0].Contents(), LayoutOf(buffers[0].spine))
        && Given(buffers[1..], ropes[1..], chunks - buffers[0].Repr))
  }

  /** What the buffers hold. */
  ghost function TextsOf(buffers: seq<Buffer>): (texts: seq<seq<byte>>)
    reads buffers
    ensures |texts| == |buffers| && forall i :: 0 <= i < |texts| ==> texts[i] == buffers[i].Contents()
  {
    if buffers == [] then [] else [buffers[0].Contents()] + TextsOf(buffers[1..])
  }

  function Texts(ropes: seq<Rope>): (pieces: seq<seq<byte>>)
    ensures |pieces| == |ropes| && forall i :: 0 <= i < |ropes| ==> pieces[i] == ropes[i].text
  {
    if ropes == [] then [] else [ropes[0].text] + Texts(ropes[1..])
  }

  /** Where the parser stands when the first `i` pieces of the stream have been taken. */
  ghost function After(policy: Policy, stream: seq<Message>, pieces: seq<seq<byte>>, i: nat): (p: Pos)
    requires MessagesOk(stream) && i <= |pieces|
    ensures p.Ok()
  {
    Advance(policy, Outset(stream), |Concat(pieces[..i])|)
  }

  /** A call fails with `BlockTooLong`: it leaves too long a part of a token, or is given nothing when nothing waits. */
  ghost predicate Blocks(policy: Policy, stream: seq<Message>, pieces: seq<seq<byte>>, i: nat)
    requires MessagesOk(stream) && i < |pieces|
  {
    var p := After(policy, stream, pieces, i + 1);
    if p.at.Live() then p.Depth() > 8192 else pieces[i] == [] && Concat(pieces[..i]) != []
  }

  ghost predicate Unblocked(policy: Policy, stream: seq<Message>, pieces: seq<seq<byte>>, n: nat)
    requires MessagesOk(stream) && n <= |pieces|
  {
    forall i :: 0 <= i < n ==> !Blocks(policy, stream, pieces, i)
  }

  /** No piece ends between the end of a start line and the end of its header block. */
  ghost predicate Uncut(policy: Policy, stream: seq<Message>, pieces: seq<seq<byte>>)
    requires MessagesOk(stream)
  {
    forall i :: 0 <= i < |pieces| ==> !InBlock(After(policy, stream, pieces, i))
  }

  /** Runs in which every added line comes out right, as each call starts out safe. */
  ghost predicate Secure(policy: Policy, stream: seq<Message>, ropes: seq<Rope>)
    requires MessagesOk(stream)
  {
    forall i :: 0 <= i < |ropes| ==> Safe(policy, ropes[i].layout, After(policy, stream, Texts(ropes), i))
  }

  predicate OneChunk(l: Layout)
  {
    l.Chunk? ==> l.rest.Bare?
  }

  /** They are: no line is added; or nothing is shortened, and no chunk has an offset; or no header block is cut, and
      each piece is one chunk. */
  lemma SecureWhen(policy: Policy, stream: seq<Message>, ropes: seq<Rope>)
    requires MessagesOk(stream)
    ensures AddsNothing(policy) ==> Secure(policy, stream, ropes)
    ensures NeverShortens(policy) && (forall r :: r in ropes ==> Level(r.layout)) ==>
      Secure(policy, stream, ropes)
    ensures Uncut(policy, stream, Texts(ropes)) && (forall r :: r in ropes ==> OneChunk(r.layout)) ==>
      Secure(policy, stream, ropes)
  {
    hide Advance, Concat;
  }

  /** A delegate that turns nothing down. */
  ghost predicate NeverRefuses(policy: Policy)
  {
    forall hist :: !Refused(policy, hist)
  }

  /** The first `i` pieces of the stream have been rewritten. */
  ghost predicate Fed(rewriter: Rewriter, stream: seq<Message>, ropes: seq<Rope>, i: nat)
    requires MessagesOk(stream) && i <= |ropes|
    reads rewriter
  {
    var pieces := Texts(ropes);
    && rewriter.Ready()
    && rewriter.parser == After(rewriter.policy, stream, pieces, i)
    && Carry(rewriter.parser, rewriter.pending, rewriter.emitted) == Calls(rewriter.policy, Outset(stream), ropes[..i])
    && (!rewriter.misplaced ==> rewriter.emitted + rewriter.pending == Output(rewriter.parser))
    && (Secure(rewriter.policy, stream, ropes) ==> !rewriter.misplaced)
    && Approves(rewriter.policy, [], rewriter.history)
    && (!rewriter.parser.at.Live() ==> (rewriter.emitted != [] <==> Concat(pieces[..i]) != []))
    && Unblocked(rewriter.policy, stream, pieces, i)
  }

  lemma SecureAt(policy: Policy, stream: seq<Message>, ropes: seq<Rope>, i: nat)
    requires MessagesOk(stream) && i < |ropes|
    ensures Secure(policy, stream, ropes) ==> Safe(policy, ropes[i].layout, After(policy, stream, Texts(ropes), i))
  {
  }

  lemma NothingTaken(policy: Policy, p: Pos)
    requires p.Ok()
    ensures Advance(policy, p, 0) == p
  {
    AdvanceNothing(policy, p);
  }

  lemma UnblockedNext(policy: Policy, stream: seq<Message>, pieces: seq<seq<byte>>, i: nat)
    requires MessagesOk(stream) && i < |pieces|
    ensures Unblocked(policy, stream, pieces, i + 1) <==>
      Unblocked(policy, stream, pieces, i) && !Blocks(policy, stream, pieces, i)
  {
  }

  lemma OutsetComing(stream: seq<Message>)
    requires MessagesOk(stream)
    ensures Coming(Outset(stream)) == RawAll(stream)
  {
  }

  /** The next piece is what the parser expects. */
  lemma NextPiece(policy: Policy, stream: seq<Message>, pieces: seq<seq<byte>>, i: nat)
    requires MessagesOk(stream) && Concat(pieces) == RawAll(stream) && i < |pieces|
    ensures var p := After(policy, stream, pieces, i);
      && pieces[i] <= Coming(p) && Concat(pieces[..i + 1]) == Concat(pieces[..i]) + pieces[i]
      && Advance(policy, p, |pieces[i]|) == After(policy, stream, pieces, i + 1)
  {
    hide Advance, Coming, Concat, RawAll;
    var before := pieces[..i];
    ConcatNext(pieces, i);
    ConcatFrom(pieces, i + 1);
    OutsetComing(stream);
    AdvanceComing(policy, Outset(stream), |Concat(before)|);
    AdvanceTwice(policy, Outset(stream), |Concat(before)|, |pieces[i]|);
  }

  method RewriteNext(rewriter: Rewriter, buffer: Buffer, ghost stream: seq<Message>, ghost ropes: seq<Rope>,
                     ghost i: nat)
    returns (text: seq<byte>, r: Outcome)
    requires MessagesOk(stream) && Concat(Texts(ropes)) == RawAll(stream) && i < |ropes|
    requires Fed(rewriter, stream, ropes, i)
    requires buffer.Valid() && ropes[i] == Rope(buffer.Contents(), LayoutOf(buffer.spine))
    modifies rewriter, buffer, buffer.Repr
    ensures buffer.Valid() && fresh(buffer.Repr - old(buffer.Repr)) && text == buffer.Contents()
    ensures r == UserError || r == ParserError ==> Refused(rewriter.policy, rewriter.history)
    ensures r == BlockTooLong ==> Blocks(rewriter.policy, stream, Texts(ropes), i)
    ensures r == Done ==> Fed(rewriter, stream, ropes, i + 1) && rewriter.emitted == old(rewriter.emitted) + text
  {
    hide Output, Refused, Approves, Coming, After, Unblocked, Secure, Safe, Concat, LayoutOf, Chain, Proper, Nodes;
    hide Calls, CallOn;
    hide Text, Last;
    ghost var pieces := Texts(ropes);
    NextPiece(rewriter.policy, stream, pieces, i);
    SecureAt(rewriter.policy, stream, ropes, i);
    ghost var told, p, was := rewriter.history, rewriter.parser, rewriter.emitted;
    text, r := RewritePiece(rewriter, buffer);
    NothingTaken(rewriter.policy, p);
    if r == Done {
      CallsNext(rewriter.policy, Outset(stream), ropes, i);
      ApprovesBoth(rewriter.policy, [], told, rewriter.history);
      UnblockedNext(rewriter.policy, stream, pieces, i);
    }
  }

  lemma BlocksThen(policy: Policy, stream: seq<Message>, pieces: seq<seq<byte>>, i: nat)
    requires MessagesOk(stream) && i < |pieces|
    ensures Blocks(policy, stream, pieces, i) ==> !Unblocked(policy, stream, pieces, |pieces|)
  {
  }

  lemma OutsetFacts(policy: Policy, stream: seq<Message>, pieces: seq<seq<byte>>)
    requires MessagesOk(stream)
    ensures Concat(pieces[..0]) == [] && After(policy, stream, pieces, 0) == Outset(stream)
    ensures Output(Outset(stream)) == [] && Unblocked(policy, stream, pieces, 0)
  {
  }

  /** When all bytes of the stream have been taken, the output is the edited stream and nothing is waiting. */
  lemma WholeStream(policy: Policy, stream: seq<Message>, p: Pos)
    requires MessagesOk(stream) && p == Advance(policy, Outset(stream), |RawAll(stream)|)
    ensures p == Pos(HttpStream.Start([]), 0, EditAll(policy, NOTHING, stream))
    ensures Output(p) == EditAll(policy, NOTHING, stream).out
  {
    RunAll(policy, stream, NOTHING, Outset(stream));
  }

  lemma FirstFed(rewriter: Rewriter, stream: seq<Message>, ropes: seq<Rope>)
    requires MessagesOk(stream) && rewriter.Ready() && rewriter.parser == Outset(stream)
    requires rewriter.emitted == rewriter.pending == [] && rewriter.history == [] && !rewriter.misplaced
    ensures Fed(rewriter, stream, ropes, 0)
  {
    assert ropes[..0] == [];
    OutsetFacts(rewriter.policy, stream, Texts(ropes));
    ApprovesNone(rewriter.policy, []);
  }

  lemma Finished(rewriter: Rewriter, stream: seq<Message>, ropes: seq<Rope>)
    requires MessagesOk(stream) && Concat(Texts(ropes)) == RawAll(stream) && Fed(rewriter, stream, ropes, |ropes|)
    ensures rewriter.history == EditAll(rewriter.policy, NOTHING, stream).hist
    ensures forall n :: 0 < n <= |rewriter.history| ==> !Refused(rewriter.policy, rewriter.history[..n])
    ensures Secure(rewriter.policy, stream, ropes) || !rewriter.misplaced ==>
      rewriter.emitted == EditAll(rewriter.policy, NOTHING, stream).out
    ensures Unblocked(rewriter.policy, stream, Texts(ropes), |ropes|)
    ensures rewriter.emitted == Calls(rewriter.policy, Outset(stream), ropes).out
  {
    hide Calls, Texts, Concat, RawAll, Advance, EditAll, Output, Secure, Refused, Unblocked;
    assert ropes[..|ropes|] == ropes;
    ApprovedAll(rewriter.policy, rewriter.history);
    assert Texts(ropes)[..|ropes|] == Texts(ropes);
    WholeStream(rewriter.policy, stream, rewriter.parser);
  }

  lemma Foremost(buffers: seq<Buffer>, ropes: seq<Rope>, chunks: set<Buf>, i: nat)
    requires i < |buffers| == |ropes| && Given(buffers[i..], ropes[i..], chunks)
    ensures buffers[i].Valid() && ropes[i] == Rope(buffers[i].Contents(), LayoutOf(buffers[i].spine))
    ensures buffers[i] !in buffers[i + 1..] && buffers[i].Repr <= chunks
    ensures Given(buffers[i + 1..], ropes[i + 1..], chunks - buffers[i].Repr)
  {
    hide LayoutOf;
    assert buffers[i..][1..] == buffers[i + 1..] && ropes[i..][1..] == ropes[i + 1..];
  }

  lemma NoTexts(texts: seq<seq<byte>>)
    ensures Concat(texts[..0]) == []
  {
  }

  lemma TextsNext(before: seq<seq<byte>>, after: seq<seq<byte>>, i: nat)
    requires i < |before| == |after| && forall j :: 0 <= j < i ==> before[j] == after[j]
    ensures Concat(after[..i + 1]) == Concat(before[..i]) + after[i]
  {
    assert after[..i] == before[..i];
    ConcatNext(after, i);
  }

  /** The next buffer; those behind it stay as they are. */
  method FeedNext(rewriter: Rewriter, buffers: seq<Buffer>, ghost stream: seq<Message>, ghost ropes: seq<Rope>, i: nat,
                  ghost chunks: set<Buf>)
    returns (text: seq<byte>, r: Outcome, ghost left: set<Buf>)
    requires MessagesOk(stream) && Concat(Texts(ropes)) == RawAll(stream) && i < |buffers| == |ropes|
    requires Fed(rewriter, stream, ropes, i) && Given(buffers[i..], ropes[i..], chunks)
    requires forall j :: 0 <= j < i ==> buffers[j] != buffers[i]
    modifies rewriter, buffers[i], chunks
    ensures r == UserError || r == ParserError ==> Refused(rewriter.policy, rewriter.history)
    ensures r == BlockTooLong ==> Blocks(rewriter.policy, stream, Texts(ropes), i)
    ensures r == Done ==> Fed(rewriter, stream, ropes, i + 1) && rewriter.emitted == old(rewriter.emitted) + text
    ensures left <= chunks && Given(buffers[i + 1..], ropes[i + 1..], left)
    ensures Concat(TextsOf(buffers)[..i + 1]) == Concat(old(TextsOf(buffers))[..i]) + text
  {
    hide Refused, Fed, Blocks, Concat, Given, Texts, LayoutOf, Chain, Proper, Nodes, Text, Last;
    Foremost(buffers, ropes, chunks, i);
    ghost var before := TextsOf(buffers);
    left := chunks - buffers[i].Repr;
    text, r := RewriteNext(rewriter, buffers[i], stream, ropes, i);
    TextsNext(before, TextsOf(buffers), i);
  }

  lemma {:induction false} AllApart(buffers: seq<Buffer>, ropes: seq<Rope>, chunks: set<Buf>)
    requires Given(buffers, ropes, chunks)
    ensures |buffers| == |ropes|
    ensures forall j, k :: 0 <= j < k < |buffers| ==> buffers[j] != buffers[k]
    decreases |buffers|
  {
    hide LayoutOf;
    if buffers == [] {
    } else {
      AllApart(buffers[1..], ropes[1..], chunks - buffers[0].Repr);
      forall j, k | 0 <= j < k < |buffers|
        ensures buffers[j] != buffers[k]
      {
        assert buffers[k] == buffers[1..][k - 1];
        assert j > 0 ==> buffers[j] == buffers[1..][j - 1];
      }
    }
  }

  /** The first `i` calls have ended with `r`, and `out` is what has been handed over. */
  ghost predicate Underway(rewriter: Rewriter, buffers: seq<Buffer>, stream: seq<Message>, ropes: seq<Rope>, i: nat,
                           left: set<Buf>, out: seq<byte>, r: Outcome)
    requires MessagesOk(stream) && i <= |buffers| == |ropes|
    reads rewriter, buffers, left
  {
    && (r == UserError || r == ParserError ==> Refused(rewriter.policy, rewriter.history))
    && (r == BlockTooLong ==> !Unblocked(rewriter.policy, stream, Texts(ropes), |ropes|))
    && (r == Done ==> Fed(rewriter, stream, ropes, i) && out == rewriter.emitted == Concat(TextsOf(buffers)[..i]))
    && Given(buffers[i..], ropes[i..], left)
  }

  method FeedOn(rewriter: Rewriter, buffers: seq<Buffer>, ghost stream: seq<Message>, ghost ropes: seq<Rope>, i: nat,
                ghost chunks: set<Buf>, out: seq<byte>)
    returns (all: seq<byte>, r: Outcome, ghost left: set<Buf>)
    requires MessagesOk(stream) && Concat(Texts(ropes)) == RawAll(stream) && i < |buffers| == |ropes|
    requires Underway(rewriter, buffers, stream, ropes, i, chunks, out, Done)
    requires forall j :: 0 <= j < i ==> buffers[j] != buffers[i]
    modifies rewriter, buffers[i], chunks
    ensures left <= chunks && Underway(rewriter, buffers, stream, ropes, i + 1, left, all, r)
  {
    hide Refused, Fed, Blocks, Unblocked, Concat, Given, Texts, Chain, Proper, Nodes, Text;
    var text;
    text, r, left := FeedNext(rewriter, buffers, stream, ropes, i, chunks);
    BlocksThen(rewriter.policy, stream, Texts(ropes), i);
    all := out + text;
  }

  lemma FedAll(rewriter: Rewriter, buffers: seq<Buffer>, stream: seq<Message>, ropes: seq<Rope>, i: nat, left: set<Buf>,
               out: seq<byte>, r: Outcome)
    requires MessagesOk(stream) && i <= |buffers| == |ropes|
    requires Underway(rewriter, buffers, stream, ropes, i, left, out, r) && (r == Done ==> i == |buffers|)
    ensures r == UserError || r == ParserError ==> Refused(rewriter.policy, rewriter.history)
    ensures r == BlockTooLong ==> !Unblocked(rewriter.policy, stream, Texts(ropes), |ropes|)
    ensures r == Done ==> Fed(rewriter, stream, ropes, |ropes|) && out == rewriter.emitted == Concat(TextsOf(buffers))
  {
    hide Refused, Unblocked, Fed, Concat, Given, Texts;
    assert TextsOf(buffers)[..|buffers|] == TextsOf(buffers);
  }

  /** All the buffers, one after another, until a call fails. */
  method FeedAll(rewriter: Rewriter, buffers: seq<Buffer>, ghost stream: seq<Message>, ghost ropes: seq<Rope>,
                 ghost chunks: set<Buf>)
    returns (out: seq<byte>, r: Outcome)
    requires MessagesOk(stream) && Concat(Texts(ropes)) == RawAll(stream) && Fed(rewriter, stream, ropes, 0)
    requires Given(buffers, ropes, chunks) && rewriter.emitted == []
    modifies rewriter, buffers, chunks
    ensures r == UserError || r == ParserError ==> Refused(rewriter.policy, rewriter.history)
    ensures r == BlockTooLong ==> !Unblocked(rewriter.policy, stream, Texts(ropes), |ropes|)
    ensures r == Done ==> Fed(rewriter, stream, ropes, |ropes|) && out == rewriter.emitted == Concat(TextsOf(buffers))
  {
    hide Refused, Unblocked, Fed, Concat, Given, Texts, Chain, Proper, Nodes, Text;
    AllApart(buffers, ropes, chunks);
    NoTexts(TextsOf(buffers));
    assert buffers[0..] == buffers && ropes[0..] == ropes;
    ghost var left := chunks;
    out, r := [], Done;
    var i := 0;
    assert Underway(rewriter, buffers, stream, ropes, i, left, out, r);
    hide Underway;
    while i < |buffers| && r == Done
      invariant i <= |buffers| == |ropes| && left <= chunks
      invariant Underway(rewriter, buffers, stream, ropes, i, left, out, r)
    {
      out, r, left := FeedOn(rewriter, buffers, stream, ropes, i, left, out);
      i := i + 1;
    }
    FedAll(rewriter, buffers, stream, ropes, i, left, out, r);
  }

  /**
   Rewrites a stream that arrives in the given buffers, in place, until a call fails. What comes out does not depend on
   how it is cut: if none fails, the delegate has been told what it should, has approved of it, and the output is the
   stream with its edits (for a delegate that adds header lines under a condition on the calls; in any case it is what
   the calls make of the ropes, one after another); and whether one fails is known before.
   */
  method RewriteStream(policy: Policy, isRequest: bool, stream: seq<Message>, buffers: seq<Buffer>,
                       ghost ropes: seq<Rope>, ghost chunks: set<Buf>)
    returns (out: seq<byte>, r: Outcome, rewriter: Rewriter)
    requires MessagesOk(stream) && MessagesOfKind(stream, isRequest)
    requires Given(buffers, ropes, chunks) && Concat(Texts(ropes)) == RawAll(stream)
    modifies buffers, chunks
    ensures rewriter.policy == policy && (r == UserError || r == ParserError ==> Refused(policy, rewriter.history))
    ensures r == BlockTooLong ==> !Unblocked(policy, stream, Texts(ropes), |ropes|)
    ensures r == Done ==> Unblocked(policy, stream, Texts(ropes), |ropes|)
    ensures NeverRefuses(policy) ==> (r == Done <==> Unblocked(policy, stream, Texts(ropes), |ropes|))
    ensures r == Done ==> rewriter.history == EditAll(policy, NOTHING, stream).hist
    ensures r == Done ==> forall n :: 0 < n <= |rewriter.history| ==> !Refused(policy, rewriter.history[..n])
    ensures r == Done ==> out == Concat(TextsOf(buffers)) == Calls(policy, Outset(stream), ropes).out
    ensures r == Done && Secure(policy, stream, ropes) ==> out == EditAll(policy, NOTHING, stream).out
    ensures r == Done && !rewriter.misplaced ==> out == EditAll(policy, NOTHING, stream).out
  {
    hide Calls, Refused, Approves, EditAll, Secure, Unblocked, Fed, Concat, Given, Texts, LayoutOf, Chain, Proper;
    hide Nodes;
    hide Text, Last;
    rewriter := new Rewriter(policy, isRequest, stream);
    FirstFed(rewriter, stream, ropes);
    out, r := FeedAll(rewriter, buffers, stream, ropes, chunks);
    if r == Done {
      Finished(rewriter, stream, ropes);
    }
  }

  // ---- what the edited stream is --------------------------------------------------------------

  /** A delegate that changes nothing. */
  ghost predicate KeepsAll(policy: Policy)
  {
    forall hist :: policy.token(hist).KeepToken? && policy.header(hist).KeepHeader?
      && policy.done(hist) == AddHeaders([])
  }

  lemma KeptParts(out: seq<byte>, start: seq<byte>, lines: seq<byte>, body: seq<byte>)
    ensures ((out + start) + lines) + (CRLF + body) == out + (start + (lines + CRLF + body))
  {
    Assoc(lines, CRLF, body);
    Assoc(out + start, lines, CRLF + body);
    Assoc(out, start, lines + (CRLF + body));
  }

  lemma StartParts(out: seq<byte>, a: seq<byte>, b: seq<byte>, c: seq<byte>)
    ensures ((out + (a + SP)) + (b + SP)) + (c + CRLF) == out + (a + SP + b + (SP + c + CRLF))
  {
    Assoc(SP, c, CRLF);
    Assoc(b, SP, c + CRLF);
    Assoc(a + SP, b, SP + (c + CRLF));
    Assoc(out + (a + SP), b + SP, c + CRLF);
    Assoc(out, a + SP, (b + SP) + (c + CRLF));
  }

  lemma KeptStart(policy: Policy, a: Acc, s: StartLine)
    requires KeepsAll(policy)
    ensures EditRest(policy, EditFirst(policy, a, s), s).out == a.out + s.Raw()
  {
    var a1 := EditFirst(policy, a, s);
    assert a1.out == a.out + (s.First() + SP);
    if s.RequestLine? {
      var a2 := EditToken(policy, a1, Url, s.url, SP);
      assert a2.out == a1.out + (s.url + SP);
      assert EditRest(policy, a1, s).out == a2.out + (s.version + CRLF);
      StartParts(a.out, s.First(), s.url, s.version);
    } else {
      assert EditRest(policy, a1, s).out == a1.out + (s.Second() + CRLF);
      Assoc(a.out, s.First() + SP, s.Second() + CRLF);
      Assoc(s.First() + SP, s.Second(), CRLF);
    }
  }

  lemma {:induction false} KeptHeaders(policy: Policy, a: Acc, hs: seq<Header>)
    requires KeepsAll(policy)
    ensures EditHeaders(policy, a, hs).out == a.out + RawLines(hs)
    decreases |hs|
  {
    if hs == [] {
      assert a.out + [] == a.out;
    } else {
      var b := EditHeader(policy, a, hs[0]);
      assert b.out == a.out + (hs[0].Line() + CRLF);
      KeptHeaders(policy, b, hs[1..]);
      Assoc(a.out, hs[0].Line() + CRLF, RawLines(hs[1..]));
    }
  }

  lemma KeptDone(policy: Policy, a: Acc)
    requires KeepsAll(policy)
    ensures EditDone(policy, a).out == a.out
  {
    assert a.out + [] == a.out;
  }

  lemma KeptMessage(policy: Policy, a: Acc, m: Message)
    requires KeepsAll(policy)
    ensures EditMessage(policy, a, m).out == a.out + m.Raw()
  {
    var a1 := EditFirst(policy, a, m.start);
    var a2 := EditRest(policy, a1, m.start);
    var a3 := EditHeaders(policy, a2, m.headers);
    KeptStart(policy, a, m.start);
    KeptHeaders(policy, a2, m.headers);
    KeptDone(policy, a3);
    KeptParts(a.out, m.start.Raw(), RawLines(m.headers), m.body);
  }

  /** Such a delegate gets the stream back as it was. */
  lemma {:induction false} KeptStream(policy: Policy, a: Acc, ms: seq<Message>)
    requires KeepsAll(policy)
    ensures EditAll(policy, a, ms).out == a.out + RawAll(ms)
    decreases |ms|
  {
    if ms == [] {
      assert a.out + [] == a.out;
    } else {
      KeptMessage(policy, a, ms[0]);
      KeptStream(policy, EditMessage(policy, a, ms[0]), ms[1..]);
      Assoc(a.out, ms[0].Raw(), RawAll(ms[1..]));
    }
  }
}
