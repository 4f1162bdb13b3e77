/** Runs in which the rewriter does not do what one would expect. */
module RewriterExamples {
  import opened Buffers
  import opened Bytes
  import opened HeaderLines
  import opened HttpRuns
  import opened HttpStream
  import opened Layouts
  import opened RewriterRoom
  import opened RewriterRopes
  import opened RewriterRuns
  import opened Rewriters

  lemma PieceSafe(policy: Policy, l: Layout, n: nat, p: Pos)
    requires l == if n == 0 then Bare else Chunk([], n, [], Bare)
    ensures !InBlock(p) ==> Safe(policy, l, p)
  {
  }

  /** A buffer that has been made for these bytes. */
  function FreshRope(piece: seq<byte>): Rope
  {
    Rope(piece, if piece == [] then Bare else Chunk([], |piece|, [], Bare))
  }

  /** One more piece of the stream, in a buffer of its own. */
  method RewriteBytes(rewriter: Rewriter, piece: seq<byte>) returns (text: seq<byte>, r: Outcome)
    requires rewriter.Ready() && piece <= Coming(rewriter.parser)
    modifies rewriter
    ensures old(rewriter.parser).Ok()
    ensures r == UserError || r == ParserError ==> piece != [] && Refused(rewriter.policy, rewriter.history)
    ensures r == Done ==> rewriter.Ready() && rewriter.emitted == old(rewriter.emitted) + text
    ensures r == Done || r == BlockTooLong ==>
      && rewriter.parser == Advance(rewriter.policy, old(rewriter.parser), |piece|) && rewriter.parser.Ok()
      && (r == BlockTooLong <==>
        if rewriter.parser.at.Live() then rewriter.parser.Depth() > MAX_PENDING
        else piece == [] && old(rewriter.emitted) != [])
    ensures r == Done && !rewriter.parser.at.Live() ==> (text != [] <==> piece != [])
    ensures r == Done ==>
      && |rewriter.pending| == WaitingLen(rewriter.parser)
      && text + rewriter.pending ==
        RopeRun(rewriter.policy, old(rewriter.parser), Refilled(old(rewriter.pending), FreshRope(piece)), |piece|).text
    ensures r == Done && !old(rewriter.misplaced) && !InBlock(old(rewriter.parser)) ==>
      rewriter.emitted + rewriter.pending == Output(rewriter.parser)
  {
    hide RopeRun, Refilled, WaitingLen, Output, Advance, Refused, Approves, Coming, Safe, LayoutOf;
    hide Chain, Proper, Nodes, Text, Last;
    var buffer := BufferOf(piece);
    PieceSafe(rewriter.policy, LayoutOf(buffer.spine), |piece|, rewriter.parser);
    r := rewriter.RewriteBuffer(buffer);
    text := TextOf(buffer);
    if r == Done {
      rewriter.ReadyLen();
    }
  }

  // ---- a header that is carried over and deleted ----------------------------------------------

  /** `G / H`, one header line `A: bcd`, and no body. */
  const GREETING: seq<byte> := [71, 32, 47, 32, 72, 13, 10]
  const HEADER := Header([65], [58, 32], [98, 99, 100])
  const REQUEST := Message(RequestLine([71], [47], [72]), [HEADER], [])
  /** The line `C:d`. */
  const ADDED: seq<byte> := [67, 58, 100]

  /** A delegate that deletes every header and adds one line. */
  function Swapping(): Policy
  {
    Policy(_ => KeepToken, _ => DeleteHeader, _ => AddHeaders([ADDED]), _ => true)
  }

  lemma NeverRefused(hist: seq<Event>)
    ensures !Refused(Swapping(), hist)
  {
  }

  lemma RequestRaw()
    ensures MessagesOk([REQUEST]) && MessagesOfKind([REQUEST], true)
    ensures RawAll([REQUEST]) == GREETING + ([65, 58] + ([32, 98, 99, 100] + (CRLF + CRLF)))
    ensures |REQUEST.start.Raw()| == 7
  {
    assert [REQUEST][1..] == [] && [HEADER][1..] == [];
    var m := REQUEST;
    assert m.start.Raw() == GREETING;
    assert HEADER.Line() == [65, 58, 32, 98, 99, 100];
    assert RawLines(m.headers) == HEADER.Line() + CRLF + RawLines([]);
    assert RawHead(m.headers, m.body) == [65, 58] + ([32, 98, 99, 100] + (CRLF + CRLF));
    assert RawAll([m]) == m.Raw() + RawAll([]);
  }

  /** Where the parser stands when the first piece has been taken: in the colon and the space behind the header name. */
  lemma FirstPiece(po: Policy, p: Pos, t: Pos, f: Pos, g: Pos)
    requires po == Swapping() && p == Outset([REQUEST])
    requires t == Pos(Third(REQUEST, []), 0, EditFirst(po, NOTHING, REQUEST.start))
    requires f == Pos(Field(HEADER, [], [], []), 0, EditRest(po, t.acc, REQUEST.start))
    requires g == Pos(Gap(HEADER, [], [], []), 1, f.acc)
    ensures p.Ok() && Advance(po, p, 9) == g && g.Ok()
    ensures g.acc.out == GREETING && g.Depth() == 2 && g.at.Raw() == [65, 58] + ([32, 98, 99, 100] + (CRLF + CRLF))
  {
    RequestRaw();
    hide Advance;
    assert [REQUEST] == [REQUEST] + [];
    RunStart(po, REQUEST, [], NOTHING, p, Pos(First(REQUEST, []), 0, NOTHING), t);
    AdvanceEat(po, p, 7, 1);
    AdvanceOne(po, p, 8);
    assert RawAll([]) == [];
    assert RawHead([], []) + [] == CRLF;
  }

  /** What the first call leaves waiting. */
  lemma Waits(r: Rewriter, g: Pos)
    requires r.Ready() && r.parser == g && g.Ok() && g.at == Gap(HEADER, [], [], []) && g.left == 1
    requires g.Depth() == 2 && g.at.Raw() == [65, 58] + ([32, 98, 99, 100] + (CRLF + CRLF))
    ensures r.pending == [65, 58]
  {
    assert r.pending[0..] == r.pending;
    assert g.at.Raw()[..2] == [65, 58];
  }

  /** Deleting the header takes the piece's front away; the added line goes into the slack, and its line end astray. */
  lemma Harm(l: Layout, text: seq<byte>)
    requires text == [65, 58, 32, 98, 99, 100, 13, 10, 13, 10] && l == Chunk([], 2, [], Chunk([], 8, [], Bare))
    ensures var k := LineResized(l, text, 0, 6, DeleteHeader);
      && k == Chunk([32, 98, 99, 100, 13, 10], 2, [], Bare)
      && WithLines(Rope(CRLF, k), 0, [ADDED]).text == [67, 58, 13, 10, 10, 13, 10]
  {
    var k := Chunk([32, 98, 99, 100, 13, 10], 2, [], Bare);
    var rest := Chunk([], 8, [], Bare);
    assert Drop(text, 2) == [32, 98, 99, 100, 13, 10, 13, 10];
    assert Removed(rest, Drop(text, 2), 6) == k;
    assert Shrunk(l, text, 0, 8) == Removed(l, text, 8) == k;
    var m := Chunk([32], 7, [], Bare);
    assert Opened(k, CRLF, 0, 5) == m;
    assert GapBytes(k, 0, 5) == [98, 99, 100, 13, 10];
    assert LineCopied(CRLF, k, 0, ADDED) == [67, 58, 100, 13, 10, 13, 10];
    assert Lands(m, 3) == Lands(m, 4) == Landing(1, false);
    var none: seq<seq<byte>> := [];
    assert [ADDED][..0] == none && WithLines(Rope(CRLF, k), 0, none) == Rope(CRLF, k);
    assert LineAdded(CRLF, k, 0, ADDED) == [67, 58, 13, 10, 10, 13, 10];
  }

  /** Where the parser stands between the two calls. */
  ghost function Split(): (g: Pos)
    ensures Outset([REQUEST]).Ok() && Advance(Swapping(), Outset([REQUEST]), 9) == g && g.Ok()
    ensures g.at == Gap(HEADER, [], [], []) && g.left == 1
    ensures g.acc.out == GREETING && g.Depth() == 2 && g.at.Raw() == [65, 58] + ([32, 98, 99, 100] + (CRLF + CRLF))
  {
    var t := Pos(Third(REQUEST, []), 0, EditFirst(Swapping(), NOTHING, REQUEST.start));
    var f := Pos(Field(HEADER, [], [], []), 0, EditRest(Swapping(), t.acc, REQUEST.start));
    var g := Pos(Gap(HEADER, [], [], []), 1, f.acc);
    FirstPiece(Swapping(), Outset([REQUEST]), t, f, g);
    g
  }

  lemma HandedOver(g: Pos, head: seq<byte>)
    requires g.Ok() && g.at.Live() && g.acc.out == GREETING && g.Depth() == 2
    requires g.at.Raw() == [65, 58] + ([32, 98, 99, 100] + (CRLF + CRLF)) && head + [65, 58] == Output(g)
    ensures head == GREETING
  {
    assert g.at.Raw()[..2] == [65, 58];
    assert (head + [65, 58])[..|head|] == head;
  }

  /** The first of two calls: the piece ends behind `A:`. */
  method FirstCall() returns (rewriter: Rewriter, head: seq<byte>)
    ensures fresh(rewriter) && rewriter.Ready() && rewriter.policy == Swapping() && rewriter.parser == Split()
    ensures head == GREETING && rewriter.pending == [65, 58]
  {
    hide RopeRun, Refilled, WaitingLen, Output, Advance, Refused, Approves, Coming, RawAll, EditFirst, EditRest;
    RequestRaw();
    rewriter := new Rewriter(Swapping(), true, [REQUEST]);
    ghost var g := Split();
    OutsetComing([REQUEST]);
    var r;
    head, r := RewriteBytes(rewriter, GREETING + [65, 58]);
    NeverRefused(rewriter.history);
    Waits(rewriter, g);
    HandedOver(g, head);
  }

  lemma LastEdit(po: Policy, cr: Pos, r: Rope, text: seq<byte>)
    requires po == Swapping() && cr == Pos(LastCr(HEADER, [], []), 0, cr.acc)
    requires text == [65, 58, 32, 98, 99, 100, 13, 10, 13, 10]
    requires r == Rope(text, Chunk([], 2, [], Chunk([], 8, [], Bare)))
    ensures FireRope(po, cr, r, 1).text == [67, 58, 13, 10, 10, 13, 10]
  {
    hide LineResized, WithLines;
    Harm(r.layout, text);
    assert Replace(text, 0, 8, []) == CRLF;
    var q := HeaderRope(po, cr.acc.hist, r, 0, HEADER);
    assert q == Rope(CRLF, LineResized(r.layout, text, 0, 6, DeleteHeader));
  }

  /** What the second call makes of the kept bytes and the second piece: up to the end of the header block nothing is
      edited. */
  lemma SecondRun(po: Policy, g: Pos, gap: Pos, val: Pos, eol: Pos, cr: Pos, r: Rope, text: seq<byte>)
    requires po == Swapping() && g == Pos(Gap(HEADER, [], [], []), 1, g.acc)
    requires gap == Pos(Gap(HEADER, [], [], []), 0, g.acc)
    requires val == Pos(Value(HEADER, [], [], []), 0, g.acc) && eol == Pos(Eol(HEADER, [], [], []), 0, g.acc)
    requires cr == Pos(LastCr(HEADER, [], []), 0, g.acc)
    requires text == [65, 58, 32, 98, 99, 100, 13, 10, 13, 10]
    requires r == Rope(text, Chunk([], 2, [], Chunk([], 8, [], Bare)))
    ensures g.Ok() && RopeRun(po, g, r, 8).text == [67, 58, 13, 10, 10, 13, 10]
  {
    hide RopeRun, FireRope, HeaderRope, DoneRope;
    PassRun(po, g, gap, 1, r, 8);
    PassRun(po, gap, val, 3, r, 7);
    PassRun(po, val, eol, 2, r, 4);
    PassRun(po, eol, cr, 1, r, 2);
    RunOne(po, cr, r, 1);
    RunNothing(po, Next(po, cr), FireRope(po, cr, r, 1));
    LastEdit(po, cr, r, text);
  }

  /** The second piece is what the parser expects, and with it the stream is over. */
  lemma SecondComing(g: Pos, piece: seq<byte>)
    requires g == Split() && piece == [32, 98, 99, 100, 13, 10, 13, 10]
    ensures g.Ok() && piece <= Coming(g) && Advance(Swapping(), g, 8).at == HttpStream.Start([])
  {
    hide Advance, RawAll;
    RequestRaw();
    AdvanceTwice(Swapping(), Outset([REQUEST]), 9, 8);
    WholeStream(Swapping(), [REQUEST], Advance(Swapping(), Outset([REQUEST]), 17));
  }

  lemma SecondText(g: Pos, piece: seq<byte>)
    requires g == Split() && piece == [32, 98, 99, 100, 13, 10, 13, 10]
    ensures g.Ok()
    ensures RopeRun(Swapping(), g, Refilled([65, 58], FreshRope(piece)), 8).text == [67, 58, 13, 10, 10, 13, 10]
  {
    hide RopeRun;
    var text := [65, 58, 32, 98, 99, 100, 13, 10, 13, 10];
    assert [65, 58] + piece == text;
    assert Refilled([65, 58], FreshRope(piece)) == Rope(text, Chunk([], 2, [], Chunk([], 8, [], Bare)));
    SecondRun(Swapping(), g, Pos(Gap(HEADER, [], [], []), 0, g.acc), Pos(Value(HEADER, [], [], []), 0, g.acc),
              Pos(Eol(HEADER, [], [], []), 0, g.acc), Pos(LastCr(HEADER, [], []), 0, g.acc),
              Rope(text, Chunk([], 2, [], Chunk([], 8, [], Bare))), text);
  }

  /** The second of two calls: it takes the rest of the stream. */
  method SecondCall(rewriter: Rewriter, ghost g: Pos) returns (rest: seq<byte>)
    requires rewriter.Ready() && rewriter.policy == Swapping() && rewriter.parser == g && rewriter.pending == [65, 58]
    requires g == Split()
    modifies rewriter
    ensures rest == [67, 58, 13, 10, 10, 13, 10]
  {
    hide Output, Advance, Refused, Approves, Coming, RawAll, EditFirst, EditRest, RopeRun, Refilled, EditAll;
    var piece := [32, 98, 99, 100, 13, 10, 13, 10];
    SecondComing(g, piece);
    var r;
    rest, r := RewriteBytes(rewriter, piece);
    NeverRefused(rewriter.history);
    SecondText(g, piece);
    assert rest + [] == rest;
  }

  /** The stream with the delegate's edits. */
  lemma Swapped()
    ensures EditAll(Swapping(), NOTHING, [REQUEST]).out == GREETING + (ADDED + CRLF + CRLF)
  {
    var po, m, s := Swapping(), REQUEST, REQUEST.start;
    var a1 := EditFirst(po, NOTHING, s);
    var a2 := EditRest(po, a1, s);
    assert a1.out == [71, 32] && a2.out == GREETING;
    var a3 := EditHeader(po, a2, HEADER);
    assert [HEADER][1..] == [] && EditHeaders(po, a2, m.headers) == EditHeaders(po, a3, []) == a3;
    assert a3.out == GREETING;
    assert [ADDED][..0] == [] && AddedLines([ADDED]) == ADDED + CRLF;
    var a4 := EditDone(po, a3);
    assert a4.out == GREETING + (ADDED + CRLF);
    assert [REQUEST][1..] == [];
    assert EditMessage(po, NOTHING, m).out == a4.out + CRLF;
  }

  /**
   A header line that is cut by the end of a piece and then deleted, and a line added behind it: what comes out is not
   the stream with the delegate's edits.
   */
  method CarriedHeader() returns (out: seq<byte>)
    ensures EditAll(Swapping(), NOTHING, [REQUEST]).out == GREETING + (ADDED + CRLF + CRLF)
    ensures out == GREETING + [67, 58, 13, 10, 10, 13, 10] != EditAll(Swapping(), NOTHING, [REQUEST]).out
  {
    hide EditAll;
    var rewriter, head := FirstCall();
    var rest := SecondCall(rewriter, Split());
    out := head + rest;
    Swapped();
    assert (GREETING + (ADDED + CRLF + CRLF))[9] == 100 && out[9] == 13;
  }

  // ---- an empty buffer ------------------------------------------------------------------------

  lemma SomeBytes(stream: seq<Message>)
    requires MessagesOk(stream) && stream != []
    ensures RawAll(stream) != []
  {
    assert stream[0].start.First() != [];
  }

  /** Once whole messages have been rewritten, an empty buffer is answered with `BlockTooLong`. */
  method EmptyBuffer(policy: Policy, isRequest: bool, stream: seq<Message>) returns (first: Outcome, second: Outcome)
    requires MessagesOk(stream) && MessagesOfKind(stream, isRequest) && stream != []
    ensures first == Done ==> second == BlockTooLong
  {
    hide RopeRun, Refilled, WaitingLen, Output, Advance, Refused, Approves, Coming, RawAll;
    var rewriter := new Rewriter(policy, isRequest, stream);
    ghost var p := rewriter.parser;
    OutsetComing(stream);
    WholeStream(policy, stream, Advance(policy, p, |RawAll(stream)|));
    SomeBytes(stream);
    var text;
    text, first := RewriteBytes(rewriter, RawAll(stream));
    second := first;
    if first == Done {
      NothingTaken(policy, rewriter.parser);
      assert [] <= Coming(rewriter.parser);
      text, second := RewriteBytes(rewriter, []);
    }
  }
}
