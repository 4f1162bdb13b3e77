/**
 The stream the rewriter works on: messages in the grammar of RFC 7230, sections 3.1 and 3.2, what a
 delegate may do to their tokens, and the parser as an oracle that knows where the tokens lie.
 */
module HttpStream {
  import opened Bytes

  const SP: seq<byte> := [32]
  const CR: seq<byte> := [13]
  const LF: seq<byte> := [10]
  const CRLF: seq<byte> := [13, 10]

  // ---- messages -------------------------------------------------------------------------------

  /** `gap` is the colon and the white space around it. */
  datatype Header = Header(name: seq<byte>, gap: seq<byte>, value: seq<byte>)
  {
    predicate Ok() { name != [] && gap != [] }
    function Line(): seq<byte> { name + gap + value }
  }

  /** `code` is the status code and the space behind it. */
  datatype StartLine =
    | RequestLine(method_: seq<byte>, url: seq<byte>, version: seq<byte>)
    | StatusLine(version: seq<byte>, code: seq<byte>, reason: seq<byte>)
  {
    predicate Ok() {
      match this
      case RequestLine(m, u, v) => m != [] && u != []
      case StatusLine(v, c, _) => v != [] && |c| == 4
    }

    /** The token that is complete when the second one starts, and the second one. */
    function First(): seq<byte> { if RequestLine? then method_ else version }
    function Second(): seq<byte> { if RequestLine? then url else code + reason }
    /** What lies between the second token and the header lines. */
    function Third(): seq<byte> { if RequestLine? then SP + version + CRLF else CRLF }
    /** How much of the second token the parser passes before it reports it, and what it reports. */
    function Unreported(): nat { if RequestLine? then 0 else |code| }
    function Reported(): seq<byte> { if RequestLine? then url else reason }
    function Raw(): seq<byte> { First() + SP + Second() + Third() }
  }

  predicate HeadersOk(hs: seq<Header>) { hs != [] ==> hs[0].Ok() && HeadersOk(hs[1..]) }

  function RawLines(hs: seq<Header>): seq<byte>
  {
    if hs == [] then [] else hs[0].Line() + CRLF + RawLines(hs[1..])
  }

  function RawHead(hs: seq<Header>, body: seq<byte>): seq<byte>
  {
    RawLines(hs) + CRLF + body
  }

  datatype Message = Message(start: StartLine, headers: seq<Header>, body: seq<byte>)
  {
    predicate Ok() { start.Ok() && HeadersOk(headers) }
    function Raw(): seq<byte> { start.Raw() + RawHead(headers, body) }
  }

  predicate MessagesOk(ms: seq<Message>) { ms != [] ==> ms[0].Ok() && MessagesOk(ms[1..]) }

  function RawAll(ms: seq<Message>): seq<byte>
  {
    if ms == [] then [] else ms[0].Raw() + RawAll(ms[1..])
  }

  // ---- what a delegate does -------------------------------------------------------------------

  datatype Kind = Method | Url | Version | Status

  datatype Event =
    | Token(kind: Kind, text: seq<byte>)
    | Pair(line: seq<byte>, name: seq<byte>, value: seq<byte>)
    | HeadersDone
    | MessageDone

  datatype TokenAction = KeepToken | ReplaceToken(text: seq<byte>) | RejectToken
  datatype HeaderAction = KeepHeader | ReplaceHeader(line: seq<byte>) | DeleteHeader | RejectHeader
  datatype DoneAction = AddHeaders(lines: seq<seq<byte>>) | RejectHeaders

  /** A delegate: any answer that depends on the events reported so far, the last one being the current one. */
  datatype Policy = Policy(
    token: seq<Event> -> TokenAction,
    header: seq<Event> -> HeaderAction,
    done: seq<Event> -> DoneAction,
    finish: seq<Event> -> bool)

  /** The delegate turned down the last event it was told of. */
  predicate Refused(po: Policy, hist: seq<Event>)
  {
    hist != [] &&
    match hist[|hist| - 1]
    case Token(_, _) => po.token(hist).RejectToken?
    case Pair(_, _, _) => po.header(hist).RejectHeader?
    case HeadersDone => po.done(hist).RejectHeaders?
    case MessageDone => !po.finish(hist)
  }

  /** `now` continues `then` by events none of which the delegate turned down. */
  predicate Approves(po: Policy, then_: seq<Event>, now: seq<Event>)
    decreases |now|
  {
    then_ == now || (now != [] && !Refused(po, now) && Approves(po, then_, now[..|now| - 1]))
  }

  lemma ApprovesNone(po: Policy, hist: seq<Event>)
    ensures Approves(po, hist, hist)
  {
  }

  /** Whether an event is turned down, and what follows if it is not. */
  lemma Told(po: Policy, hist: seq<Event>, e: Event)
    ensures var now := hist + [e];
      && (Refused(po, now) <==>
          match e
          case Token(_, _) => po.token(now).RejectToken?
          case Pair(_, _, _) => po.header(now).RejectHeader?
          case HeadersDone => po.done(now).RejectHeaders?
          case MessageDone => !po.finish(now))
      && (!Refused(po, now) ==> Approves(po, hist, now))
  {
    assert (hist + [e])[..|hist|] == hist;
  }

  lemma {:induction false} ApprovesBoth(po: Policy, first: seq<Event>, second: seq<Event>, third: seq<Event>)
    requires Approves(po, first, second) && Approves(po, second, third)
    ensures Approves(po, first, third)
    decreases |third|
  {
    if second == third {
    } else {
      ApprovesBoth(po, first, second, third[..|third| - 1]);
    }
  }

  /** What it means: every event told was approved. */
  lemma {:induction false} ApprovedAll(po: Policy, hist: seq<Event>)
    requires Approves(po, [], hist)
    ensures forall n :: 0 < n <= |hist| ==> !Refused(po, hist[..n])
    decreases |hist|
  {
    if hist == [] {
    } else {
      var front := hist[..|hist| - 1];
      ApprovedAll(po, front);
      forall n | 0 < n <= |hist|
        ensures !Refused(po, hist[..n])
      {
        if n < |hist| {
          assert hist[..n] == front[..n];
        } else {
          assert hist[..n] == hist;
        }
      }
    }
  }

  /** A delegate that adds no header lines. */
  ghost predicate AddsNothing(po: Policy)
  {
    forall hist :: po.done(hist).AddHeaders? ==> po.done(hist).lines == []
  }

  lemma AddsNone(po: Policy, hist: seq<Event>)
    ensures AddsNothing(po) && po.done(hist).AddHeaders? ==> po.done(hist).lines == []
  {
  }

  function NewText(a: TokenAction, text: seq<byte>): seq<byte>
  {
    match a
    case ReplaceToken(t) => t
    case _ => text
  }

  /** The line a header becomes, with its line end; nothing if it is deleted. */
  function NewLine(a: HeaderAction, line: seq<byte>): seq<byte>
  {
    match a
    case ReplaceHeader(l) => l + CRLF
    case DeleteHeader => []
    case _ => line + CRLF
  }

  predicate Shortens(po: Policy, hist: seq<Event>)
    requires hist != []
  {
    match hist[|hist| - 1]
    case Token(_, text) => |NewText(po.token(hist), text)| < |text|
    case Pair(line, _, _) => |NewLine(po.header(hist), line)| < |line| + 2
    case _ => false
  }

  /** An answer shortens exactly if it puts in less than it takes out, a line counted without its line end. */
  lemma ShortensExactly(po: Policy, hist: seq<Event>, e: Event)
    ensures var now := hist + [e];
      Shortens(po, now) <==>
        match e
        case Token(_, text) => po.token(now).ReplaceToken? && |po.token(now).text| < |text|
        case Pair(line, _, _) =>
          po.header(now) == DeleteHeader || (po.header(now).ReplaceHeader? && |po.header(now).line| < |line|)
        case _ => false
  {
  }

  /** A delegate that deletes no header and replaces nothing by something shorter. */
  ghost predicate NeverShortens(po: Policy)
  {
    forall hist: seq<Event> :: hist != [] ==> !Shortens(po, hist)
  }

  lemma NotShorter(po: Policy, hist: seq<Event>)
    requires hist != []
    ensures NeverShortens(po) ==> !Shortens(po, hist)
  {
  }

  // ---- what the output should be --------------------------------------------------------------

  /** The text that is final, and what the delegate has been told. */
  datatype Acc = Acc(out: seq<byte>, hist: seq<Event>)

  function AddedLines(lines: seq<seq<byte>>): seq<byte>
  {
    if lines == [] then [] else AddedLines(lines[..|lines| - 1]) + (lines[|lines| - 1] + CRLF)
  }

  function NewLines(a: DoneAction): seq<byte>
  {
    match a
    case AddHeaders(lines) => AddedLines(lines)
    case RejectHeaders => []
  }

  function EditToken(po: Policy, a: Acc, kind: Kind, text: seq<byte>, sep: seq<byte>): Acc
  {
    var hist := a.hist + [Token(kind, text)];
    Acc(a.out + (NewText(po.token(hist), text) + sep), hist)
  }

  function FirstKind(s: StartLine): Kind
  {
    if s.RequestLine? then Method else Version
  }

  function EditFirst(po: Policy, a: Acc, s: StartLine): Acc
  {
    EditToken(po, a, FirstKind(s), s.First(), SP)
  }

  /** The tokens that are complete when the header lines begin. */
  function EditRest(po: Policy, a: Acc, s: StartLine): Acc
  {
    match s
    case RequestLine(_, url, version) => EditToken(po, EditToken(po, a, Url, url, SP), Version, version, CRLF)
    case StatusLine(_, code, reason) => EditToken(po, a, Status, code + reason, CRLF)
  }

  function EditHeader(po: Policy, a: Acc, h: Header): Acc
  {
    var hist := a.hist + [Pair(h.Line(), h.name, h.value)];
    Acc(a.out + NewLine(po.header(hist), h.Line()), hist)
  }

  function EditHeaders(po: Policy, a: Acc, hs: seq<Header>): Acc
    decreases |hs|
  {
    if hs == [] then a else EditHeaders(po, EditHeader(po, a, hs[0]), hs[1..])
  }

  function EditDone(po: Policy, a: Acc): Acc
  {
    var hist := a.hist + [HeadersDone];
    Acc(a.out + NewLines(po.done(hist)), hist)
  }

  function Push(a: Acc, text: seq<byte>): Acc
  {
    a.(out := a.out + text)
  }

  function Finish(a: Acc): Acc
  {
    a.(hist := a.hist + [MessageDone])
  }

  function EditMessage(po: Policy, a: Acc, m: Message): Acc
  {
    var a1 := EditHeaders(po, EditRest(po, EditFirst(po, a, m.start), m.start), m.headers);
    Finish(Push(EditDone(po, a1), CRLF + m.body))
  }

  /** The stream with exactly the delegate's edits. */
  function EditAll(po: Policy, a: Acc, ms: seq<Message>): Acc
    decreases |ms|
  {
    if ms == [] then a else EditAll(po, EditMessage(po, a, ms[0]), ms[1..])
  }

  // ---- the parser -----------------------------------------------------------------------------

  function AfterFirst(m: Message, ms: seq<Message>): seq<byte>
  {
    m.start.Second() + (m.start.Third() + (RawHead(m.headers, m.body) + RawAll(ms)))
  }

  function FromHeader(h: Header, hs: seq<Header>, body: seq<byte>, ms: seq<Message>): seq<byte>
  {
    h.Line() + (CRLF + (RawHead(hs, body) + RawAll(ms)))
  }

  /** Where the parser stands; each part is a stretch of bytes of known length. */
  datatype Region =
    | Start(ms: seq<Message>)
    | First(m: Message, ms: seq<Message>)
    | Second(m: Message, ms: seq<Message>)
    | Third(m: Message, ms: seq<Message>)
    | BareCr(m: Message, ms: seq<Message>)
    | Field(h: Header, hs: seq<Header>, body: seq<byte>, ms: seq<Message>)
    | Gap(h: Header, hs: seq<Header>, body: seq<byte>, ms: seq<Message>)
    | Value(h: Header, hs: seq<Header>, body: seq<byte>, ms: seq<Message>)
    | Eol(h: Header, hs: seq<Header>, body: seq<byte>, ms: seq<Message>)
    | LastCr(h: Header, body: seq<byte>, ms: seq<Message>)
    | LastLf(afterCr: bool, body: seq<byte>, ms: seq<Message>)
    | Body(body: seq<byte>, ms: seq<Message>)
  {
    predicate Ok() {
      MessagesOk(ms) &&
      match this
      case Start(_) => true
      case First(m, _) => m.Ok()
      case Second(m, _) => m.Ok() && m.start.Reported() != []
      case Third(m, _) => m.Ok()
      case BareCr(m, _) => m.Ok() && m.headers == []
      case Field(h, hs, _, _) => h.Ok() && HeadersOk(hs)
      case Gap(h, hs, _, _) => h.Ok() && HeadersOk(hs)
      case Value(h, hs, _, _) => h.Ok() && h.value != [] && HeadersOk(hs)
      case Eol(h, hs, _, _) => h.Ok() && HeadersOk(hs)
      case LastCr(h, _, _) => h.Ok()
      case LastLf(_, _, _) => true
      case Body(b, _) => b != []
    }

    function Len(): nat {
      match this
      case Start(_) => 0
      case First(m, _) => |m.start.First()| + 1 + m.start.Unreported()
      case Second(m, _) => |m.start.Reported()|
      case Third(m, _) => |m.start.Third()|
      case BareCr(_, _) => 1
      case Field(h, _, _, _) => |h.name|
      case Gap(h, _, _, _) => |h.gap|
      case Value(h, _, _, _) => |h.value|
      case Eol(_, _, _, _) => 2
      case LastCr(_, _, _) => 1
      case LastLf(_, _, _) => 1
      case Body(b, _) => |b|
    }

    /** The raw stream from the token on that is being collected here. */
    function Raw(): seq<byte> {
      match this
      case Start(ms) => RawAll(ms)
      case First(m, ms) => m.Raw() + RawAll(ms)
      case Second(m, ms) => AfterFirst(m, ms)
      case Third(m, ms) => AfterFirst(m, ms)
      case BareCr(m, ms) => AfterFirst(m, ms)
      case Field(h, hs, b, ms) => FromHeader(h, hs, b, ms)
      case Gap(h, hs, b, ms) => FromHeader(h, hs, b, ms)
      case Value(h, hs, b, ms) => FromHeader(h, hs, b, ms)
      case Eol(h, hs, b, ms) => FromHeader(h, hs, b, ms)
      case LastCr(h, b, ms) => FromHeader(h, [], b, ms)
      case LastLf(afterCr, b, ms) => (if afterCr then CRLF else LF) + (b + RawAll(ms))
      case Body(b, ms) => b + RawAll(ms)
    }

    /** How much of it lies in front of this region. */
    function Before(): nat {
      match this
      case Second(m, _) => m.start.Unreported()
      case Third(m, _) => |m.start.Second()|
      case BareCr(m, _) => |m.start.Second()| + |m.start.Third()|
      case Gap(h, _, _, _) => |h.name|
      case Value(h, _, _, _) => |h.name| + |h.gap|
      case Eol(h, _, _, _) => |h.Line()|
      case LastCr(h, _, _) => |h.Line()| + 2
      case LastLf(afterCr, _, _) => if afterCr then 1 else 0
      case _ => 0
    }

    /** Between messages and inside a body no token is being collected. */
    predicate Live() { !Start? && !Body? }
  }

  /** The parser in a region of which `left` bytes are still to come, and what is settled by then. */
  datatype Pos = Pos(at: Region, left: nat, acc: Acc)
  {
    predicate Ok() {
      && at.Ok() && left <= at.Len()
      && (at.Body? ==> left > 0) && (at.LastLf? && at.body == [] ==> left > 0)
    }
    /** How many bytes of the current token's raw stream have been consumed. */
    function Depth(): nat
      requires Ok()
    { at.Before() + (at.Len() - left) }
    /** The bytes still to come. */
    function Ahead(): seq<byte>
      requires Ok() && Depth() <= |at.Raw()|
    { at.Raw()[Depth()..] }
  }

  function Enter(r: Region, a: Acc): Pos
  {
    Pos(r, r.Len(), a)
  }

  /** Enters the region behind a finished one; the delegate learns of the tokens that are complete now. */
  function Fire(po: Policy, p: Pos): Pos
    requires p.Ok()
  {
    if p.left > 0 then p else
      match p.at
      case Start(ms) => if ms == [] then p else Enter(First(ms[0], ms[1..]), p.acc)
      case First(m, ms) =>
        Enter(if m.start.Reported() == [] then Third(m, ms) else Second(m, ms), EditFirst(po, p.acc, m.start))
      case Second(m, ms) => Enter(Third(m, ms), p.acc)
      case Third(m, ms) =>
        if m.headers == [] then Enter(BareCr(m, ms), p.acc)
        else Enter(Field(m.headers[0], m.headers[1..], m.body, ms), EditRest(po, p.acc, m.start))
      case BareCr(m, ms) => Enter(LastLf(false, m.body, ms), Push(EditDone(po, EditRest(po, p.acc, m.start)), CR))
      case Field(h, hs, b, ms) => Enter(Gap(h, hs, b, ms), p.acc)
      case Gap(h, hs, b, ms) => Enter(if h.value == [] then Eol(h, hs, b, ms) else Value(h, hs, b, ms), p.acc)
      case Value(h, hs, b, ms) => Enter(Eol(h, hs, b, ms), p.acc)
      case Eol(h, hs, b, ms) =>
        if hs == [] then Enter(LastCr(h, b, ms), p.acc)
        else Enter(Field(hs[0], hs[1..], b, ms), EditHeader(po, p.acc, h))
      case LastCr(h, b, ms) => Enter(LastLf(true, b, ms), EditDone(po, EditHeader(po, p.acc, h)))
      case LastLf(afterCr, b, ms) =>
        if b == [] then p else Enter(Body(b, ms), Push(p.acc, if afterCr then CRLF else LF))
      case Body(_, _) => p
  }

  /** The end of a message is reported with its last byte. */
  function Complete(p: Pos): Pos
  {
    if p.left > 0 then p else
      match p.at
      case LastLf(afterCr, b, ms) =>
        if b == [] then Pos(Start(ms), 0, Finish(Push(p.acc, if afterCr then CRLF else LF))) else p
      case Body(b, ms) => Pos(Start(ms), 0, Finish(Push(p.acc, b)))
      case _ => p
  }

  /** Consumes `k` bytes of one region. */
  function Eat(po: Policy, p: Pos, k: nat): Pos
    requires p.Ok() && 0 < k <= Fire(po, p).left
  {
    var q := Fire(po, p);
    Complete(q.(left := q.left - k))
  }
}
