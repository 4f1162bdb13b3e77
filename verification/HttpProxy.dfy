/** The delegate of the HTTP server data flow: what a client's requests become on their way to the origin server. */
module HttpProxy {
  import opened Buffers
  import opened Bytes
  import opened HeaderLines
  import opened HttpEdits
  import opened HttpRuns
  import opened HttpStream
  import opened RewriterRopes
  import opened RewriterRuns
  import opened Rewriters

  /** `CONNECT`. */
  const CONNECT: seq<byte> := [67, 79, 78, 78, 69, 67, 84]
  /** `Proxy-Authorization`. */
  const PROXY_AUTHORIZATION: seq<byte> :=
    [80, 114, 111, 120, 121, 45, 65, 117, 116, 104, 111, 114, 105, 122, 97, 116, 105, 111, 110]
  /** `Proxy-Connection`. */
  const PROXY_CONNECTION: seq<byte> := [80, 114, 111, 120, 121, 45, 67, 111, 110, 110, 101, 99, 116, 105, 111, 110]
  /** `Connection: `. */
  const CONNECTION: seq<byte> := [67, 111, 110, 110, 101, 99, 116, 105, 111, 110, 58, 32]

  function Lower(c: byte): byte
  {
    if 65 <= c <= 90 then c + 32 else c
  }

  /** Header names are compared without regard to case. */
  predicate SameName(a: seq<byte>, b: seq<byte>)
  {
    |a| == |b| && forall i :: 0 <= i < |a| ==> Lower(a[i]) == Lower(b[i])
  }

  /** The first method decides what the connection is for. */
  predicate IsConnect(hist: seq<Event>)
  {
    hist != [] && hist[0] == Token(Method, CONNECT)
  }

  function TokenAnswer(path: seq<byte> -> Option<seq<byte>>, hist: seq<Event>): TokenAction
    requires hist != []
  {
    match hist[|hist| - 1]
    case Token(Url, url) =>
      if path(url).None? then RejectToken
      else if IsConnect(hist) then KeepToken
      else ReplaceToken(path(url).value)
    case _ => KeepToken
  }

  /** A deleted header is looked at once more, but what is then taken for its name has 19 bytes and never matches. */
  function HeaderAnswer(hist: seq<Event>): HeaderAction
    requires hist != []
  {
    match hist[|hist| - 1]
    case Pair(_, name, val) =>
      if IsConnect(hist) then KeepHeader
      else if SameName(name, PROXY_AUTHORIZATION) then DeleteHeader
      else if SameName(name, PROXY_CONNECTION) then ReplaceHeader(CONNECTION + val)
      else KeepHeader
    case _ => KeepHeader
  }

  /** The delegate; `path` takes a URL apart and gives what the origin server should see, if it can. */
  function Delegate(path: seq<byte> -> Option<seq<byte>>): Policy
  {
    Policy(
      hist => if hist == [] then KeepToken else TokenAnswer(path, hist),
      hist => if hist == [] then KeepHeader else HeaderAnswer(hist),
      _ => AddHeaders([]),
      _ => true)
  }

  /** Requests that the delegate accepts and rewrites. */
  predicate Proxied(path: seq<byte> -> Option<seq<byte>>, m: Message)
  {
    m.start.RequestLine? && path(m.start.url).Some?
  }

  /** A header line on its way out. */
  function LineOut(h: Header): seq<byte>
  {
    if SameName(h.name, PROXY_AUTHORIZATION) then []
    else if SameName(h.name, PROXY_CONNECTION) then CONNECTION + h.value + [13, 10]
    else h.name + h.gap + h.value + [13, 10]
  }

  /** Credentials for the proxy go nowhere, its connection header becomes the origin server's, and a name of any other
      length leaves the line as it is. */
  lemma LineOutCases(h: Header)
    ensures h.name == [80, 114, 111, 120, 121, 45, 65, 117, 116, 104, 111, 114, 105, 122, 97, 116, 105, 111, 110] ==>
      LineOut(h) == []
    ensures h.name == [80, 114, 111, 120, 121, 45, 67, 111, 110, 110, 101, 99, 116, 105, 111, 110] ==>
      LineOut(h) == [67, 111, 110, 110, 101, 99, 116, 105, 111, 110, 58, 32] + h.value + [13, 10]
    ensures |h.name| !in {16, 19} ==> LineOut(h) == h.name + h.gap + h.value + [13, 10]
  {
  }

  function LinesOut(hs: seq<Header>): (lines: seq<seq<byte>>)
    ensures |lines| == |hs| && forall i :: 0 <= i < |hs| ==> lines[i] == LineOut(hs[i])
  {
    seq(|hs|, i requires 0 <= i < |hs| => LineOut(hs[i]))
  }

  /** A request on its way out. */
  function RequestOut(path: seq<byte> -> Option<seq<byte>>, m: Message): seq<byte>
    requires Proxied(path, m)
  {
    (m.start.method_ + [32] + path(m.start.url).value + [32] + m.start.version + [13, 10])
    + Concat(LinesOut(m.headers)) + [13, 10] + m.body
  }

  lemma AnswerTo(path: seq<byte> -> Option<seq<byte>>, told: seq<Event>, pairs: seq<Event>, h: Header, i: nat)
    requires told != [] && !IsConnect(told)
    requires i < |pairs| && pairs[i] == Pair(h.name + h.gap + h.value, h.name, h.value)
    ensures Delegate(path).header(told + pairs[..i + 1]) ==
      if SameName(h.name, PROXY_AUTHORIZATION) then DeleteHeader
      else if SameName(h.name, PROXY_CONNECTION) then ReplaceHeader(CONNECTION + h.value)
      else KeepHeader
  {
    var hist := told + pairs[..i + 1];
    assert hist[0] == told[0] && hist[|hist| - 1] == pairs[i];
  }

  lemma TokensTold(path: seq<byte> -> Option<seq<byte>>, hist: seq<Event>, s: StartLine, told: seq<Event>)
    requires s.RequestLine? && path(s.url).Some?
    requires told == hist + [Token(Method, s.method_), Token(Url, s.url), Token(Version, s.version)]
    requires !IsConnect(told)
    ensures var po := Delegate(path);
      && po.token(told[..|hist| + 1]) == KeepToken && po.token(told) == KeepToken
      && po.token(told[..|hist| + 2]) == ReplaceToken(path(s.url).value)
  {
    var one, two := told[..|hist| + 1], told[..|hist| + 2];
    assert one[|one| - 1] == Token(Method, s.method_) && two[|two| - 1] == Token(Url, s.url) && two[0] == told[0];
  }

  /** What the answers make of the header lines. */
  lemma LinesTold(path: seq<byte> -> Option<seq<byte>>, told: seq<Event>, hs: seq<Header>, pairs: seq<Event>,
                  answers: seq<HeaderAction>, lines: seq<seq<byte>>, i: nat)
    requires i < |hs| == |pairs| == |answers| == |lines| && told != [] && !IsConnect(told)
    requires pairs[i] == Pair(hs[i].name + hs[i].gap + hs[i].value, hs[i].name, hs[i].value)
    requires answers[i] == Delegate(path).header(told + pairs[..i + 1]) && lines[i] == LineOut(hs[i])
    ensures answers[i] == KeepHeader ==> lines[i] == hs[i].name + hs[i].gap + hs[i].value + [13, 10]
    ensures answers[i].ReplaceHeader? ==> lines[i] == answers[i].line + [13, 10]
    ensures answers[i] == DeleteHeader ==> lines[i] == []
    ensures answers[i] != RejectHeader
  {
    hide SameName;
    AnswerTo(path, told, pairs, hs[i], i);
  }

  lemma NoLines()
    ensures Concat([]) == []
  {
  }

  lemma Joined(out: seq<byte>, start: seq<byte>, lines: seq<byte>, body: seq<byte>)
    ensures out + start + lines + [] + [13, 10] + body == out + (start + lines + [13, 10] + body)
  {
  }

  lemma MessagePasses(path: seq<byte> -> Option<seq<byte>>, a: Acc, m: Message, told: seq<Event>, pairs: seq<Event>,
                      answers: seq<HeaderAction>, lines: seq<seq<byte>>)
    requires Proxied(path, m) && !IsConnect(told)
    requires told ==
      a.hist + [Token(Method, m.start.method_), Token(Url, m.start.url), Token(Version, m.start.version)]
    requires |pairs| == |answers| == |lines| == |m.headers|
    requires forall i :: 0 <= i < |m.headers| ==>
      pairs[i] == Pair(m.headers[i].name + m.headers[i].gap + m.headers[i].value, m.headers[i].name, m.headers[i].value)
    requires forall i :: 0 <= i < |m.headers| ==> answers[i] == Delegate(path).header(told + pairs[..i + 1])
    requires forall i :: 0 <= i < |m.headers| ==> lines[i] == LineOut(m.headers[i])
    ensures EditMessage(Delegate(path), a, m) ==
      Acc(a.out + ((m.start.method_ + [32] + path(m.start.url).value + [32] + m.start.version + [13, 10])
                   + Concat(lines) + [13, 10] + m.body),
          told + pairs + [HeadersDone, MessageDone])
  {
    hide Concat, EditMessage, LineOut;
    TokensTold(path, a.hist, m.start, told);
    forall i | 0 <= i < |m.headers|
      ensures answers[i] == KeepHeader ==>
        lines[i] == m.headers[i].name + m.headers[i].gap + m.headers[i].value + [13, 10]
      ensures answers[i].ReplaceHeader? ==> lines[i] == answers[i].line + [13, 10]
      ensures answers[i] == DeleteHeader ==> lines[i] == []
      ensures answers[i] != RejectHeader
    {
      LinesTold(path, told, m.headers, pairs, answers, lines, i);
    }
    var start := m.start.method_ + [32] + path(m.start.url).value + [32] + m.start.version + [13, 10];
    RequestEdited(Delegate(path), a, m, m.start.method_, path(m.start.url).value, m.start.version, told, pairs, answers,
                  lines, []);
    NoLines();
    Joined(a.out, start, Concat(lines), m.body);
  }

  /** One request. */
  lemma RequestPasses(path: seq<byte> -> Option<seq<byte>>, a: Acc, m: Message)
    requires Proxied(path, m) && !IsConnect(a.hist + [Token(Method, m.start.method_)])
    ensures var b := EditMessage(Delegate(path), a, m);
      b.out == a.out + RequestOut(path, m) && b.hist != [] && !IsConnect(b.hist)
  {
    hide Concat, EditMessage, LineOut, LinesOut, Delegate;
    var s, hs := m.start, m.headers;
    var told := a.hist + [Token(Method, s.method_), Token(Url, s.url), Token(Version, s.version)];
    assert told[0] == (a.hist + [Token(Method, s.method_)])[0];
    var pairs := seq(|hs|, i requires 0 <= i < |hs| =>
      Pair(hs[i].name + hs[i].gap + hs[i].value, hs[i].name, hs[i].value));
    var answers := seq(|hs|, i requires 0 <= i < |hs| => Delegate(path).header(told + pairs[..i + 1]));
    MessagePasses(path, a, m, told, pairs, answers, LinesOut(hs));
    assert (told + pairs + [HeadersDone, MessageDone])[0] == told[0];
  }

  // ---- whole connections ----------------------------------------------------------------------

  predicate AllProxied(path: seq<byte> -> Option<seq<byte>>, ms: seq<Message>)
  {
    forall i :: 0 <= i < |ms| ==> Proxied(path, ms[i])
  }

  function RequestsOut(path: seq<byte> -> Option<seq<byte>>, ms: seq<Message>): (texts: seq<seq<byte>>)
    requires AllProxied(path, ms)
    ensures |texts| == |ms| && forall i :: 0 <= i < |ms| ==> texts[i] == RequestOut(path, ms[i])
  {
    seq(|ms|, i requires 0 <= i < |ms| => RequestOut(path, ms[i]))
  }

  lemma {:induction false} RequestsPass(path: seq<byte> -> Option<seq<byte>>, a: Acc, ms: seq<Message>)
    requires AllProxied(path, ms)
    requires ms != [] ==> !IsConnect(a.hist + [Token(Method, ms[0].start.method_)])
    ensures EditAll(Delegate(path), a, ms).out == a.out + Concat(RequestsOut(path, ms))
    decreases |ms|
  {
    hide EditMessage, RequestOut, Delegate, Concat;
    if ms == [] {
      NoLines();
      assert RequestsOut(path, ms) == [] && a.out + [] == a.out;
    } else {
      RequestPasses(path, a, ms[0]);
      var b, rest := EditMessage(Delegate(path), a, ms[0]), ms[1..];
      assert rest != [] ==> (b.hist + [Token(Method, rest[0].start.method_)])[0] == b.hist[0];
      RequestsPass(path, b, rest);
      assert RequestsOut(path, ms) == [RequestOut(path, ms[0])] + RequestsOut(path, rest);
      ConcatFront(RequestOut(path, ms[0]), RequestsOut(path, rest));
      Assoc(a.out, RequestOut(path, ms[0]), Concat(RequestsOut(path, rest)));
    }
  }

  lemma {:induction false} RequestsOnly(path: seq<byte> -> Option<seq<byte>>, ms: seq<Message>)
    requires AllProxied(path, ms)
    ensures MessagesOfKind(ms, true)
    decreases |ms|
  {
    if ms == [] {
    } else {
      RequestsOnly(path, ms[1..]);
    }
  }

  lemma SafeDelegate(path: seq<byte> -> Option<seq<byte>>, stream: seq<Message>, ropes: seq<Rope>)
    requires MessagesOk(stream)
    ensures Secure(Delegate(path), stream, ropes)
  {
    hide Secure;
    SecureWhen(Delegate(path), stream, ropes);
  }

  /** What a client sends on a connection that is not for tunnelling, in any buffers: if no call fails, each request
      goes out with the path for its URL, without the proxy's credentials, and with the connection header renamed. */
  method ProxyRequests(path: seq<byte> -> Option<seq<byte>>, stream: seq<Message>, buffers: seq<Buffer>,
                       ghost ropes: seq<Rope>, ghost chunks: set<Buf>)
    returns (out: seq<byte>, r: Outcome)
    requires MessagesOk(stream) && AllProxied(path, stream)
    requires stream != [] ==> stream[0].start.method_ != CONNECT
    requires Given(buffers, ropes, chunks) && Concat(Texts(ropes)) == RawAll(stream)
    modifies buffers, chunks
    ensures r == Done ==> out == Concat(TextsOf(buffers)) == Concat(RequestsOut(path, stream))
  {
    hide Calls, Refused, EditAll, Secure, Unblocked, Concat, Given, Texts, MessagesOk, RawAll, RequestsOut, Delegate;
    RequestsOnly(path, stream);
    SafeDelegate(path, stream, ropes);
    RequestsPass(path, NOTHING, stream);
    var rewriter;
    out, r, rewriter := RewriteStream(Delegate(path), true, stream, buffers, ropes, chunks);
    assert [] + Concat(RequestsOut(path, stream)) == Concat(RequestsOut(path, stream));
  }
}
