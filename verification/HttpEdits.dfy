/** The stream and its edits byte by byte: what the grammar writes, and what each answer of a delegate makes of it. */
module HttpEdits {
  import opened Bytes
  import opened HttpStream

  lemma {:induction false} ConcatFront(c: seq<byte>, cs: seq<seq<byte>>)
    ensures Concat([c] + cs) == c + Concat(cs)
    decreases |cs|
  {
    if cs == [] {
      assert [c] + cs == [] + [c];
      ConcatPush([], c);
    } else {
      var front, last := cs[..|cs| - 1], cs[|cs| - 1];
      assert cs == front + [last] && [c] + cs == ([c] + front) + [last];
      ConcatFront(c, front);
      ConcatPush([c] + front, last);
      ConcatPush(front, last);
      Assoc(c, Concat(front), last);
    }
  }

  // ---- the grammar ----------------------------------------------------------------------------

  lemma {:induction false} RawLinesBytes(hs: seq<Header>, lines: seq<seq<byte>>)
    requires |lines| == |hs|
    requires forall i :: 0 <= i < |hs| ==> lines[i] == hs[i].name + hs[i].gap + hs[i].value + [13, 10]
    ensures RawLines(hs) == Concat(lines)
    decreases |hs|
  {
    if hs == [] {
    } else {
      RawLinesBytes(hs[1..], lines[1..]);
      assert lines == [lines[0]] + lines[1..];
      ConcatFront(lines[0], lines[1..]);
    }
  }

  lemma StartLineBytes(s: StartLine)
    ensures s.Raw() ==
      match s
      case RequestLine(method_, url, version) => method_ + [32] + url + [32] + version + [13, 10]
      case StatusLine(version, code, reason) => version + [32] + code + reason + [13, 10]
  {
    match s
    case RequestLine(method_, url, version) =>
      Assoc(method_ + [32] + url, [32] + version, [13, 10]);
      Assoc(method_ + [32] + url, [32], version);
    case StatusLine(version, code, reason) =>
      Assoc(version + [32], code, reason);
  }

  lemma BodyJoined(start: seq<byte>, lines: seq<byte>, body: seq<byte>)
    ensures start + (lines + [13, 10] + body) == start + lines + [13, 10] + body
  {
  }

  /** A message is its start line, its header lines, an empty line and its body. */
  lemma MessageBytes(m: Message, lines: seq<seq<byte>>)
    requires |lines| == |m.headers|
    requires forall i :: 0 <= i < |m.headers| ==>
      lines[i] == m.headers[i].name + m.headers[i].gap + m.headers[i].value + [13, 10]
    ensures m.Raw() ==
      (match m.start
       case RequestLine(method_, url, version) => method_ + [32] + url + [32] + version + [13, 10]
       case StatusLine(version, code, reason) => version + [32] + code + reason + [13, 10])
      + Concat(lines) + [13, 10] + m.body
  {
    hide Concat;
    RawLinesBytes(m.headers, lines);
    StartLineBytes(m.start);
    BodyJoined(m.start.Raw(), Concat(lines), m.body);
  }

  lemma {:induction false} StreamBytes(ms: seq<Message>, texts: seq<seq<byte>>)
    requires |texts| == |ms| && forall i :: 0 <= i < |ms| ==> texts[i] == ms[i].Raw()
    ensures RawAll(ms) == Concat(texts)
    decreases |ms|
  {
    if ms == [] {
    } else {
      StreamBytes(ms[1..], texts[1..]);
      assert texts == [texts[0]] + texts[1..];
      ConcatFront(texts[0], texts[1..]);
    }
  }

  // ---- the edits ------------------------------------------------------------------------------

  lemma HistoryTwo(hist: seq<Event>, e: Event, f: Event)
    ensures (hist + [e]) + [f] == hist + [e, f]
  {
  }

  lemma HistoryThree(hist: seq<Event>, e: Event, f: Event, g: Event)
    ensures (hist + [e, f]) + [g] == hist + [e, f, g]
  {
  }

  lemma RequestJoined(out: seq<byte>, a: seq<byte>, b: seq<byte>, c: seq<byte>)
    ensures ((out + (a + [32])) + (b + [32])) + (c + [13, 10]) == out + (a + [32] + b + [32] + c + [13, 10])
  {
  }

  lemma ResponseJoined(out: seq<byte>, a: seq<byte>, b: seq<byte>)
    ensures (out + (a + [32])) + (b + [13, 10]) == out + (a + [32] + b + [13, 10])
  {
  }

  /** The start line of a request: each token is what the delegate's answer makes of it. */
  lemma RequestLineEdited(po: Policy, a: Acc, s: StartLine, method_: seq<byte>, url: seq<byte>, version: seq<byte>)
    requires s.RequestLine?
    requires var answer := po.token(a.hist + [Token(Method, s.method_)]);
      if answer == KeepToken then method_ == s.method_ else answer == ReplaceToken(method_)
    requires var answer := po.token(a.hist + [Token(Method, s.method_), Token(Url, s.url)]);
      if answer == KeepToken then url == s.url else answer == ReplaceToken(url)
    requires var answer :=
      po.token(a.hist + [Token(Method, s.method_), Token(Url, s.url), Token(Version, s.version)]);
      if answer == KeepToken then version == s.version else answer == ReplaceToken(version)
    ensures EditRest(po, EditFirst(po, a, s), s) ==
      Acc(a.out + (method_ + [32] + url + [32] + version + [13, 10]),
          a.hist + [Token(Method, s.method_), Token(Url, s.url), Token(Version, s.version)])
  {
    var a1 := EditFirst(po, a, s);
    var a2 := EditToken(po, a1, Url, s.url, SP);
    HistoryTwo(a.hist, Token(Method, s.method_), Token(Url, s.url));
    HistoryThree(a.hist, Token(Method, s.method_), Token(Url, s.url), Token(Version, s.version));
    assert a1 == Acc(a.out + (method_ + [32]), a.hist + [Token(Method, s.method_)]);
    assert a2 == Acc(a1.out + (url + [32]), a1.hist + [Token(Url, s.url)]);
    assert EditToken(po, a2, Version, s.version, CRLF) ==
      Acc(a2.out + (version + [13, 10]), a2.hist + [Token(Version, s.version)]);
    RequestJoined(a.out, method_, url, version);
  }

  /** The start line of a response. */
  lemma StatusLineEdited(po: Policy, a: Acc, s: StartLine, version: seq<byte>, status: seq<byte>)
    requires s.StatusLine?
    requires var answer := po.token(a.hist + [Token(Version, s.version)]);
      if answer == KeepToken then version == s.version else answer == ReplaceToken(version)
    requires var answer := po.token(a.hist + [Token(Version, s.version), Token(Status, s.code + s.reason)]);
      if answer == KeepToken then status == s.code + s.reason else answer == ReplaceToken(status)
    ensures EditRest(po, EditFirst(po, a, s), s) ==
      Acc(a.out + (version + [32] + status + [13, 10]),
          a.hist + [Token(Version, s.version), Token(Status, s.code + s.reason)])
  {
    var a1 := EditFirst(po, a, s);
    HistoryTwo(a.hist, Token(Version, s.version), Token(Status, s.code + s.reason));
    assert a1 == Acc(a.out + (version + [32]), a.hist + [Token(Version, s.version)]);
    assert EditRest(po, a1, s) == Acc(a1.out + (status + [13, 10]), a1.hist + [Token(Status, s.code + s.reason)]);
    ResponseJoined(a.out, version, status);
  }

  /** One header line: kept, replaced with its line end behind it, or gone. */
  lemma HeaderAnswered(po: Policy, a: Acc, h: Header, line: seq<byte>)
    requires
      match po.header(a.hist + [Pair(h.name + h.gap + h.value, h.name, h.value)])
      case KeepHeader => line == h.name + h.gap + h.value + [13, 10]
      case ReplaceHeader(l) => line == l + [13, 10]
      case DeleteHeader => line == []
      case RejectHeader => false
    ensures EditHeader(po, a, h) == Acc(a.out + line, a.hist + [Pair(h.name + h.gap + h.value, h.name, h.value)])
  {
  }

  lemma HistoryNext(hist: seq<Event>, pairs: seq<Event>, i: nat)
    requires i + 1 < |pairs|
    ensures (hist + [pairs[0]]) + pairs[1..][..i + 1] == hist + pairs[..i + 2]
  {
    assert pairs[..i + 2] == [pairs[0]] + pairs[1..][..i + 1];
  }

  lemma HistoryFront(hist: seq<Event>, pairs: seq<Event>)
    requires pairs != []
    ensures (hist + [pairs[0]]) + pairs[1..] == hist + pairs
  {
  }

  lemma LinesFront(out: seq<byte>, lines: seq<seq<byte>>)
    requires lines != []
    ensures (out + lines[0]) + Concat(lines[1..]) == out + Concat(lines)
  {
    assert lines == [lines[0]] + lines[1..];
    ConcatFront(lines[0], lines[1..]);
    Assoc(out, lines[0], Concat(lines[1..]));
  }

  lemma EditedFront(po: Policy, a: Acc, hs: seq<Header>)
    requires hs != []
    ensures EditHeaders(po, a, hs) == EditHeaders(po, EditHeader(po, a, hs[0]), hs[1..])
  {
  }

  /** All header lines of a block; the delegate is told of one after the other. */
  lemma {:induction false} HeadersEdited(po: Policy, a: Acc, hs: seq<Header>, pairs: seq<Event>,
                                         answers: seq<HeaderAction>, lines: seq<seq<byte>>)
    requires |pairs| == |answers| == |lines| == |hs|
    requires forall i :: 0 <= i < |hs| ==>
      pairs[i] == Pair(hs[i].name + hs[i].gap + hs[i].value, hs[i].name, hs[i].value)
    requires forall i :: 0 <= i < |hs| ==> answers[i] == po.header(a.hist + pairs[..i + 1])
    requires forall i :: 0 <= i < |hs| ==>
      && (answers[i] == KeepHeader ==> lines[i] == hs[i].name + hs[i].gap + hs[i].value + [13, 10])
      && (answers[i].ReplaceHeader? ==> lines[i] == answers[i].line + [13, 10])
      && (answers[i] == DeleteHeader ==> lines[i] == [])
      && answers[i] != RejectHeader
    ensures EditHeaders(po, a, hs) == Acc(a.out + Concat(lines), a.hist + pairs)
    decreases |hs|
  {
    if hs == [] {
      assert a.out + [] == a.out && a.hist + pairs == a.hist;
    } else {
      assert a.hist + pairs[..1] == a.hist + [pairs[0]];
      HeaderAnswered(po, a, hs[0], lines[0]);
      var b := EditHeader(po, a, hs[0]);
      forall i | 0 <= i < |hs[1..]|
        ensures answers[1..][i] == po.header(b.hist + pairs[1..][..i + 1])
      {
        assert answers[1..][i] == answers[i + 1];
        HistoryNext(a.hist, pairs, i);
      }
      hide EditHeader, EditHeaders, Concat;
      HeadersEdited(po, b, hs[1..], pairs[1..], answers[1..], lines[1..]);
      EditedFront(po, a, hs);
      LinesFront(a.out, lines);
      HistoryFront(a.hist, pairs);
    }
  }

  lemma {:induction false} AddedBytes(lines: seq<seq<byte>>, texts: seq<seq<byte>>)
    requires |texts| == |lines| && forall i :: 0 <= i < |lines| ==> texts[i] == lines[i] + [13, 10]
    ensures AddedLines(lines) == Concat(texts)
    decreases |lines|
  {
    if lines == [] {
    } else {
      AddedBytes(lines[..|lines| - 1], texts[..|texts| - 1]);
    }
  }

  /** Behind an edited start line: the edited header lines, the added ones, the empty line and the body. */
  lemma HeadEdited(po: Policy, a: Acc, m: Message, start: Acc, pairs: seq<Event>,
                   answers: seq<HeaderAction>, lines: seq<seq<byte>>, added: seq<seq<byte>>)
    requires start == EditRest(po, EditFirst(po, a, m.start), m.start)
    requires |pairs| == |answers| == |lines| == |m.headers|
    requires forall i :: 0 <= i < |m.headers| ==>
      pairs[i] == Pair(m.headers[i].name + m.headers[i].gap + m.headers[i].value, m.headers[i].name, m.headers[i].value)
    requires forall i :: 0 <= i < |m.headers| ==> answers[i] == po.header(start.hist + pairs[..i + 1])
    requires forall i :: 0 <= i < |m.headers| ==>
      && (answers[i] == KeepHeader ==>
          lines[i] == m.headers[i].name + m.headers[i].gap + m.headers[i].value + [13, 10])
      && (answers[i].ReplaceHeader? ==> lines[i] == answers[i].line + [13, 10])
      && (answers[i] == DeleteHeader ==> lines[i] == [])
      && answers[i] != RejectHeader
    requires var answer := po.done(start.hist + pairs + [HeadersDone]);
      && answer.AddHeaders? && |added| == |answer.lines|
      && forall i :: 0 <= i < |added| ==> added[i] == answer.lines[i] + [13, 10]
    ensures EditMessage(po, a, m) ==
      Acc(start.out + Concat(lines) + Concat(added) + [13, 10] + m.body,
          start.hist + pairs + [HeadersDone, MessageDone])
  {
    HeadersEdited(po, start, m.headers, pairs, answers, lines);
    var told := start.hist + pairs;
    AddedBytes(po.done(told + [HeadersDone]).lines, added);
    var text := start.out + Concat(lines) + Concat(added);
    assert EditDone(po, Acc(start.out + Concat(lines), told)) == Acc(text, told + [HeadersDone]);
    Assoc(text, [13, 10], m.body);
    assert (told + [HeadersDone]) + [MessageDone] == told + [HeadersDone, MessageDone];
  }

  /** A whole request, with the answers written out. */
  lemma RequestEdited(po: Policy, a: Acc, m: Message, method_: seq<byte>, url: seq<byte>, version: seq<byte>,
                      told: seq<Event>, pairs: seq<Event>, answers: seq<HeaderAction>, lines: seq<seq<byte>>,
                      added: seq<seq<byte>>)
    requires m.start.RequestLine?
    requires told ==
      a.hist + [Token(Method, m.start.method_), Token(Url, m.start.url), Token(Version, m.start.version)]
    requires var answer := po.token(told[..|a.hist| + 1]);
      if answer == KeepToken then method_ == m.start.method_ else answer == ReplaceToken(method_)
    requires var answer := po.token(told[..|a.hist| + 2]);
      if answer == KeepToken then url == m.start.url else answer == ReplaceToken(url)
    requires var answer := po.token(told);
      if answer == KeepToken then version == m.start.version else answer == ReplaceToken(version)
    requires |pairs| == |answers| == |lines| == |m.headers|
    requires forall i :: 0 <= i < |m.headers| ==>
      pairs[i] == Pair(m.headers[i].name + m.headers[i].gap + m.headers[i].value, m.headers[i].name, m.headers[i].value)
    requires forall i :: 0 <= i < |m.headers| ==> answers[i] == po.header(told + pairs[..i + 1])
    requires forall i :: 0 <= i < |m.headers| ==>
      && (answers[i] == KeepHeader ==>
          lines[i] == m.headers[i].name + m.headers[i].gap + m.headers[i].value + [13, 10])
      && (answers[i].ReplaceHeader? ==> lines[i] == answers[i].line + [13, 10])
      && (answers[i] == DeleteHeader ==> lines[i] == [])
      && answers[i] != RejectHeader
    requires var answer := po.done(told + pairs + [HeadersDone]);
      && answer.AddHeaders? && |added| == |answer.lines|
      && forall i :: 0 <= i < |added| ==> added[i] == answer.lines[i] + [13, 10]
    ensures EditMessage(po, a, m) ==
      Acc(a.out + (method_ + [32] + url + [32] + version + [13, 10]) + Concat(lines) + Concat(added) + [13, 10]
          + m.body,
          told + pairs + [HeadersDone, MessageDone])
  {
    hide Concat, EditMessage, EditRest, EditFirst;
    var s := m.start;
    assert told[..|a.hist| + 1] == a.hist + [Token(Method, s.method_)];
    assert told[..|a.hist| + 2] == a.hist + [Token(Method, s.method_), Token(Url, s.url)];
    RequestLineEdited(po, a, s, method_, url, version);
    var start := Acc(a.out + (method_ + [32] + url + [32] + version + [13, 10]), told);
    HeadEdited(po, a, m, start, pairs, answers, lines, added);
  }

  /** A whole response. */
  lemma ResponseEdited(po: Policy, a: Acc, m: Message, version: seq<byte>, status: seq<byte>, told: seq<Event>,
                       pairs: seq<Event>, answers: seq<HeaderAction>, lines: seq<seq<byte>>, added: seq<seq<byte>>)
    requires m.start.StatusLine?
    requires told == a.hist + [Token(Version, m.start.version), Token(Status, m.start.code + m.start.reason)]
    requires var answer := po.token(told[..|a.hist| + 1]);
      if answer == KeepToken then version == m.start.version else answer == ReplaceToken(version)
    requires var answer := po.token(told);
      if answer == KeepToken then status == m.start.code + m.start.reason else answer == ReplaceToken(status)
    requires |pairs| == |answers| == |lines| == |m.headers|
    requires forall i :: 0 <= i < |m.headers| ==>
      pairs[i] == Pair(m.headers[i].name + m.headers[i].gap + m.headers[i].value, m.headers[i].name, m.headers[i].value)
    requires forall i :: 0 <= i < |m.headers| ==> answers[i] == po.header(told + pairs[..i + 1])
    requires forall i :: 0 <= i < |m.headers| ==>
      && (answers[i] == KeepHeader ==>
          lines[i] == m.headers[i].name + m.headers[i].gap + m.headers[i].value + [13, 10])
      && (answers[i].ReplaceHeader? ==> lines[i] == answers[i].line + [13, 10])
      && (answers[i] == DeleteHeader ==> lines[i] == [])
      && answers[i] != RejectHeader
    requires var answer := po.done(told + pairs + [HeadersDone]);
      && answer.AddHeaders? && |added| == |answer.lines|
      && forall i :: 0 <= i < |added| ==> added[i] == answer.lines[i] + [13, 10]
    ensures EditMessage(po, a, m) ==
      Acc(a.out + (version + [32] + status + [13, 10]) + Concat(lines) + Concat(added) + [13, 10] + m.body,
          told + pairs + [HeadersDone, MessageDone])
  {
    hide Concat, EditMessage, EditRest, EditFirst;
    assert told[..|a.hist| + 1] == a.hist + [Token(Version, m.start.version)];
    StatusLineEdited(po, a, m.start, version, status);
    var start := Acc(a.out + (version + [32] + status + [13, 10]), told);
    HeadEdited(po, a, m, start, pairs, answers, lines, added);
  }

  /** A stream is edited one message after another. */
  lemma {:induction false} NextEdited(po: Policy, a: Acc, ms: seq<Message>, m: Message)
    ensures EditAll(po, a, []) == a && EditAll(po, a, ms + [m]) == EditMessage(po, EditAll(po, a, ms), m)
    decreases |ms|
  {
    hide EditMessage;
    if ms == [] {
      assert [m][1..] == [] && ms + [m] == [m];
    } else {
      assert (ms + [m])[1..] == ms[1..] + [m];
      NextEdited(po, EditMessage(po, a, ms[0]), ms[1..], m);
    }
  }
}
