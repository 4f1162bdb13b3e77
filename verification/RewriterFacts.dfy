/** How the rewriter's offsets are tied to the parser's position, and what keeps them tied. */
module RewriterFacts {
  import opened Bytes
  import opened HttpStream

  datatype State = Init | InMethod | InUrl | InVersion | InStatus | InHeaderField | InHeaderValue | InBody

  /** What the callbacks see and change: the text, the offsets into it, and what the delegate was told. */
  datatype View = View(
    text: seq<byte>, token: int, tokenEnd: int, field: int, fieldEnd: int, value: int, valueEnd: int,
    state: State, history: seq<Event>)

  ghost predicate InStartLine(v: View, m: Message)
  {
    v.state == if m.start.RequestLine? then InUrl else InStatus
  }

  ghost predicate InField(v: View, n: nat)
  {
    v.state == InHeaderField && v.field == v.token && v.fieldEnd == v.tokenEnd == v.token + n
  }

  ghost predicate InValue(v: View, h: Header, n: nat)
  {
    && v.state == InHeaderValue && v.field == v.token && v.fieldEnd == v.token + |h.name|
    && v.value == v.fieldEnd + |h.gap| && v.valueEnd == v.tokenEnd == v.value + n
  }

  /** Each offset that is in use delimits what it should. */
  ghost predicate OffsetsOk(v: View, p: Pos)
    requires p.Ok()
  {
    match p.at
    case Start(_) => v.state == Init
    case First(m, _) => v.state == if m.start.RequestLine? then InMethod else InVersion
    case Second(m, _) => InStartLine(v, m) && v.tokenEnd == v.token + p.Depth()
    case Third(m, _) => InStartLine(v, m) && v.tokenEnd == v.token + |m.start.Second()|
    case BareCr(m, _) => InStartLine(v, m) && v.tokenEnd == v.token + |m.start.Second()|
    case Field(h, _, _, _) => InField(v, p.Depth())
    case Gap(h, _, _, _) => InField(v, |h.name|)
    case Value(h, _, _, _) => InValue(v, h, p.at.Len() - p.left)
    case Eol(h, _, _, _) => if h.value == [] then InField(v, |h.name|) else InValue(v, h, |h.value|)
    case LastCr(h, _, _) => InValue(v, h, |h.value|)
    case LastLf(_, _, _) => v.state == InBody
    case Body(_, _) => v.state == InBody
  }

  /** The part of a body that has passed. */
  function Passed(p: Pos): seq<byte>
    requires p.Ok()
  {
    match p.at
    case Body(b, _) => b[..|b| - p.left]
    case _ => []
  }

  /**
   The parser stands at offset `here` of the text. While a token is being collected, the text in front of
   it is final (unless `dirty`) and the text from it on is the raw stream; otherwise everything up to `here` is final.
   */
  ghost predicate Tied(v: View, p: Pos, here: int, emitted: seq<byte>, dirty: bool)
  {
    && p.Ok() && p.acc.hist == v.history && 0 <= here <= |v.text| && OffsetsOk(v, p)
    && if p.at.Live() then
        && 0 <= v.token && here == v.token + p.Depth()
        && v.text[v.token..] <= p.at.Raw()
        && (dirty || emitted + v.text[..v.token] == p.acc.out)
      else
        && p.Depth() <= |p.at.Raw()| && v.text[here..] <= p.Ahead()
        && (dirty || emitted + v.text[..here] == p.acc.out + Passed(p))
        && (v.token == here || (here == 0 && 0 <= v.token))
  }

  /** In every tied state the offsets of the token being collected are in order and inside what has been parsed. */
  lemma OffsetsOrdered(v: View, p: Pos, here: int, emitted: seq<byte>, dirty: bool)
    requires Tied(v, p, here, emitted, dirty)
    ensures v.state == InUrl || v.state == InStatus ==> 0 <= v.token <= v.tokenEnd <= here
    ensures v.state == InHeaderField ==> 0 <= v.token == v.field <= v.fieldEnd == v.tokenEnd <= here
    ensures v.state == InHeaderValue ==>
      0 <= v.token == v.field <= v.fieldEnd <= v.value <= v.valueEnd == v.tokenEnd <= here
    ensures 0 <= here <= |v.text|
  {
  }

  /** Nothing has been taken yet. */
  lemma StartTied(p: Pos, v: View)
    requires p.at.Start? && p.left == 0 && p.acc == Acc([], []) && MessagesOk(p.at.ms)
    requires v.text == [] && v.token == 0 && v.state == Init && v.history == []
    ensures p.Ok() && Tied(v, p, 0, [], false)
  {
    hide MessagesOk;
  }

  // ---- quiet steps ----------------------------------------------------------------------------

  /** The steps on which no callback fires. */
  predicate Quiet(p: Pos)
  {
    match p.at
    case First(_, _) => p.left > 0
    case Second(_, _) => p.left == 0
    case Third(m, _) => p.left > 0 || m.headers == []
    case BareCr(_, _) => p.left > 0
    case Field(_, _, _, _) => p.left == 0
    case Gap(h, _, _, _) => p.left > 0 || h.value == []
    case Value(_, _, _, _) => p.left == 0
    case Eol(h, hs, _, _) => p.left > 0 || (hs == [] && h.value != [])
    case LastCr(_, _, _) => p.left > 0
    case LastLf(_, b, _) => p.left > 0 && b != []
    case _ => false
  }

  lemma TiedOk(v: View, p: Pos, here: int, emitted: seq<byte>, dirty: bool)
    requires Tied(v, p, here, emitted, dirty)
    ensures p.Ok() && 0 <= here <= |v.text|
  {
  }

  /** The regions whose bytes no callback reports, and behind which no message ends. */
  ghost predicate Silent(r: Region)
  {
    r.First? || r.Third? || r.BareCr? || r.Gap? || r.Eol? || r.LastCr? || (r.LastLf? && r.body != [])
  }

  /** Entering a silent region changes neither the token nor what the offsets should be. */
  lemma EnterInStartLine(po: Policy, v: View, p: Pos, here: int, emitted: seq<byte>, dirty: bool)
    requires Tied(v, p, here, emitted, dirty) && Quiet(p) && p.left == 0 && (p.at.Second? || p.at.Third?)
    ensures Tied(v, Fire(po, p), here, emitted, dirty) && Fire(po, p).left > 0 && Silent(Fire(po, p).at)
  {
  }

  lemma EnterInName(po: Policy, v: View, p: Pos, here: int, emitted: seq<byte>, dirty: bool)
    requires Tied(v, p, here, emitted, dirty) && Quiet(p) && p.left == 0 && (p.at.Field? || p.at.Gap?)
    ensures Tied(v, Fire(po, p), here, emitted, dirty) && Fire(po, p).left > 0 && Silent(Fire(po, p).at)
  {
  }

  lemma EnterInValue(po: Policy, v: View, p: Pos, here: int, emitted: seq<byte>, dirty: bool)
    requires Tied(v, p, here, emitted, dirty) && Quiet(p) && p.left == 0 && (p.at.Value? || p.at.Eol?)
    ensures Tied(v, Fire(po, p), here, emitted, dirty) && Fire(po, p).left > 0 && Silent(Fire(po, p).at)
  {
  }

  /** Inside a silent region only the depth grows. */
  lemma QuietWithin(v: View, q: Pos, here: int, emitted: seq<byte>, dirty: bool, k: nat)
    requires Tied(v, q, here, emitted, dirty) && Silent(q.at) && 0 < k <= q.left && here + k <= |v.text|
    ensures Complete(q.(left := q.left - k)) == q.(left := q.left - k)
    ensures Tied(v, q.(left := q.left - k), here + k, emitted, dirty)
  {
  }

  lemma QuietInside(po: Policy, p: Pos)
    requires p.Ok() && Quiet(p) && p.left > 0
    ensures Fire(po, p) == p && Silent(p.at)
  {
  }

  lemma EnterQuiet(po: Policy, v: View, p: Pos, here: int, emitted: seq<byte>, dirty: bool)
    requires Tied(v, p, here, emitted, dirty) && Quiet(p) && p.left == 0
    ensures Tied(v, Fire(po, p), here, emitted, dirty) && Silent(Fire(po, p).at)
  {
    hide Tied, Fire;
    if p.at.Second? || p.at.Third? {
      EnterInStartLine(po, v, p, here, emitted, dirty);
    } else if p.at.Field? || p.at.Gap? {
      EnterInName(po, v, p, here, emitted, dirty);
    } else {
      EnterInValue(po, v, p, here, emitted, dirty);
    }
  }

  /** Bytes that no callback reports. */
  lemma QuietStep(po: Policy, v: View, p: Pos, here: int, emitted: seq<byte>, dirty: bool, k: nat)
    requires Tied(v, p, here, emitted, dirty) && Quiet(p)
    requires 0 < k <= Fire(po, p).left && here + k <= |v.text|
    ensures Tied(v, Eat(po, p, k), here + k, emitted, dirty)
  {
    hide Tied, Fire, Complete, Silent, Quiet;
    TiedOk(v, p, here, emitted, dirty);
    if p.left > 0 {
      QuietInside(po, p);
    } else {
      EnterQuiet(po, v, p, here, emitted, dirty);
    }
    QuietWithin(v, Fire(po, p), here, emitted, dirty, k);
  }

  lemma QuietLeft(po: Policy, v: View, p: Pos, here: int, emitted: seq<byte>, dirty: bool)
    requires Tied(v, p, here, emitted, dirty) && Quiet(p)
    ensures Fire(po, p).left > 0
  {
  }

  // ---- a token is complete --------------------------------------------------------------------

  /** Replacing a complete token leaves what follows it alone and adds the edited token to the final text. */
  lemma TokenSettled(text: seq<byte>, token: nat, raw: seq<byte>, tok: seq<byte>, sep: seq<byte>, rest: seq<byte>,
                     new_: seq<byte>, emitted: seq<byte>, out: seq<byte>, dirty: bool)
    requires raw == tok + (sep + rest) && token + |tok| + |sep| <= |text| && text[token..] <= raw
    requires dirty || emitted + text[..token] == out
    ensures text[token..token + |tok|] == tok && text[token + |tok|..token + |tok| + |sep|] == sep
    ensures var t, next := Replace(text, token, token + |tok|, new_), token + |new_| + |sep|;
      && next <= |t| == |text| + |new_| - |tok|
      && t[next..] == text[token + |tok| + |sep|..] && t[next..] <= rest
      && (dirty || emitted + t[..next] == out + (new_ + sep))
  {
    var t, next := Replace(text, token, token + |tok|, new_), token + |new_| + |sep|;
    var tail := text[token..];
    assert forall i :: 0 <= i < |tail| ==> tail[i] == raw[i];
    assert text[token..token + |tok|] == tail[..|tok|] == raw[..|tok|];
    assert text[token + |tok|..token + |tok| + |sep|] == tail[|tok|..|tok| + |sep|] == raw[|tok|..|tok| + |sep|];
    assert raw[|tok| + |sep|..] == rest;
    assert t[next..] == tail[|tok| + |sep|..];
    assert t[..next] == text[..token] + (new_ + sep);
    Assoc(emitted, text[..token], new_ + sep);
  }

  // ---- the steps on which callbacks fire ------------------------------------------------------

  /** A further piece of the token that is being reported. */
  lemma PieceStep(po: Policy, v: View, w: View, p: Pos, here: int, emitted: seq<byte>, dirty: bool, k: nat)
    requires Tied(v, p, here, emitted, dirty) && 0 < k <= p.left && here + k <= |v.text|
    requires match p.at
      case Second(_, _) => w == v.(tokenEnd := v.tokenEnd + k)
      case Field(_, _, _, _) => w == v.(tokenEnd := v.tokenEnd + k, fieldEnd := v.fieldEnd + k)
      case Value(_, _, _, _) => w == v.(tokenEnd := v.tokenEnd + k, valueEnd := v.valueEnd + k)
      case _ => false
    ensures Tied(w, Eat(po, p, k), here + k, emitted, dirty)
  {
  }

  /** The first piece of a header value. */
  lemma ValueStep(po: Policy, v: View, w: View, p: Pos, here: int, emitted: seq<byte>, dirty: bool, k: nat)
    requires Tied(v, p, here, emitted, dirty) && p.at.Gap? && p.left == 0 && p.at.h.value != []
    requires 0 < k <= |p.at.h.value| && here + k <= |v.text|
    requires w == v.(value := here, valueEnd := here + k, tokenEnd := here + k, state := InHeaderValue)
    ensures Tied(w, Eat(po, p, k), here + k, emitted, dirty)
  {
  }

  lemma FirstRaw(m: Message, ms: seq<Message>)
    ensures m.Raw() + RawAll(ms) == m.start.First() + (SP + AfterFirst(m, ms))
  {
    var s := m.start;
    var head, rest := RawHead(m.headers, m.body), RawAll(ms);
    assert m.Raw() + rest == ((s.First() + SP + s.Second() + s.Third()) + head) + rest;
    Assoc(s.First() + SP + s.Second() + s.Third(), head, rest);
    Assoc(s.First() + SP + s.Second(), s.Third(), head + rest);
    Assoc(s.First() + SP, s.Second(), s.Third() + (head + rest));
    Assoc(s.First(), SP, AfterFirst(m, ms));
  }

  ghost predicate TextEdited(po: Policy, text: seq<byte>, token: int, hist: seq<Event>,
                             text2: seq<byte>, token2: int, hist2: seq<Event>, kind: Kind, tok: seq<byte>,
                             sep: seq<byte>)
  {
    var new_ := NewText(po.token(hist2), tok);
    && 0 <= token && token + |tok| <= |text|
    && text2 == Replace(text, token, token + |tok|, new_)
    && token2 == token + |new_| + |sep|
    && hist2 == hist + [Token(kind, tok)]
  }

  /** A token of the start line, edited: what a view is afterwards, short of where the next token ends. */
  ghost predicate TokenEdited(po: Policy, v: View, w: View, kind: Kind, tok: seq<byte>, sep: seq<byte>)
  {
    TextEdited(po, v.text, v.token, v.history, w.text, w.token, w.history, kind, tok, sep)
  }

  /** The text up to the token is final; what follows it is the start of `rest`. */
  ghost predicate Settled(w: View, a: Acc, rest: seq<byte>, emitted: seq<byte>, dirty: bool)
  {
    && 0 <= w.token <= |w.text| && w.text[w.token..] <= rest && a.hist == w.history
    && (dirty || emitted + w.text[..w.token] == a.out)
  }

  /** The text and the final output around one edited token of the start line. */
  lemma TokenStep(po: Policy, v: View, w: View, kind: Kind, tok: seq<byte>, sep: seq<byte>, rest: seq<byte>,
                  emitted: seq<byte>, a: Acc, dirty: bool)
    requires TokenEdited(po, v, w, kind, tok, sep) && a.hist == v.history
    requires v.token + |tok| + |sep| <= |v.text| && v.text[v.token..] <= tok + (sep + rest)
    requires dirty || emitted + v.text[..v.token] == a.out
    ensures Settled(w, EditToken(po, a, kind, tok, sep), rest, emitted, dirty)
    ensures |w.text| - w.token == |v.text| - (v.token + |tok| + |sep|)
  {
    var new_ := NewText(po.token(w.history), tok);
    TokenSettled(v.text, v.token, tok + (sep + rest), tok, sep, rest, new_, emitted, a.out, dirty);
  }

  /** The first token of the start line is complete. */
  lemma FirstStep(po: Policy, v: View, w: View, p: Pos, here: int, emitted: seq<byte>, dirty: bool, k: nat)
    requires Tied(v, p, here, emitted, dirty) && p.at.First? && p.left == 0
    requires 0 < k <= Fire(po, p).left && here + k <= |v.text|
    requires var s := p.at.m.start;
      && TokenEdited(po, v, w, FirstKind(s), s.First(), SP)
      && w.tokenEnd == w.token + s.Unreported() + (if s.Reported() == [] then 0 else k)
      && w.state == (if s.RequestLine? then InUrl else InStatus)
    ensures var end := w.token + p.at.m.start.Unreported() + k;
      Tied(w, Eat(po, p, k), end, emitted, dirty) && |w.text| - end == |v.text| - here - k
  {
    var m, ms := p.at.m, p.at.ms;
    var s := m.start;
    FirstRaw(m, ms);
    TokenStep(po, v, w, FirstKind(s), s.First(), SP, AfterFirst(m, ms), emitted, p.acc, dirty);
    hide TextEdited, EditFirst, AfterFirst, RawAll, RawHead;
    var at := if s.Reported() == [] then Third(m, ms) else Second(m, ms);
    assert Eat(po, p, k) == Pos(at, at.Len() - k, EditFirst(po, p.acc, s));
  }

  /** The raw bytes of a token that has passed are in the text at its offset. */
  lemma TokenText(text: seq<byte>, token: nat, tok: seq<byte>, sep: seq<byte>, rest: seq<byte>)
    requires token + |tok| + |sep| <= |text| && text[token..] <= tok + (sep + rest)
    ensures text[token..token + |tok|] == tok && text[token + |tok|..token + |tok| + |sep|] == sep
  {
    TokenSettled(text, token, tok + (sep + rest), tok, sep, rest, tok, [], [], true);
  }

  /** What the callback finds when the second token of the start line begins. */
  lemma FirstText(po: Policy, v: View, p: Pos, here: int, emitted: seq<byte>, dirty: bool)
    requires Tied(v, p, here, emitted, dirty) && p.at.First? && p.left == 0
    ensures p.Ok() && Fire(po, p).left > 0
    ensures var s := p.at.m.start;
      && v.state == (if s.RequestLine? then InMethod else InVersion) && 0 <= v.token && here == v.token + p.at.Len()
      && v.token + |s.First()| <= |v.text| && v.text[v.token..v.token + |s.First()|] == s.First() != []
  {
    FirstRaw(p.at.m, p.at.ms);
    TokenText(v.text, v.token, p.at.m.start.First(), SP, AfterFirst(p.at.m, p.at.ms));
  }

  /** The last tokens of the start line are complete: `u` is the view between the URL and the version. */
  lemma RequestLineStep(po: Policy, v: View, u: View, w: View, p: Pos, here: int, emitted: seq<byte>, dirty: bool)
    requires Tied(v, p, here, emitted, dirty) && p.left == 0 && (p.at.Third? || p.at.BareCr?)
    requires p.at.m.start.RequestLine?
    requires TokenEdited(po, v, u, Url, p.at.m.start.url, SP)
    requires TokenEdited(po, u, w, Version, p.at.m.start.version, CRLF)
    ensures var m := p.at.m;
      && Settled(w, EditRest(po, p.acc, m.start), RawHead(m.headers, m.body) + RawAll(p.at.ms), emitted, dirty)
      && |w.text| - w.token == |v.text| - here + (if p.at.Third? then 0 else 1)
  {
    var s, rest := p.at.m.start, RawHead(p.at.m.headers, p.at.m.body) + RawAll(p.at.ms);
    Assoc(SP, s.version, CRLF);
    Assoc(SP, s.version + CRLF, rest);
    Assoc(s.version, CRLF, rest);
    TokenStep(po, v, u, Url, s.url, SP, s.version + (CRLF + rest), emitted, p.acc, dirty);
    TokenStep(po, u, w, Version, s.version, CRLF, rest, emitted, EditToken(po, p.acc, Url, s.url, SP), dirty);
  }

  /** What the callbacks find when the last tokens of the start line are complete. */
  lemma StartLineText(v: View, p: Pos, here: int, emitted: seq<byte>, dirty: bool)
    requires Tied(v, p, here, emitted, dirty) && p.left == 0 && (p.at.Third? || p.at.BareCr?)
    ensures 0 <= v.token <= v.tokenEnd <= |v.text| && v.text[v.token..v.tokenEnd] == p.at.m.start.Second()
    ensures here == v.tokenEnd + |p.at.m.start.Third()| + (if p.at.Third? then 0 else 1) && InStartLine(v, p.at.m)
  {
    var s := p.at.m.start;
    TokenText(v.text, v.token, s.Second(), [], s.Third() + (RawHead(p.at.m.headers, p.at.m.body) + RawAll(p.at.ms)));
  }

  lemma VersionText(po: Policy, v: View, u: View, p: Pos, here: int, emitted: seq<byte>, dirty: bool)
    requires Tied(v, p, here, emitted, dirty) && p.left == 0 && (p.at.Third? || p.at.BareCr?)
    requires p.at.m.start.RequestLine? && TokenEdited(po, v, u, Url, p.at.m.start.url, SP)
    ensures var version := p.at.m.start.version;
      0 <= u.token <= u.token + |version| <= |u.text| && u.text[u.token..u.token + |version|] == version
  {
    var s, rest := p.at.m.start, RawHead(p.at.m.headers, p.at.m.body) + RawAll(p.at.ms);
    Assoc(SP, s.version, CRLF);
    Assoc(SP, s.version + CRLF, rest);
    Assoc(s.version, CRLF, rest);
    TokenStep(po, v, u, Url, s.url, SP, s.version + (CRLF + rest), emitted, p.acc, dirty);
    TokenText(u.text, u.token, s.version, CRLF, rest);
  }

  lemma StatusLineStep(po: Policy, v: View, w: View, p: Pos, here: int, emitted: seq<byte>, dirty: bool)
    requires Tied(v, p, here, emitted, dirty) && p.left == 0 && (p.at.Third? || p.at.BareCr?)
    requires p.at.m.start.StatusLine?
    requires TokenEdited(po, v, w, Status, p.at.m.start.Second(), CRLF)
    ensures var m := p.at.m;
      && Settled(w, EditRest(po, p.acc, m.start), RawHead(m.headers, m.body) + RawAll(p.at.ms), emitted, dirty)
      && |w.text| - w.token == |v.text| - here + (if p.at.Third? then 0 else 1)
  {
    var m := p.at.m;
    TokenStep(po, v, w, Status, m.start.Second(), CRLF, RawHead(m.headers, m.body) + RawAll(p.at.ms), emitted, p.acc,
              dirty);
  }

  /** The view when `k` bytes of a header name have been reported. */
  ghost predicate StartsField(w: View, x: View, k: nat)
  {
    && x.text == w.text && x.token == w.token && x.history == w.history
    && x.tokenEnd == x.token + k && x.field == x.token && x.fieldEnd == x.tokenEnd
    && x.state == InHeaderField
  }

  lemma HeadRaw(hs: seq<Header>, b: seq<byte>, ms: seq<Message>)
    requires hs != []
    ensures RawHead(hs, b) + RawAll(ms) == FromHeader(hs[0], hs[1..], b, ms)
  {
    var h, lines, rest := hs[0], RawLines(hs[1..]), RawAll(ms);
    assert RawHead(hs, b) + rest == ((((h.Line() + CRLF) + lines) + CRLF) + b) + rest;
    assert FromHeader(h, hs[1..], b, ms) == h.Line() + (CRLF + (((lines + CRLF) + b) + rest));
    Assoc(h.Line() + CRLF, lines, CRLF);
    Assoc(h.Line() + CRLF, lines + CRLF, b);
    Assoc(h.Line() + CRLF, (lines + CRLF) + b, rest);
    Assoc(h.Line(), CRLF, ((lines + CRLF) + b) + rest);
  }

  /** The first piece of the first header name. `w` is the view when the start line has been edited. */
  lemma FirstFieldStep(po: Policy, v: View, w: View, x: View, p: Pos, here: int, emitted: seq<byte>, dirty: bool,
                       k: nat)
    requires p.Ok() && p.at.Third? && p.left == 0 && p.at.m.headers != []
    requires Settled(w, EditRest(po, p.acc, p.at.m.start), RawHead(p.at.m.headers, p.at.m.body) + RawAll(p.at.ms),
                     emitted, dirty)
    requires 0 < k <= |p.at.m.headers[0].name| && w.token + k <= |w.text|
    requires StartsField(w, x, k)
    ensures Tied(x, Eat(po, p, k), w.token + k, emitted, dirty)
  {
    var m := p.at.m;
    HeadRaw(m.headers, m.body, p.at.ms);
  }

  ghost predicate LineEdited(po: Policy, text: seq<byte>, token: int, hist: seq<Event>,
                             text2: seq<byte>, token2: int, hist2: seq<Event>, h: Header)
  {
    var new_ := NewLine(po.header(hist2), h.Line());
    && 0 <= token && token + |h.Line()| + 2 <= |text|
    && text2 == Replace(text, token, token + |h.Line()| + 2, new_)
    && token2 == token + |new_|
    && hist2 == hist + [Pair(h.Line(), h.name, h.value)]
  }

  /** A header line, edited. */
  ghost predicate HeaderEdited(po: Policy, v: View, w: View, h: Header)
  {
    LineEdited(po, v.text, v.token, v.history, w.text, w.token, w.history, h)
  }

  lemma LineSettled(text: seq<byte>, token: nat, line: seq<byte>, rest: seq<byte>, new_: seq<byte>,
                    emitted: seq<byte>, out: seq<byte>, dirty: bool)
    requires token + |line| + 2 <= |text| && text[token..] <= line + (CRLF + rest)
    requires dirty || emitted + text[..token] == out
    ensures var t, next := Replace(text, token, token + |line| + 2, new_), token + |new_|;
      && next <= |t| == |text| + |new_| - (|line| + 2)
      && t[next..] <= rest && (dirty || emitted + t[..next] == out + new_)
  {
    var tok := line + CRLF;
    Assoc(line, CRLF, rest);
    assert tok + rest == tok + ([] + rest) && new_ + [] == new_;
    TokenSettled(text, token, tok + ([] + rest), tok, [], rest, new_, emitted, out, dirty);
  }

  /** A header line is complete. */
  lemma HeaderStep(po: Policy, v: View, w: View, h: Header, rest: seq<byte>, emitted: seq<byte>, a: Acc, dirty: bool)
    requires HeaderEdited(po, v, w, h)
    requires Settled(v, a, h.Line() + (CRLF + rest), emitted, dirty)
    ensures Settled(w, EditHeader(po, a, h), rest, emitted, dirty)
    ensures |w.text| - w.token == |v.text| - (v.token + |h.Line()| + 2)
  {
    LineSettled(v.text, v.token, h.Line(), rest, NewLine(po.header(w.history), h.Line()), emitted, a.out, dirty);
  }

  /** The header the offsets delimit. */
  ghost function SeenHeader(v: View): Header
    requires 0 <= v.field <= v.fieldEnd <= v.value <= v.valueEnd <= |v.text|
  {
    Header(v.text[v.field..v.fieldEnd], v.text[v.fieldEnd..v.value], v.text[v.value..v.valueEnd])
  }

  lemma SeenLine(v: View)
    requires 0 <= v.field <= v.fieldEnd <= v.value <= v.valueEnd <= |v.text|
    ensures SeenHeader(v).Line() == v.text[v.field..v.valueEnd]
  {
  }

  lemma LineParts(h: Header)
    ensures var line, n, k := h.Line(), |h.name|, |h.name| + |h.gap|;
      line[0..n] == h.name && line[n..k] == h.gap && line[k..|line|] == h.value
  {
  }

  lemma SubSlice(text: seq<byte>, from: nat, to: nat, i: nat, j: nat)
    requires from <= to <= |text| && i <= j <= to - from
    ensures text[from + i..from + j] == text[from..to][i..j]
  {
    var c, w := text[from..to], text[from + i..from + j];
    assert forall x :: 0 <= x < j - i ==> w[x] == text[from + i + x] == c[i + x] == c[i..j][x];
  }

  lemma HeaderSlices(text: seq<byte>, at: nat, h: Header)
    requires at + |h.Line()| <= |text| && text[at..at + |h.Line()|] == h.Line()
    ensures var n, k := |h.name|, |h.name| + |h.gap|;
      && text[at..at + n] == h.name && text[at + n..at + k] == h.gap
      && text[at + k..at + |h.Line()|] == h.value
  {
    var n, k, end := |h.name|, |h.name| + |h.gap|, |h.Line()|;
    SubSlice(text, at, at + end, 0, n);
    SubSlice(text, at, at + end, n, k);
    SubSlice(text, at, at + end, k, end);
    LineParts(h);
  }

  /** The offsets delimit the true header, name and value, and its line end follows. */
  lemma HeaderText(v: View, h: Header, rest: seq<byte>)
    requires 0 <= v.token && v.token + |h.Line()| + 2 <= |v.text| && v.text[v.token..] <= h.Line() + (CRLF + rest)
    requires InValue(v, h, |h.value|)
    ensures v.text[v.tokenEnd..v.tokenEnd + 2] == CRLF && SeenHeader(v) == h
  {
    TokenText(v.text, v.token, h.Line(), CRLF, rest);
    HeaderSlices(v.text, v.token, h);
  }

  /** An empty value is reported behind its line, with no text of its own. */
  ghost function WithEmptyValue(v: View, here: int): View
  {
    v.(value := here - 2, valueEnd := here - 2, tokenEnd := here - 2, state := InHeaderValue)
  }

  /** The offsets of a complete header are in order and delimit it; `here` is `n` behind its line end. */
  ghost predicate HeaderSeen(v: View, h: Header, here: int, n: nat)
  {
    && 0 <= v.token == v.field <= v.fieldEnd <= v.value <= v.valueEnd == v.tokenEnd && v.state == InHeaderValue
    && here == v.tokenEnd + 2 + n <= |v.text| && v.text[v.tokenEnd..v.tokenEnd + 2] == CRLF && SeenHeader(v) == h
  }

  lemma EolText(v: View, w: View, p: Pos, here: int, emitted: seq<byte>, dirty: bool)
    requires Tied(v, p, here, emitted, dirty) && p.at.Eol? && p.left == 0
    requires w == if p.at.h.value == [] then WithEmptyValue(v, here) else v
    ensures HeaderSeen(w, p.at.h, here, 0)
  {
    HeaderText(w, p.at.h, RawHead(p.at.hs, p.at.body) + RawAll(p.at.ms));
  }

  lemma LastCrText(v: View, p: Pos, here: int, emitted: seq<byte>, dirty: bool)
    requires Tied(v, p, here, emitted, dirty) && p.at.LastCr? && p.left == 0
    ensures HeaderSeen(v, p.at.h, here, 1) && p.Ok()
  {
    HeaderText(v, p.at.h, RawHead([], p.at.body) + RawAll(p.at.ms));
  }

  /** An empty value in front of the empty line. */
  lemma EmptyValueStep(po: Policy, v: View, p: Pos, here: int, emitted: seq<byte>, dirty: bool)
    requires Tied(v, p, here, emitted, dirty) && p.at.Eol? && p.left == 0 && p.at.hs == [] && p.at.h.value == []
    requires here < |v.text|
    ensures Fire(po, p).left == 1 && Tied(WithEmptyValue(v, here), Eat(po, p, 1), here + 1, emitted, dirty)
  {
  }

  /** The first piece of a further header name. */
  lemma NextFieldStep(po: Policy, v: View, w: View, x: View, p: Pos, here: int, emitted: seq<byte>, dirty: bool, k: nat)
    requires Tied(v, p, here, emitted, dirty) && p.at.Eol? && p.left == 0 && p.at.hs != []
    requires HeaderEdited(po, v, w, p.at.h)
    requires 0 < k <= |p.at.hs[0].name| && here + k <= |v.text|
    requires StartsField(w, x, k)
    ensures Tied(x, Eat(po, p, k), w.token + k, emitted, dirty)
    ensures |w.text| - w.token == |v.text| - here
  {
    var h, hs, b, ms := p.at.h, p.at.hs, p.at.body, p.at.ms;
    HeaderStep(po, v, w, h, RawHead(hs, b) + RawAll(ms), emitted, p.acc, dirty);
    HeadRaw(hs, b, ms);
  }

  /** Header lines have been added in front of the empty line. */
  ghost predicate DoneEdited(po: Policy, v: View, w: View, was: bool, dirty: bool)
  {
    var hist := v.history + [HeadersDone];
    var lines := NewLines(po.done(hist));
    && 0 <= v.token <= |v.text| && |w.text| == |v.text| + |lines|
    && w.token == v.token + |lines| && w.text[w.token..] == v.text[v.token..]
    && (was ==> dirty) && (!dirty ==> w.text[..w.token] == v.text[..v.token] + lines)
    && w.history == hist
  }

  lemma DoneStep(po: Policy, v: View, w: View, rest: seq<byte>, emitted: seq<byte>, a: Acc, was: bool, dirty: bool)
    requires DoneEdited(po, v, w, was, dirty) && Settled(v, a, rest, emitted, was)
    ensures Settled(w, EditDone(po, a), rest, emitted, dirty)
    ensures |w.text| - w.token == |v.text| - v.token
  {
    Assoc(emitted, v.text[..v.token], NewLines(po.done(w.history)));
  }

  lemma EmptyHeadRaw(b: seq<byte>, ms: seq<Message>)
    ensures RawHead([], b) + RawAll(ms) == CRLF + (b + RawAll(ms))
    ensures CRLF + (b + RawAll(ms)) == CR + (LF + (b + RawAll(ms)))
  {
    assert RawLines([]) + CRLF == CRLF;
    Assoc(CRLF, b, RawAll(ms));
    Assoc(CR, LF, b + RawAll(ms));
  }

  /** The last header line and the header block are complete. */
  lemma LastHeaderStep(po: Policy, v: View, w: View, x: View, p: Pos, here: int, emitted: seq<byte>, was: bool,
                       dirty: bool)
    requires Tied(v, p, here, emitted, was) && p.at.LastCr? && p.left == 0
    requires HeaderEdited(po, v, w, p.at.h) && DoneEdited(po, w, x, was, dirty) && x.state == InBody
    ensures x.token + 1 <= |x.text| && Tied(x, Fire(po, p), x.token + 1, emitted, dirty)
    ensures |x.text| - (x.token + 1) == |v.text| - here
    ensures Fire(po, p).Ok() && Fire(po, p).left > 0 && Fire(po, p).at.LastLf?
  {
    var h, b, ms := p.at.h, p.at.body, p.at.ms;
    var rest := RawHead([], b) + RawAll(ms);
    HeaderStep(po, v, w, h, rest, emitted, p.acc, was);
    EmptyHeadRaw(b, ms);
    DoneStep(po, w, x, rest, emitted, EditHeader(po, p.acc, h), was, dirty);
  }

  /** The first byte of the line end behind `token` is taken. */
  lemma TakeCr(text: seq<byte>, token: nat, rest: seq<byte>, emitted: seq<byte>)
    requires token < |text| && text[token..] <= CR + rest
    ensures text[token + 1..] <= rest
    ensures emitted + text[..token + 1] == (emitted + text[..token]) + CR
  {
    var t := text[token..];
    assert t == (CR + rest)[..|t|];
    assert text[token + 1..] == rest[..|t| - 1];
    assert text[..token + 1] == text[..token] + CR by {
      assert t[0] == 13;
    }
    Assoc(emitted, text[..token], CR);
  }

  /** A message without header lines: the start line and the header block are complete. */
  lemma BareStep(po: Policy, w: View, x: View, y: View, p: Pos, emitted: seq<byte>, was: bool, dirty: bool)
    requires p.Ok() && p.at.BareCr? && p.left == 0
    requires Settled(w, EditRest(po, p.acc, p.at.m.start), RawHead([], p.at.m.body) + RawAll(p.at.ms), emitted, was)
    requires DoneEdited(po, w, x, was, dirty) && x.token < |x.text|
    requires y == x.(token := x.token + 1, state := InBody)
    ensures Tied(y, Fire(po, p), y.token, emitted, dirty)
  {
    var b, ms := p.at.m.body, p.at.ms;
    EmptyHeadRaw(b, ms);
    DoneStep(po, w, x, RawHead([], b) + RawAll(ms), emitted, EditRest(po, p.acc, p.at.m.start), was, dirty);
    hide EditRest, EditDone, DoneEdited, Settled, RawHead, RawAll;
    TakeCr(x.text, x.token, LF + (b + RawAll(ms)), emitted);
  }

  lemma BareFire(po: Policy, p: Pos)
    requires p.Ok() && p.at.BareCr? && p.left == 0
    ensures var q := Fire(po, p); q.Ok() && q.at.LastLf? && q.left == 1 && q.Depth() == 0
  {
    hide EditRest, EditDone, Push;
  }

  lemma StartFacts(po: Policy, v: View, p: Pos, here: int, emitted: seq<byte>, dirty: bool)
    requires Tied(v, p, here, emitted, dirty) && p.at.Start? && here < |v.text|
    ensures p.Ok() && v.state == Init && p.at.ms != [] && Fire(po, p).left > 0
  {
    assert v.text[here..] != [];
  }

  /** The first byte of a message: the token starts there. */
  lemma BeginStep(po: Policy, v: View, w: View, p: Pos, here: int, emitted: seq<byte>, dirty: bool)
    requires Tied(v, p, here, emitted, dirty) && p.at.Start? && here < |v.text|
    ensures p.at.ms != []
    requires p.at.ms != [] ==>
      w == v.(token := here, state := if p.at.ms[0].start.RequestLine? then InMethod else InVersion)
    ensures Tied(w, Eat(po, p, 1), here + 1, emitted, dirty)
  {
    assert v.text[here..] != [];
  }

  /** What being tied means inside a body. */
  lemma InBodyFacts(v: View, p: Pos, here: int, emitted: seq<byte>, dirty: bool)
    requires Tied(v, p, here, emitted, dirty) && p.at.Body?
    ensures p.Ok() && v.state == InBody && p.acc.hist == v.history && 0 <= here <= |v.text|
    ensures var done := |p.at.body| - p.left;
      && v.text[here..] <= (p.at.body + RawAll(p.at.ms))[done..]
      && (dirty || emitted + v.text[..here] == p.acc.out + p.at.body[..done])
  {
  }

  lemma AtBody(w: View, q: Pos, here: int, emitted: seq<byte>, dirty: bool)
    requires q.Ok() && q.at.Body? && q.acc.hist == w.history && 0 <= here <= |w.text|
    requires w.state == InBody && w.token == here
    requires var done := |q.at.body| - q.left;
      && w.text[here..] <= (q.at.body + RawAll(q.at.ms))[done..]
      && (dirty || emitted + w.text[..here] == q.acc.out + q.at.body[..done])
    ensures Tied(w, q, here, emitted, dirty)
  {
  }

  lemma PassBody(text: seq<byte>, here: nat, b: seq<byte>, done: nat, k: nat, rest: seq<byte>,
                 emitted: seq<byte>, out: seq<byte>, dirty: bool)
    requires here + k <= |text| && done + k <= |b| && text[here..] <= (b + rest)[done..]
    requires dirty || emitted + text[..here] == out + b[..done]
    ensures text[here + k..] <= (b + rest)[done + k..]
    ensures done + k == |b| ==> (b + rest)[done + k..] == rest && b[..done + k] == b
    ensures dirty || emitted + text[..here + k] == out + b[..done + k]
  {
    var w, raw := b[done..done + k], (b + rest)[done..];
    assert raw[..k] == w && raw[k..] == (b + rest)[done + k..];
    assert text[here..here + k] == text[here..][..k] && text[here + k..] == text[here..][k..];
    assert text[..here + k] == text[..here] + w && b[..done + k] == b[..done] + w;
    Assoc(emitted, text[..here], w);
    Assoc(out, b[..done], w);
  }

  lemma BodyGoesOn(v: View, w: View, p: Pos, q: Pos, here: int, emitted: seq<byte>, dirty: bool, k: nat)
    requires Tied(v, p, here, emitted, dirty) && p.at.Body? && 0 < k < p.left && here + k <= |v.text|
    requires w == v.(token := here + k) && q == p.(left := p.left - k)
    ensures Tied(w, q, here + k, emitted, dirty)
  {
    hide Tied, RawAll, MessagesOk;
    InBodyFacts(v, p, here, emitted, dirty);
    PassBody(v.text, here, p.at.body, |p.at.body| - p.left, k, RawAll(p.at.ms), emitted, p.acc.out, dirty);
    AtBody(w, q, here + k, emitted, dirty);
  }

  /** What being tied means between messages. */
  lemma AtStart(w: View, q: Pos, here: int, emitted: seq<byte>, dirty: bool)
    requires q.Ok() && q.at.Start? && q.acc.hist == w.history && 0 <= here <= |w.text|
    requires w.state == Init && w.token == here && w.text[here..] <= RawAll(q.at.ms)
    requires dirty || emitted + w.text[..here] == q.acc.out
    ensures Tied(w, q, here, emitted, dirty)
  {
    assert RawAll(q.at.ms)[0..] == RawAll(q.at.ms) && q.acc.out + [] == q.acc.out;
  }

  lemma BodyEnds(v: View, w: View, p: Pos, q: Pos, here: int, emitted: seq<byte>, dirty: bool)
    requires Tied(v, p, here, emitted, dirty) && p.at.Body? && here + p.left <= |v.text|
    requires w == v.(token := here + p.left, state := Init, history := v.history + [MessageDone])
    requires q == Pos(Start(p.at.ms), 0, Finish(Push(p.acc, p.at.body)))
    ensures Tied(w, q, here + p.left, emitted, dirty)
  {
    hide Tied, RawAll, MessagesOk;
    InBodyFacts(v, p, here, emitted, dirty);
    PassBody(v.text, here, p.at.body, |p.at.body| - p.left, p.left, RawAll(p.at.ms), emitted, p.acc.out, dirty);
    AtStart(w, q, here + p.left, emitted, dirty);
  }

  lemma EatBody(po: Policy, p: Pos, k: nat)
    requires p.Ok() && p.at.Body? && 0 < k <= p.left
    ensures Eat(po, p, k) == if k < p.left then p.(left := p.left - k)
      else Pos(Start(p.at.ms), 0, Finish(Push(p.acc, p.at.body)))
  {
    hide Finish, Push;
  }

  /** Bytes of a body pass; with the last of them the message ends. */
  lemma BodyStep(po: Policy, v: View, w: View, p: Pos, here: int, emitted: seq<byte>, dirty: bool, k: nat)
    requires Tied(v, p, here, emitted, dirty) && p.at.Body? && 0 < k <= p.left && here + k <= |v.text|
    requires w == if k < p.left then v.(token := here + k)
      else v.(token := here + k, state := Init, history := v.history + [MessageDone])
    ensures Tied(w, Eat(po, p, k), here + k, emitted, dirty)
  {
    TiedOk(v, p, here, emitted, dirty);
    hide Tied, RawAll, Eat, Finish, Push;
    EatBody(po, p, k);
    if k < p.left {
      BodyGoesOn(v, w, p, p.(left := p.left - k), here, emitted, dirty, k);
    } else {
      BodyEnds(v, w, p, Eat(po, p, k), here, emitted, dirty);
    }
  }

  /** Bytes that were waiting in front of a token boundary become final as they are. */
  lemma PassEnd(text: seq<byte>, token: nat, end: seq<byte>, rest: seq<byte>, emitted: seq<byte>, out: seq<byte>,
                dirty: bool)
    requires token + |end| <= |text| && text[token..] <= end + rest
    requires dirty || emitted + text[..token] == out
    ensures text[token + |end|..] <= rest
    ensures dirty || emitted + text[..token + |end|] == out + end
  {
    var tail, raw := text[token..], end + rest;
    assert tail[..|end|] == raw[..|end|] == end && raw[|end|..] == rest;
    assert text[token + |end|..] == tail[|end|..];
    assert text[..token + |end|] == text[..token] + end;
    Assoc(emitted, text[..token], end);
  }

  /** The line end in front of a body becomes final with the body's first byte. */
  lemma EnterBody(po: Policy, v: View, p: Pos, here: int, emitted: seq<byte>, dirty: bool)
    requires Tied(v, p, here, emitted, dirty) && p.at.LastLf? && p.left == 0 && p.at.body != []
    ensures Tied(v.(token := here), Fire(po, p), here, emitted, dirty)
  {
    PassEnd(v.text, v.token, if p.at.afterCr then CRLF else LF, p.at.body + RawAll(p.at.ms), emitted, p.acc.out, dirty);
  }

  lemma SecondBodyStep(po: Policy, v: View, w: View, p: Pos, q: Pos, here: int, emitted: seq<byte>, dirty: bool, k: nat)
    requires p.Ok() && p.at.LastLf? && p.left == 0 && q == Fire(po, p) && q.at.Body? && q.left == |q.at.body|
    requires Tied(v, q, here, emitted, dirty) && 0 < k <= q.left && here + k <= |v.text|
    requires w == if k < q.left then v.(token := here + k)
      else v.(token := here + k, state := Init, history := v.history + [MessageDone])
    ensures Tied(w, Eat(po, p, k), here + k, emitted, dirty)
  {
    hide Tied, RawAll;
    BodyStep(po, v, w, q, here, emitted, dirty, k);
    assert Eat(po, p, k) == Eat(po, q, k);
  }

  /** The first bytes of a body: the line end in front of it is final, too. */
  lemma FirstBodyStep(po: Policy, v: View, w: View, p: Pos, here: int, emitted: seq<byte>, dirty: bool, k: nat)
    requires Tied(v, p, here, emitted, dirty) && p.at.LastLf? && p.left == 0 && p.at.body != []
    requires 0 < k <= |p.at.body| && here + k <= |v.text|
    requires w == if k < |p.at.body| then v.(token := here + k)
      else v.(token := here + k, state := Init, history := v.history + [MessageDone])
    ensures Fire(po, p).left == |p.at.body| && Tied(w, Eat(po, p, k), here + k, emitted, dirty)
  {
    EnterBody(po, v, p, here, emitted, dirty);
    TiedOk(v, p, here, emitted, dirty);
    hide Tied, RawAll;
    SecondBodyStep(po, v.(token := here), w, p, Fire(po, p), here, emitted, dirty, k);
  }

  /** How much of the body that begins or goes on here is still to come. */
  function BodyLeft(p: Pos): nat
    requires p.at.Body? || p.at.LastLf?
  {
    if p.at.Body? then p.left else |p.at.body|
  }

  lemma PassStep(po: Policy, v: View, w: View, p: Pos, here: int, emitted: seq<byte>, dirty: bool, k: nat)
    requires Tied(v, p, here, emitted, dirty) && (p.at.Body? || (p.at.LastLf? && p.left == 0))
    requires 0 < k <= BodyLeft(p) && here + k <= |v.text|
    requires w == if k < BodyLeft(p) then v.(token := here + k)
      else v.(token := here + k, state := Init, history := v.history + [MessageDone])
    ensures k <= Fire(po, p).left && Tied(w, Eat(po, p, k), here + k, emitted, dirty)
    ensures Eat(po, p, k).at.Start? <==> k == BodyLeft(p)
  {
    if p.at.Body? {
      BodyStep(po, v, w, p, here, emitted, dirty, k);
    } else {
      FirstBodyStep(po, v, w, p, here, emitted, dirty, k);
    }
  }

  lemma PassFacts(v: View, p: Pos, here: int, emitted: seq<byte>, dirty: bool)
    requires Tied(v, p, here, emitted, dirty) && (p.at.Body? || (p.at.LastLf? && p.left == 0))
    ensures p.Ok() && BodyLeft(p) > 0 && v.state == InBody
  {
  }

  lemma EolFacts(po: Policy, v: View, p: Pos, here: int, emitted: seq<byte>, dirty: bool)
    requires Tied(v, p, here, emitted, dirty) && p.at.Eol? && p.left == 0 && p.at.hs != []
    ensures p.Ok() && Fire(po, p).left == |p.at.hs[0].name| > 0
  {
  }

  lemma SecondFacts(v: View, p: Pos, here: int, emitted: seq<byte>, dirty: bool)
    requires Tied(v, p, here, emitted, dirty) && p.at.Second?
    ensures p.Ok() && v.state == if p.at.m.start.RequestLine? then InUrl else InStatus
  {
  }

  lemma ThirdFacts(po: Policy, v: View, p: Pos, here: int, emitted: seq<byte>, dirty: bool)
    requires Tied(v, p, here, emitted, dirty) && p.at.Third? && p.left == 0 && p.at.m.headers != []
    ensures p.Ok() && Fire(po, p).left == |p.at.m.headers[0].name| > 0
  {
  }

  /** What being tied means in front of the last line feed of a header block. */
  lemma InEmptyLine(v: View, p: Pos, here: int, emitted: seq<byte>, dirty: bool)
    requires Tied(v, p, here, emitted, dirty) && p.at.LastLf? && p.left == 1
    ensures var end := if p.at.afterCr then CRLF else LF;
      && p.Ok() && 0 <= v.token && v.token + |end| == here + 1 && p.acc.hist == v.history
      && v.text[v.token..] <= end + (p.at.body + RawAll(p.at.ms))
      && (dirty || emitted + v.text[..v.token] == p.acc.out)
  {
  }

  lemma EndParser(po: Policy, p: Pos, q: Pos)
    requires p.Ok() && p.at.LastLf? && p.left == 1 && p.at.body == [] && q == Eat(po, p, 1)
    ensures q == Pos(Start(p.at.ms), 0, Finish(Push(p.acc, if p.at.afterCr then CRLF else LF))) && q.Ok()
  {
  }

  lemma EndText(text: seq<byte>, token: nat, end: seq<byte>, b: seq<byte>, rest: seq<byte>,
                emitted: seq<byte>, out: seq<byte>, dirty: bool)
    requires token + |end| <= |text| && text[token..] <= end + (b + rest) && b == []
    requires dirty || emitted + text[..token] == out
    ensures text[token + |end|..] <= rest
    ensures dirty || emitted + text[..token + |end|] == out + end
  {
    assert b + rest == rest;
    PassEnd(text, token, end, rest, emitted, out, dirty);
  }

  /** A message without a body ends with the line end behind its header block. */
  lemma EndStep(po: Policy, v: View, w: View, p: Pos, here: int, emitted: seq<byte>, dirty: bool)
    requires Tied(v, p, here, emitted, dirty) && p.at.LastLf? && p.left == 1 && p.at.body == [] && here < |v.text|
    requires w == v.(token := here + 1, state := Init, history := v.history + [MessageDone])
    ensures Tied(w, Eat(po, p, 1), here + 1, emitted, dirty)
  {
    hide Tied, RawAll;
    var end := if p.at.afterCr then CRLF else LF;
    InEmptyLine(v, p, here, emitted, dirty);
    EndText(v.text, v.token, end, p.at.body, RawAll(p.at.ms), emitted, p.acc.out, dirty);
    EndParser(po, p, Eat(po, p, 1));
    hide Eat;
    AtStart(w, Eat(po, p, 1), here + 1, emitted, dirty);
  }

  // ---- which step is next ---------------------------------------------------------------------

  /** Steps that do not touch the text. */
  predicate TextStep(p: Pos)
  {
    || Quiet(p)
    || ((p.at.Field? || p.at.Value?) && p.left > 0)
    || (p.at.Gap? && p.left == 0)
    || (p.at.Eol? && p.left == 0 && p.at.hs == [])
  }

  /** Steps on which the delegate may edit a token; they pause the parser unless they report a further piece. */
  predicate EditStep(p: Pos)
  {
    || (p.at.First? && p.left == 0)
    || (p.at.Second? && p.left > 0)
    || (p.at.Third? && p.left == 0 && p.at.m.headers != [])
    || (p.at.Eol? && p.left == 0 && p.at.hs != [])
  }

  /** Where the delegate is told something only after the parser has returned. */
  predicate AfterReturn(p: Pos)
  {
    p.at.Start? || p.at.BareCr?
  }

  /** The other steps stay inside a token or begin the next. */
  lemma TokenGoesOn(po: Policy, p: Pos, k: nat)
    requires p.Ok() && (TextStep(p) || EditStep(p)) && 0 < k <= Fire(po, p).left
    ensures Eat(po, p, k).at.Live()
  {
    hide EditFirst, EditRest, EditHeader, EditDone;
  }

  /** Steps behind which no token is being collected, or a new one begins. */
  predicate FreeStep(p: Pos)
  {
    p.at.Start? || p.at.Body? || (p.at.LastLf? && (p.left == 0 || (p.left == 1 && p.at.body == [])))
  }

  /** The header block ends with the next byte, which is not taken when that is reported. */
  predicate EndsHead(p: Pos)
  {
    (p.at.LastCr? || p.at.BareCr?) && p.left == 0
  }

  lemma EveryStep(p: Pos)
    requires p.Ok()
    ensures TextStep(p) || EditStep(p) || FreeStep(p) || EndsHead(p)
  {
  }
}
