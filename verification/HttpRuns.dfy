/** Feeding the parser a stream byte by byte: what has been reported and settled when it is used up. */
module HttpRuns {
  import opened Bytes
  import opened HttpStream

  /** The parser after one more byte. Behind the last message it takes none. */
  function Next(po: Policy, p: Pos): (q: Pos)
    requires p.Ok()
    ensures q.Ok()
  {
    if Fire(po, p).left == 0 then p else Eat(po, p, 1)
  }

  /** The parser after `n` more bytes. */
  function Advance(po: Policy, p: Pos, n: nat): (q: Pos)
    requires p.Ok()
    ensures q.Ok()
  {
    if n == 0 then p else Next(po, Advance(po, p, n - 1))
  }

  /** Bytes of one region may be taken in any number of steps. */
  lemma EatTwice(po: Policy, p: Pos, k: nat, n: nat)
    requires p.Ok() && 0 < k && 0 < n && k + n <= Fire(po, p).left
    ensures Eat(po, p, k).Ok() && Fire(po, Eat(po, p, k)) == Eat(po, p, k) && Eat(po, p, k).left >= n
    ensures Eat(po, Eat(po, p, k), n) == Eat(po, p, k + n)
  {
    hide EditFirst, EditRest, EditHeader, EditDone, Push, Finish;
  }

  lemma AdvanceOne(po: Policy, p: Pos, n: nat)
    requires p.Ok()
    ensures Advance(po, p, n + 1) == Next(po, Advance(po, p, n))
  {
  }

  lemma {:induction false} AdvanceEat(po: Policy, p: Pos, n: nat, k: nat)
    requires p.Ok() && 0 < k <= Fire(po, Advance(po, p, n)).left
    ensures Advance(po, p, n + k) == Eat(po, Advance(po, p, n), k)
  {
    hide Eat, Fire, Advance;
    if k == 1 {
      AdvanceOne(po, p, n);
    } else {
      AdvanceEat(po, p, n, k - 1);
      EatTwice(po, Advance(po, p, n), k - 1, 1);
      AdvanceOne(po, p, n + k - 1);
    }
  }

  /** From the end of one region, where the parser is at `q`, to the end of the next. */
  lemma Hop(po: Policy, p: Pos, n: nat, q: Pos, k: nat, r: Pos)
    requires p.Ok() && q == Advance(po, p, n) && 0 < k == Fire(po, q).left && r == Complete(Fire(po, q).(left := 0))
    ensures Advance(po, p, n + k) == r
  {
    hide Advance;
    AdvanceEat(po, p, n, k);
  }

  lemma AdvanceNothing(po: Policy, p: Pos)
    requires p.Ok()
    ensures Advance(po, p, 0) == p
  {
  }

  lemma HopFirst(po: Policy, p: Pos, k: nat, r: Pos)
    requires p.Ok() && 0 < k == Fire(po, p).left && r == Complete(Fire(po, p).(left := 0))
    ensures Advance(po, p, k) == r
  {
    AdvanceNothing(po, p);
    hide Advance;
    AdvanceEat(po, p, 0, k);
  }

  lemma {:induction false} AdvanceTwice(po: Policy, p: Pos, n: nat, k: nat)
    requires p.Ok()
    ensures Advance(po, Advance(po, p, n), k) == Advance(po, p, n + k)
  {
    hide Advance, Next;
    if k == 0 {
      AdvanceNothing(po, Advance(po, p, n));
    } else {
      AdvanceTwice(po, p, n, k - 1);
      AdvanceOne(po, p, n + (k - 1));
      AdvanceOne(po, Advance(po, p, n), k - 1);
    }
  }

  /** `q` is where the parser stands `n` bytes behind `p`; it may already have reported what the next byte, if any,
      shows. */
  ghost predicate Reached(po: Policy, p: Pos, n: nat, q: Pos, more: bool)
    requires p.Ok()
  {
    q == Advance(po, p, n) || (more && q.left > 0 && q == Fire(po, Advance(po, p, n)))
  }

  lemma ReachedEat(po: Policy, p: Pos, n: nat, q: Pos, k: nat)
    requires p.Ok() && q.Ok() && Reached(po, p, n, q, true) && 0 < k <= Fire(po, q).left
    ensures Reached(po, p, n + k, Eat(po, q, k), false)
  {
    hide Advance;
    AdvanceEat(po, p, n, k);
  }

  /** What is final so far, with the part of the current token or body that has passed. */
  function Output(p: Pos): seq<byte>
    requires p.Ok()
  {
    if p.at.Live() then p.acc.out + p.at.Raw()[..Min(p.Depth(), |p.at.Raw()|)]
    else if p.at.Body? then p.acc.out + p.at.body[..|p.at.body| - p.left]
    else p.acc.out
  }

  /** The bytes still to come. */
  function Coming(p: Pos): seq<byte>
    requires p.Ok()
  {
    if p.Depth() <= |p.at.Raw()| then p.at.Raw()[p.Depth()..] else []
  }

  /** The messages to come are all requests, or all responses. */
  predicate MessagesOfKind(ms: seq<Message>, isRequest: bool)
  {
    ms != [] ==> ms[0].start.RequestLine? == isRequest && MessagesOfKind(ms[1..], isRequest)
  }

  lemma FireKind(po: Policy, p: Pos, isRequest: bool)
    requires p.Ok() && MessagesOfKind(p.at.ms, isRequest)
    ensures MessagesOfKind(Fire(po, p).at.ms, isRequest)
  {
  }

  lemma EatKind(po: Policy, p: Pos, k: nat, isRequest: bool)
    requires p.Ok() && MessagesOfKind(p.at.ms, isRequest) && 0 < k <= Fire(po, p).left
    ensures MessagesOfKind(Eat(po, p, k).at.ms, isRequest)
  {
    FireKind(po, p, isRequest);
  }

  lemma FireOk(po: Policy, p: Pos)
    requires p.Ok()
    ensures Fire(po, p).Ok()
  {
    hide EditFirst, EditRest, EditHeader, EditDone, Push;
  }

  lemma TakenDepth(p: Pos, k: nat)
    requires p.Ok() && 0 < k <= p.left
    ensures var q := Complete(p.(left := p.left - k)); q.Ok() && (q.at.Live() ==> q.Depth() > 0)
  {
    hide Push, Finish;
  }

  /** A token that is being collected has begun. */
  lemma EatDepth(po: Policy, p: Pos, k: nat)
    requires p.Ok() && 0 < k <= Fire(po, p).left
    ensures Eat(po, p, k).Ok() && (Eat(po, p, k).at.Live() ==> Eat(po, p, k).Depth() > 0)
  {
    FireOk(po, p);
    hide Fire;
    TakenDepth(Fire(po, p), k);
  }

  lemma ReachedFire(po: Policy, p: Pos, n: nat, q: Pos)
    requires p.Ok() && q.Ok() && Reached(po, p, n, q, true) && Fire(po, q).left > 0
    ensures Reached(po, p, n, Fire(po, q), true)
  {
    hide Advance;
  }

  lemma EatOn(po: Policy, from: Pos, n: nat, p: Pos, k: nat, isRequest: bool, more: bool)
    requires from.Ok() && p.Ok() && Reached(po, from, n, p, true) && MessagesOfKind(p.at.ms, isRequest)
    requires 0 < k <= Fire(po, p).left
    ensures var q := Eat(po, p, k);
      && q.Ok() && Reached(po, from, n + k, q, more) && MessagesOfKind(q.at.ms, isRequest)
      && (q.at.Live() ==> q.Depth() > 0)
  {
    EatDepth(po, p, k);
    hide Eat;
    ReachedEat(po, from, n, p, k);
    EatKind(po, p, k, isRequest);
  }

  lemma FireOn(po: Policy, from: Pos, n: nat, p: Pos, isRequest: bool)
    requires from.Ok() && p.Ok() && Reached(po, from, n, p, true) && MessagesOfKind(p.at.ms, isRequest)
    requires Fire(po, p).left > 0
    ensures Reached(po, from, n, Fire(po, p), true) && MessagesOfKind(Fire(po, p).at.ms, isRequest)
  {
    ReachedFire(po, from, n, p);
    FireKind(po, p, isRequest);
  }

  // ---- a whole stream -------------------------------------------------------------------------

  // The positions between the steps are parameters, each tied to its value by a requires clause.

  /** A header name and what separates it from the value. */
  lemma RunName(po: Policy, h: Header, hs: seq<Header>, b: seq<byte>, ms: seq<Message>, a: Acc, p: Pos, q: Pos, r: Pos)
    requires h.Ok() && HeadersOk(hs) && MessagesOk(ms)
    requires p == Pos(Field(h, hs, b, ms), |h.name|, a) && q == Pos(Field(h, hs, b, ms), 0, a)
    requires r == Pos(Gap(h, hs, b, ms), 0, a)
    ensures Advance(po, p, |h.name| + |h.gap|) == r
  {
    hide Advance;
    HopFirst(po, p, |h.name|, q);
    Hop(po, p, |h.name|, q, |h.gap|, r);
  }

  /** A header value and the line end. */
  lemma RunValue(po: Policy, h: Header, hs: seq<Header>, b: seq<byte>, ms: seq<Message>, a: Acc, p: Pos, q: Pos, r: Pos)
    requires h.Ok() && HeadersOk(hs) && MessagesOk(ms)
    requires p == Pos(Gap(h, hs, b, ms), 0, a) && q == Pos(Value(h, hs, b, ms), 0, a)
    requires r == Pos(Eol(h, hs, b, ms), 0, a)
    ensures Advance(po, p, |h.value| + 2) == r
  {
    hide Advance;
    if h.value != [] {
      HopFirst(po, p, |h.value|, q);
      Hop(po, p, |h.value|, q, 2, r);
    } else {
      HopFirst(po, p, 2, r);
    }
  }

  /** A header up to the end of its line. */
  lemma RunHeader(po: Policy, h: Header, hs: seq<Header>, b: seq<byte>, ms: seq<Message>, a: Acc, p: Pos, g: Pos,
                  e: Pos)
    requires h.Ok() && HeadersOk(hs) && MessagesOk(ms)
    requires p == Pos(Field(h, hs, b, ms), |h.name|, a) && g == Pos(Gap(h, hs, b, ms), 0, a)
    requires e == Pos(Eol(h, hs, b, ms), 0, a)
    ensures Advance(po, p, |h.Line()| + 2) == e
  {
    hide Advance;
    RunName(po, h, hs, b, ms, a, p, p.(left := 0), g);
    RunValue(po, h, hs, b, ms, a, g, Pos(Value(h, hs, b, ms), 0, a), e);
    AdvanceTwice(po, p, |h.name| + |h.gap|, |h.value| + 2);
  }

  lemma BodyEnds(po: Policy, b: seq<byte>, afterCr: bool, ms: seq<Message>, a: Acc, l: Pos, r: Pos)
    requires MessagesOk(ms) && l == Pos(LastLf(afterCr, b, ms), 0, a)
    requires r == Pos(Start(ms), 0, Finish(Push(a, (if afterCr then CRLF else LF) + b)))
    ensures b == [] ==> Complete(l) == r
    ensures b != [] ==> Complete(l) == l && l.Ok() && Fire(po, l).left == |b| && Complete(Fire(po, l).(left := 0)) == r
  {
    Assoc(a.out, if afterCr then CRLF else LF, b);
    if b == [] {
      assert CRLF + b == CRLF && LF + b == LF;
    }
  }

  lemma RunBody(po: Policy, e: Pos, b: seq<byte>, afterCr: bool, ms: seq<Message>, a: Acc, l: Pos, r: Pos)
    requires e.Ok() && MessagesOk(ms) && l == Pos(LastLf(afterCr, b, ms), 0, a)
    requires r == Pos(Start(ms), 0, Finish(Push(a, (if afterCr then CRLF else LF) + b)))
    requires Advance(po, e, 2) == Complete(l)
    ensures Advance(po, e, 2 + |b|) == r
  {
    hide Advance;
    BodyEnds(po, b, afterCr, ms, a, l, r);
    if b != [] {
      Hop(po, e, 2, l, |b|, r);
    }
  }

  /** The empty line behind the last header, and the body; `l` is where its line end has been read. */
  lemma RunLast(po: Policy, h: Header, b: seq<byte>, ms: seq<Message>, a: Acc, e: Pos, cr: Pos, l: Pos, r: Pos)
    requires h.Ok() && MessagesOk(ms)
    requires e == Pos(Eol(h, [], b, ms), 0, a) && cr == Pos(LastCr(h, b, ms), 0, a)
    requires l == Pos(LastLf(true, b, ms), 0, EditDone(po, EditHeader(po, a, h)))
    requires r == Pos(Start(ms), 0, Finish(Push(EditDone(po, EditHeader(po, a, h)), CRLF + b)))
    ensures Advance(po, e, 2 + |b|) == r
  {
    hide Advance;
    HopFirst(po, e, 1, cr);
    Hop(po, e, 1, cr, 1, Complete(l));
    RunBody(po, e, b, true, ms, l.acc, l, r);
  }

  lemma EditHeadersFirst(po: Policy, a: Acc, h: Header, hs: seq<Header>)
    ensures EditHeaders(po, a, [h] + hs) == EditHeaders(po, EditHeader(po, a, h), hs)
  {
    assert ([h] + hs)[1..] == hs;
  }

  /** Reporting what the next byte shows, and then taking it, is taking it. */
  lemma {:induction false} FireFirst(po: Policy, e: Pos, f: Pos, n: nat)
    requires e.Ok() && f.Ok() && f == Fire(po, e) && f.left > 0 && n > 0
    ensures Advance(po, e, n) == Advance(po, f, n)
  {
    if n > 1 {
      FireFirst(po, e, f, n - 1);
    } else {
      AdvanceNothing(po, e);
      AdvanceNothing(po, f);
    }
  }

  /** From the start of the first header to the end of the message. */
  lemma {:induction false} RunHeaders(po: Policy, h: Header, hs: seq<Header>, b: seq<byte>, ms: seq<Message>, a: Acc,
                                      p: Pos, r: Pos)
    requires h.Ok() && HeadersOk(hs) && MessagesOk(ms) && p == Pos(Field(h, hs, b, ms), |h.name|, a)
    requires r == Pos(Start(ms), 0, Finish(Push(EditDone(po, EditHeaders(po, a, [h] + hs)), CRLF + b)))
    ensures Advance(po, p, |h.Line()| + 2 + |RawHead(hs, b)|) == r
    decreases |hs|
  {
    hide Advance;
    var e, n := Pos(Eol(h, hs, b, ms), 0, a), |RawHead(hs, b)|;
    RunHeader(po, h, hs, b, ms, a, p, Pos(Gap(h, hs, b, ms), 0, a), e);
    AdvanceTwice(po, p, |h.Line()| + 2, n);
    EditHeadersFirst(po, a, h, hs);
    if hs == [] {
      var a2 := EditDone(po, EditHeader(po, a, h));
      RunLast(po, h, b, ms, a, e, Pos(LastCr(h, b, ms), 0, a), Pos(LastLf(true, b, ms), 0, a2), r);
    } else {
      var g, gs, a2 := hs[0], hs[1..], EditHeader(po, a, h);
      assert [g] + gs == hs;
      RunHeaders(po, g, gs, b, ms, a2, Fire(po, e), r);
      FireFirst(po, e, Fire(po, e), n);
    }
  }

  lemma RunSecond(po: Policy, m: Message, ms: seq<Message>, a: Acc, p: Pos, q: Pos, t: Pos)
    requires m.Ok() && MessagesOk(ms)
    requires p == Pos(First(m, ms), 0, a) && q == Pos(Second(m, ms), 0, EditFirst(po, a, m.start))
    requires t == Pos(Third(m, ms), 0, EditFirst(po, a, m.start))
    ensures p.at.Len() <= |m.start.Raw()| && Advance(po, p, |m.start.Raw()| - p.at.Len()) == t
  {
    hide Advance;
    var n, k := q.at.Len(), t.at.Len();
    if m.start.Reported() != [] {
      HopFirst(po, p, n, q);
      Hop(po, p, n, q, k, t);
    } else {
      HopFirst(po, p, k, t);
    }
  }

  /** The start line. */
  lemma RunStart(po: Policy, m: Message, ms: seq<Message>, a: Acc, p: Pos, q: Pos, t: Pos)
    requires m.Ok() && MessagesOk(ms) && p.Ok() && p == Pos(Start([m] + ms), 0, a)
    requires q == Pos(First(m, ms), 0, a) && t == Pos(Third(m, ms), 0, EditFirst(po, a, m.start))
    ensures Advance(po, p, |m.start.Raw()|) == t
  {
    hide Advance;
    assert ([m] + ms)[1..] == ms;
    var n := q.at.Len();
    HopFirst(po, p, n, q);
    RunSecond(po, m, ms, a, q, Pos(Second(m, ms), 0, t.acc), t);
    AdvanceTwice(po, p, n, |m.start.Raw()| - n);
  }

  /** The empty line behind a start line, and the body; `l` is where its line end has been read. */
  lemma RunBare(po: Policy, m: Message, ms: seq<Message>, a: Acc, t: Pos, cr: Pos, l: Pos, r: Pos)
    requires m.Ok() && MessagesOk(ms) && m.headers == []
    requires t == Pos(Third(m, ms), 0, a) && cr == Pos(BareCr(m, ms), 0, a)
    requires l == Pos(LastLf(false, m.body, ms), 0, Push(EditDone(po, EditRest(po, a, m.start)), CR))
    requires r == Pos(Start(ms), 0, Finish(Push(EditDone(po, EditRest(po, a, m.start)), CRLF + m.body)))
    ensures Advance(po, t, 2 + |m.body|) == r
  {
    hide Advance;
    HopFirst(po, t, 1, cr);
    Hop(po, t, 1, cr, 1, Complete(l));
    var out := EditDone(po, EditRest(po, a, m.start)).out;
    Assoc(out, CR, LF + m.body);
    Assoc(CR, LF, m.body);
    assert CR + LF == CRLF;
    RunBody(po, t, m.body, false, ms, l.acc, l, r);
  }

  /** From the end of the start line to the end of the message. */
  lemma RunTail(po: Policy, m: Message, ms: seq<Message>, a: Acc, t: Pos, r: Pos)
    requires m.Ok() && MessagesOk(ms) && t == Pos(Third(m, ms), 0, a)
    requires r == Pos(Start(ms), 0,
      Finish(Push(EditDone(po, EditHeaders(po, EditRest(po, a, m.start), m.headers)), CRLF + m.body)))
    ensures Advance(po, t, |RawHead(m.headers, m.body)|) == r
  {
    hide Advance, EditRest, EditHeader, EditDone, Push, Finish;
    var a2 := EditRest(po, a, m.start);
    if m.headers == [] {
      RunBare(po, m, ms, a, t, Pos(BareCr(m, ms), 0, a), Pos(LastLf(false, m.body, ms), 0, Push(EditDone(po, a2), CR)),
              r);
    } else {
      var g, gs := m.headers[0], m.headers[1..];
      assert [g] + gs == m.headers;
      RunHeaders(po, g, gs, m.body, ms, a2, Fire(po, t), r);
      FireFirst(po, t, Fire(po, t), |RawHead(m.headers, m.body)|);
    }
  }

  lemma RunMessage(po: Policy, m: Message, ms: seq<Message>, a: Acc, p: Pos, t: Pos, r: Pos)
    requires m.Ok() && MessagesOk(ms) && p.Ok() && p == Pos(Start([m] + ms), 0, a)
    requires t == Pos(Third(m, ms), 0, EditFirst(po, a, m.start)) && r == Pos(Start(ms), 0, EditMessage(po, a, m))
    ensures Advance(po, p, |m.Raw()|) == r
  {
    hide Advance;
    RunStart(po, m, ms, a, p, Pos(First(m, ms), 0, a), t);
    RunTail(po, m, ms, t.acc, t, r);
    AdvanceTwice(po, p, |m.start.Raw()|, |RawHead(m.headers, m.body)|);
  }

  lemma RunFirst(po: Policy, m: Message, ms: seq<Message>, a: Acc, p: Pos, r: Pos)
    requires m.Ok() && MessagesOk(ms) && p.Ok() && p.at.Start? && |p.at.ms| > 0 && p.at.ms[0] == m && p.at.ms[1..] == ms
    requires p.left == 0 && p.acc == a && r == Pos(Start(ms), 0, EditMessage(po, a, m))
    ensures Advance(po, p, |RawAll(p.at.ms)|) == Advance(po, r, |RawAll(ms)|)
  {
    hide Advance;
    assert p.at.ms == [m] + ms;
    RunMessage(po, m, ms, a, p, Pos(Third(m, ms), 0, EditFirst(po, a, m.start)), r);
    AdvanceTwice(po, p, |m.Raw()|, |RawAll(ms)|);
  }

  /** When the stream is used up, what is final is the stream with exactly the delegate's edits. */
  lemma {:induction false} RunAll(po: Policy, ms: seq<Message>, a: Acc, p: Pos)
    requires MessagesOk(ms) && p == Pos(Start(ms), 0, a)
    ensures Advance(po, p, |RawAll(ms)|) == Pos(Start([]), 0, EditAll(po, a, ms))
    decreases |ms|
  {
    if ms == [] {
      AdvanceNothing(po, p);
    } else {
      RunFirst(po, ms[0], ms[1..], a, p, Pos(Start(ms[1..]), 0, EditMessage(po, a, ms[0])));
      RunAll(po, ms[1..], EditMessage(po, a, ms[0]), Pos(Start(ms[1..]), 0, EditMessage(po, a, ms[0])));
    }
  }
}
