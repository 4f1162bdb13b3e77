/** The bytes still to come are the stream without those the parser has taken. */
module HttpComing {
  import opened Bytes
  import opened HttpRuns
  import opened HttpStream
  import opened RewriterFacts

  lemma DropTwo(a: seq<byte>, b: seq<byte>, c: seq<byte>)
    ensures (a + (b + c))[|a| + |b|..] == c
    ensures |b + c| > 0 ==> (a + (b + c))[|a|..] == b + c
  {
  }

  lemma DropMore(s: seq<byte>, n: nat, k: nat)
    requires n + k <= |s|
    ensures s[n + k..] == s[n..][k..]
  {
  }

  /** What follows a start line. */
  lemma BehindStartLine(m: Message, ms: seq<Message>, rest: seq<byte>, n: nat)
    requires rest == RawHead(m.headers, m.body) + RawAll(ms) && n == |m.start.Second()| + |m.start.Third()|
    ensures n <= |AfterFirst(m, ms)| && AfterFirst(m, ms)[n..] == rest
    ensures rest != [] ==> n + 1 <= |AfterFirst(m, ms)| && AfterFirst(m, ms)[n + 1..] == rest[1..]
  {
    DropTwo(m.start.Second(), m.start.Third(), rest);
    if rest != [] {
      DropMore(AfterFirst(m, ms), n, 1);
    }
  }

  /** What follows a header line. */
  lemma BehindLine(h: Header, hs: seq<Header>, b: seq<byte>, ms: seq<Message>, rest: seq<byte>, n: nat)
    requires rest == RawHead(hs, b) + RawAll(ms) && n == |h.Line()| + 2
    ensures n <= |FromHeader(h, hs, b, ms)| && FromHeader(h, hs, b, ms)[n..] == rest
    ensures rest != [] ==> n + 1 <= |FromHeader(h, hs, b, ms)| && FromHeader(h, hs, b, ms)[n + 1..] == rest[1..]
  {
    DropTwo(h.Line(), CRLF, rest);
    if rest != [] {
      DropMore(FromHeader(h, hs, b, ms), n, 1);
    }
  }

  /** The empty line without its carriage return. */
  lemma EmptyLine(b: seq<byte>, ms: seq<Message>)
    ensures var rest := RawHead([], b) + RawAll(ms);
      rest != [] && rest[1..] == LF + (b + RawAll(ms)) == (CRLF + (b + RawAll(ms)))[1..]
  {
    EmptyHeadRaw(b, ms);
    assert (CR + (LF + (b + RawAll(ms))))[1..] == LF + (b + RawAll(ms));
  }

  // Entering the next region, case by case: `p` is the end of a region, `q` the start of the next.

  lemma FromStart(m: Message, ms: seq<Message>, p: Pos, q: Pos)
    requires p.Ok() && q.Ok() && p.at == Start([m] + ms) && p.left == 0 && q.at == First(m, ms) && q.left == q.at.Len()
    ensures Coming(p) == Coming(q) == m.Raw() + RawAll(ms)
  {
    assert ([m] + ms)[1..] == ms;
    var raw := m.Raw() + RawAll(ms);
    assert p.at.Raw() == raw && q.at.Raw() == raw && raw[0..] == raw;
  }

  lemma FromFirst(m: Message, ms: seq<Message>, p: Pos, q: Pos)
    requires p.Ok() && q.Ok() && p.at == First(m, ms) && p.left == 0 && q.left == q.at.Len()
    requires q.at == if m.start.Reported() == [] then Third(m, ms) else Second(m, ms)
    ensures Coming(p) == Coming(q)
  {
    var s, back, k := m.start, AfterFirst(m, ms), m.start.Unreported();
    FirstRaw(m, ms);
    DropTwo(s.First(), SP, back);
    assert p.Depth() == |s.First()| + 1 + k && q.Depth() == k <= |back|;
    DropMore(p.at.Raw(), |s.First()| + 1, k);
  }

  lemma EndOfThird(m: Message, ms: seq<Message>, p: Pos)
    requires p.Ok() && p.at == Third(m, ms) && p.left == 0
    ensures Coming(p) == RawHead(m.headers, m.body) + RawAll(ms)
  {
    hide RawHead, RawAll;
    BehindStartLine(m, ms, RawHead(m.headers, m.body) + RawAll(ms), p.Depth());
  }

  lemma AtBareCr(m: Message, ms: seq<Message>, q: Pos)
    requires q.Ok() && q.at == BareCr(m, ms) && q.left == 1
    ensures Coming(q) == RawHead([], m.body) + RawAll(ms)
  {
    hide RawHead, RawAll;
    BehindStartLine(m, ms, RawHead([], m.body) + RawAll(ms), q.Depth());
  }

  lemma EndOfEol(h: Header, hs: seq<Header>, b: seq<byte>, ms: seq<Message>, p: Pos)
    requires p.Ok() && p.at == Eol(h, hs, b, ms) && p.left == 0
    ensures Coming(p) == RawHead(hs, b) + RawAll(ms)
  {
    hide RawHead, RawAll;
    BehindLine(h, hs, b, ms, RawHead(hs, b) + RawAll(ms), |h.Line()| + 2);
  }

  lemma AtLastCr(h: Header, b: seq<byte>, ms: seq<Message>, q: Pos)
    requires q.Ok() && q.at == LastCr(h, b, ms) && q.left == 1
    ensures Coming(q) == RawHead([], b) + RawAll(ms)
  {
    hide RawHead, RawAll;
    BehindLine(h, [], b, ms, RawHead([], b) + RawAll(ms), |h.Line()| + 2);
  }

  lemma AtField(h: Header, hs: seq<Header>, b: seq<byte>, ms: seq<Message>, q: Pos)
    requires q.Ok() && q.at == Field(h, hs, b, ms) && q.left == q.at.Len()
    ensures Coming(q) == FromHeader(h, hs, b, ms)
  {
    hide FromHeader;
    assert q.at.Raw()[0..] == q.at.Raw();
  }

  lemma FromThird(m: Message, ms: seq<Message>, p: Pos, q: Pos)
    requires p.Ok() && q.Ok() && p.at == Third(m, ms) && p.left == 0 && q.left == q.at.Len()
    requires if m.headers == [] then q.at == BareCr(m, ms) else q.at == Field(m.headers[0], m.headers[1..], m.body, ms)
    ensures Coming(p) == Coming(q)
  {
    hide Coming, FromHeader, RawHead, RawAll;
    EndOfThird(m, ms, p);
    if m.headers == [] {
      AtBareCr(m, ms, q);
    } else {
      HeadRaw(m.headers, m.body, ms);
      AtField(m.headers[0], m.headers[1..], m.body, ms, q);
    }
  }

  lemma FromBareCr(m: Message, ms: seq<Message>, p: Pos, q: Pos)
    requires p.Ok() && q.Ok() && p.at == BareCr(m, ms) && p.left == 0 && q.at == LastLf(false, m.body, ms)
    requires q.left == 1
    ensures Coming(p) == Coming(q)
  {
    BehindStartLine(m, ms, RawHead([], m.body) + RawAll(ms), |m.start.Second()| + |m.start.Third()|);
    EmptyLine(m.body, ms);
    assert q.at.Raw()[0..] == q.at.Raw();
  }

  lemma FromEol(h: Header, hs: seq<Header>, b: seq<byte>, ms: seq<Message>, p: Pos, q: Pos)
    requires p.Ok() && q.Ok() && p.at == Eol(h, hs, b, ms) && p.left == 0 && q.left == q.at.Len()
    requires if hs == [] then q.at == LastCr(h, b, ms) else q.at == Field(hs[0], hs[1..], b, ms)
    ensures Coming(p) == Coming(q)
  {
    hide Coming, FromHeader, RawHead, RawAll;
    EndOfEol(h, hs, b, ms, p);
    if hs == [] {
      AtLastCr(h, b, ms, q);
    } else {
      HeadRaw(hs, b, ms);
      AtField(hs[0], hs[1..], b, ms, q);
    }
  }

  lemma FromLastCr(h: Header, b: seq<byte>, ms: seq<Message>, p: Pos, q: Pos)
    requires p.Ok() && q.Ok() && p.at == LastCr(h, b, ms) && p.left == 0 && q.at == LastLf(true, b, ms) && q.left == 1
    ensures Coming(p) == Coming(q)
  {
    BehindLine(h, [], b, ms, RawHead([], b) + RawAll(ms), |h.Line()| + 2);
    EmptyLine(b, ms);
  }

  lemma FromLastLf(afterCr: bool, b: seq<byte>, ms: seq<Message>, p: Pos, q: Pos)
    requires p.Ok() && q.Ok() && p.at == LastLf(afterCr, b, ms) && p.left == 0 && q.at == Body(b, ms) && q.left == |b|
    ensures Coming(p) == Coming(q)
  {
    var end := if afterCr then CRLF else LF;
    DropTwo([], end, b + RawAll(ms));
    assert p.at.Raw() == [] + (end + (b + RawAll(ms)));
    assert q.at.Raw()[0..] == q.at.Raw();
  }

  lemma FromSecond(m: Message, ms: seq<Message>, p: Pos, q: Pos)
    requires p.Ok() && q.Ok() && p.at == Second(m, ms) && p.left == 0 && q.at == Third(m, ms) && q.left == q.at.Len()
    ensures Coming(p) == Coming(q)
  {
    assert p.Depth() == q.Depth() && p.at.Raw() == q.at.Raw();
  }

  lemma FromHeaderPart(h: Header, hs: seq<Header>, b: seq<byte>, ms: seq<Message>, p: Pos, q: Pos)
    requires p.Ok() && q.Ok() && p.left == 0 && q.left == q.at.Len()
    requires
      || (p.at == Field(h, hs, b, ms) && q.at == Gap(h, hs, b, ms))
      || (p.at == Gap(h, hs, b, ms) && q.at == Value(h, hs, b, ms))
      || (p.at == Gap(h, hs, b, ms) && q.at == Eol(h, hs, b, ms) && h.value == [])
      || (p.at == Value(h, hs, b, ms) && q.at == Eol(h, hs, b, ms))
    ensures Coming(p) == Coming(q)
  {
    assert p.Depth() == q.Depth() && p.at.Raw() == q.at.Raw();
  }

  /** Entering a region of a start line. */
  lemma EnterStartLine(po: Policy, p: Pos, q: Pos)
    requires p.Ok() && p.left == 0 && q == Fire(po, p) && (p.at.Start? || p.at.First? || p.at.Second? || p.at.Third?)
    ensures q.Ok() && Coming(q) == Coming(p)
  {
    hide Coming, EditFirst, EditRest;
    match p.at
    case Start(ms) => if ms != [] { assert ms == [ms[0]] + ms[1..]; FromStart(ms[0], ms[1..], p, q); }
    case First(m, ms) => FromFirst(m, ms, p, q);
    case Second(m, ms) => FromSecond(m, ms, p, q);
    case Third(m, ms) => FromThird(m, ms, p, q);
  }

  /** Entering a region of a header line. */
  lemma EnterLine(po: Policy, p: Pos, q: Pos)
    requires p.Ok() && p.left == 0 && q == Fire(po, p) && (p.at.Field? || p.at.Gap? || p.at.Value? || p.at.Eol?)
    ensures q.Ok() && Coming(q) == Coming(p)
  {
    hide Coming, EditHeader;
    match p.at
    case Field(h, hs, b, ms) => FromHeaderPart(h, hs, b, ms, p, q);
    case Gap(h, hs, b, ms) => FromHeaderPart(h, hs, b, ms, p, q);
    case Value(h, hs, b, ms) => FromHeaderPart(h, hs, b, ms, p, q);
    case Eol(h, hs, b, ms) => FromEol(h, hs, b, ms, p, q);
  }

  /** Entering the empty line or a body. */
  lemma EnterEnd(po: Policy, p: Pos, q: Pos)
    requires p.Ok() && p.left == 0 && q == Fire(po, p) && (p.at.BareCr? || p.at.LastCr? || p.at.LastLf? || p.at.Body?)
    ensures q.Ok() && Coming(q) == Coming(p)
  {
    hide Coming, EditRest, EditHeader, EditDone, Push;
    match p.at
    case BareCr(m, ms) => FromBareCr(m, ms, p, q);
    case LastCr(h, b, ms) => FromLastCr(h, b, ms, p, q);
    case LastLf(afterCr, b, ms) => FromLastLf(afterCr, b, ms, p, q);
    case Body(_, _) =>
  }

  lemma FireComing(po: Policy, p: Pos)
    requires p.Ok()
    ensures Fire(po, p).Ok() && Coming(Fire(po, p)) == Coming(p)
  {
    hide Coming;
    if p.left > 0 {
    } else if p.at.Start? || p.at.First? || p.at.Second? || p.at.Third? {
      EnterStartLine(po, p, Fire(po, p));
    } else if p.at.Field? || p.at.Gap? || p.at.Value? || p.at.Eol? {
      EnterLine(po, p, Fire(po, p));
    } else {
      EnterEnd(po, p, Fire(po, p));
    }
  }

  lemma DepthInside(p: Pos)
    requires p.Ok()
    ensures p.Depth() + p.left <= |p.at.Raw()| && |Coming(p)| >= p.left
  {
    match p.at
    case First(m, ms) => FirstRaw(m, ms);
    case BareCr(m, ms) => EmptyHeadRaw(m.body, ms);
    case LastCr(h, b, ms) => EmptyHeadRaw(b, ms);
    case _ =>
  }

  lemma NothingLeft(po: Policy, p: Pos)
    requires p.Ok() && Fire(po, p).left == 0
    ensures Coming(p) == []
  {
    hide RawHead, EditFirst, EditRest, EditHeader, EditDone, Push, FromHeader;
    assert p.at == Start([]);
  }

  /** There is a next region as long as there are bytes to come, and only then. */
  lemma ComingLeft(po: Policy, p: Pos)
    requires p.Ok()
    ensures Fire(po, p).left > 0 <==> Coming(p) != []
  {
    hide Coming;
    FireComing(po, p);
    DepthInside(Fire(po, p));
    if Fire(po, p).left == 0 {
      NothingLeft(po, p);
    }
  }

  lemma MiddleByte(q: Pos, r: Pos)
    requires q.Ok() && q.left > 0 && r == q.(left := q.left - 1) && r.Ok()
    ensures Coming(q) != [] && Coming(r) == Coming(q)[1..]
  {
    DepthInside(q);
    assert r.Depth() == q.Depth() + 1;
    DropMore(q.at.Raw(), q.Depth(), 1);
  }

  lemma LastBodyByte(b: seq<byte>, ms: seq<Message>, q: Pos, r: Pos)
    requires q.Ok() && q.at == Body(b, ms) && q.left == 1 && r.at == Start(ms) && r.left == 0
    ensures r.Ok() && Coming(q) != [] && Coming(r) == Coming(q)[1..]
  {
    var raw := b + RawAll(ms);
    DropTwo([], b, RawAll(ms));
    assert [] + (b + RawAll(ms)) == raw;
    DropMore(raw, |b| - 1, 1);
    assert RawAll(ms)[0..] == RawAll(ms);
  }

  lemma LastLineByte(afterCr: bool, ms: seq<Message>, q: Pos, r: Pos)
    requires q.Ok() && q.at == LastLf(afterCr, [], ms) && q.left == 1 && r.at == Start(ms) && r.left == 0
    ensures r.Ok() && Coming(q) != [] && Coming(r) == Coming(q)[1..]
  {
    var end := if afterCr then CRLF else LF;
    var raw := end + ([] + RawAll(ms));
    assert [] + RawAll(ms) == RawAll(ms);
    DropTwo([], end, RawAll(ms));
    assert [] + (end + RawAll(ms)) == raw;
    DropMore(raw, |end| - 1, 1);
    assert RawAll(ms)[0..] == RawAll(ms);
  }

  /** One byte of a region. */
  lemma ByteComing(q: Pos, r: Pos)
    requires q.Ok() && q.left > 0 && r == Complete(q.(left := q.left - 1)) && r.Ok()
    ensures Coming(q) != [] && Coming(r) == Coming(q)[1..]
  {
    hide Coming;
    DepthInside(q);
    if r == q.(left := q.left - 1) {
      MiddleByte(q, r);
    } else if q.at.Body? {
      LastBodyByte(q.at.body, q.at.ms, q, r);
    } else {
      LastLineByte(q.at.afterCr, q.at.ms, q, r);
    }
  }

  /** The parser takes the bytes of the stream one after another. */
  lemma NextComing(po: Policy, p: Pos)
    requires p.Ok() && Coming(p) != []
    ensures Coming(Next(po, p)) == Coming(p)[1..]
  {
    hide Coming, Fire, Complete;
    ComingLeft(po, p);
    FireComing(po, p);
    assert Next(po, p) == Eat(po, p, 1);
    ByteComing(Fire(po, p), Next(po, p));
  }

  lemma DropOne(s: seq<byte>, n: nat)
    requires n < |s|
    ensures s[n..] != [] && s[n..][1..] == s[n + 1..]
  {
  }

  lemma {:induction false} AdvanceComing(po: Policy, p: Pos, n: nat)
    requires p.Ok() && n <= |Coming(p)|
    ensures Coming(Advance(po, p, n)) == Coming(p)[n..]
  {
    hide Coming, Next, Advance;
    if n == 0 {
      AdvanceNothing(po, p);
      assert Coming(p)[0..] == Coming(p);
    } else {
      AdvanceComing(po, p, n - 1);
      AdvanceOne(po, p, n - 1);
      NextComing(po, Advance(po, p, n - 1));
      DropOne(Coming(p), n - 1);
    }
  }
}
