/** What a call does to its buffer, the bytes and how they lie in their stores, as a function of where the parser
    stands. */
module RewriterRopes {
  import opened Bytes
  import opened HeaderLines
  import opened HttpRuns
  import opened HttpStream
  import opened Layouts
  import opened RewriterFacts
  import opened RewriterRoom

  // ---- single edits ---------------------------------------------------------------------------

  /** The token from `from` to `to` has been reported. */
  function TokenRope(po: Policy, hist: seq<Event>, kind: Kind, r: Rope, from: int, to: int): Rope
  {
    if !(0 <= from <= to <= |r.text|) then r else
      match po.token(hist + [Token(kind, r.text[from..to])])
      case ReplaceToken(t) => Rope(Replace(r.text, from, to, t), Resized(r.layout, r.text, from, to, |t|))
      case _ => r
  }

  /** The tokens that are complete when the header lines begin have been reported; the first of them is at `t`. */
  function RestRope(po: Policy, hist: seq<Event>, r: Rope, t: int, s: StartLine): Rope
  {
    match s
    case RequestLine(_, url, version) =>
      var q := TokenRope(po, hist, Url, r, t, t + |url|);
      var u := t + |url| + 1 + |q.text| - |r.text|;
      TokenRope(po, hist + [Token(Url, url)], Version, q, u, u + |version|)
    case StatusLine(_, code, reason) => TokenRope(po, hist, Status, r, t, t + |code + reason|)
  }

  /** The header line at `t` has been reported. */
  function HeaderRope(po: Policy, hist: seq<Event>, r: Rope, t: int, h: Header): Rope
  {
    var action, end := po.header(hist + [Pair(h.Line(), h.name, h.value)]), t + |h.Line()|;
    if !(0 <= t && end + 2 <= |r.text|) then r else
      Rope(Replace(r.text, t, end + 2, NewLine(action, h.Line())), LineResized(r.layout, r.text, t, end, action))
  }

  /** The end of the header lines has been reported, with the empty line at `t`. */
  function DoneRope(po: Policy, hist: seq<Event>, r: Rope, t: int): Rope
  {
    if !(0 <= t <= |r.text|) then r else
      match po.done(hist + [HeadersDone])
      case AddHeaders(lines) => WithLines(r, t, lines)
      case RejectHeaders => r
  }

  // ---- a whole call ---------------------------------------------------------------------------

  /** What entering the next region does, with the last `left` bytes yet to be parsed. */
  function FireRope(po: Policy, p: Pos, r: Rope, left: nat): Rope
    requires p.Ok()
  {
    if p.left > 0 then r else
      var t := |r.text| - left - p.Depth();
      match p.at
      case First(m, _) => TokenRope(po, p.acc.hist, FirstKind(m.start), r, t, t + |m.start.First()|)
      case Third(m, _) => if m.headers == [] then r else RestRope(po, p.acc.hist, r, t, m.start)
      case BareCr(m, _) =>
        var q := RestRope(po, p.acc.hist, r, t, m.start);
        DoneRope(po, EditRest(po, p.acc, m.start).hist, q, |q.text| - left - 1)
      case Eol(h, hs, _, _) => if hs == [] then r else HeaderRope(po, p.acc.hist, r, t, h)
      case LastCr(h, _, _) =>
        var q := HeaderRope(po, p.acc.hist, r, t, h);
        DoneRope(po, EditHeader(po, p.acc, h).hist, q, |q.text| - left - 1)
      case _ => r
  }

  /** What is left when the parser, at `p`, has taken the last `left` bytes. */
  function RopeRun(po: Policy, p: Pos, r: Rope, left: nat): Rope
    requires p.Ok()
    decreases left
  {
    if left == 0 then r else RopeRun(po, Next(po, p), FireRope(po, p, r, left), left - 1)
  }

  /** What was waiting has been put in front. */
  function Refilled(waiting: seq<byte>, r: Rope): Rope
  {
    Rope(waiting + r.text, Opened(r.layout, r.text, 0, |waiting|))
  }

  /** How many bytes wait for the next call. */
  function WaitingLen(p: Pos): nat
    requires p.Ok()
  {
    if p.at.Live() then p.Depth() else 0
  }

  /** Where calls leave the parser, what waits, and what has been handed over. */
  datatype Carry = Carry(parser: Pos, waiting: seq<byte>, out: seq<byte>)

  function CallOn(po: Policy, c: Carry, r: Rope): (d: Carry)
    requires c.parser.Ok()
    ensures d.parser.Ok()
  {
    var text := RopeRun(po, c.parser, Refilled(c.waiting, r), |r.text|).text;
    var q := Advance(po, c.parser, |r.text|);
    var n := |text| - Min(WaitingLen(q), |text|);
    Carry(q, text[n..], c.out + text[..n])
  }

  /** One call for each rope, from the start of a stream. */
  function Calls(po: Policy, p: Pos, ropes: seq<Rope>): (c: Carry)
    requires p.Ok()
    ensures c.parser.Ok()
  {
    if ropes == [] then Carry(p, [], []) else CallOn(po, Calls(po, p, ropes[..|ropes| - 1]), ropes[|ropes| - 1])
  }

  lemma CallsNext(po: Policy, p: Pos, ropes: seq<Rope>, i: nat)
    requires p.Ok() && i < |ropes|
    ensures Calls(po, p, ropes[..i + 1]) == CallOn(po, Calls(po, p, ropes[..i]), ropes[i])
  {
    assert ropes[..i + 1][..i] == ropes[..i];
  }

  /** The text of a call is what is handed over and what waits then. */
  lemma CallText(po: Policy, c: Carry, r: Rope, text: seq<byte>, waiting: seq<byte>)
    requires c.parser.Ok() && text + waiting == RopeRun(po, c.parser, Refilled(c.waiting, r), |r.text|).text
    requires |waiting| == WaitingLen(Advance(po, c.parser, |r.text|))
    ensures CallOn(po, c, r) == Carry(Advance(po, c.parser, |r.text|), waiting, c.out + text)
  {
    hide RopeRun, Advance;
    var all := text + waiting;
    assert all[|text|..] == waiting && all[..|text|] == text;
  }

  /** Inside a region nothing is edited. */
  lemma FireInside(po: Policy, p: Pos, r: Rope, left: nat)
    requires p.Ok() && p.left > 0
    ensures FireRope(po, p, r, left) == r && Fire(po, p) == p
  {
  }

  lemma RunNothing(po: Policy, p: Pos, r: Rope)
    requires p.Ok()
    ensures RopeRun(po, p, r, 0) == r
  {
  }

  lemma RunOne(po: Policy, p: Pos, r: Rope, left: nat)
    requires p.Ok() && left > 0
    ensures RopeRun(po, p, r, left) == RopeRun(po, Next(po, p), FireRope(po, p, r, left), left - 1)
  {
  }

  lemma NextEat(po: Policy, p: Pos)
    requires p.Ok() && Fire(po, p).left > 0
    ensures Next(po, p) == Eat(po, p, 1)
  {
  }

  /** Bytes of one region may be taken at once. */
  lemma {:induction false} RunEat(po: Policy, p: Pos, r: Rope, left: nat, k: nat)
    requires p.Ok() && 0 < k <= Fire(po, p).left && k <= left
    ensures Eat(po, p, k).Ok()
    ensures RopeRun(po, p, r, left) == RopeRun(po, Eat(po, p, k), FireRope(po, p, r, left), left - k)
  {
    hide RopeRun, FireRope, Eat, Fire, Next;
    EatDepth(po, p, k);
    if k == 1 {
      RunOne(po, p, r, left);
      NextEat(po, p);
    } else {
      RunEat(po, p, r, left, k - 1);
      EatTwice(po, p, k - 1, 1);
      var q, s := Eat(po, p, k - 1), FireRope(po, p, r, left);
      RunOne(po, q, s, left - (k - 1));
      FireInside(po, q, s, left - (k - 1));
      NextEat(po, q);
    }
  }

  lemma NextFired(po: Policy, p: Pos)
    requires p.Ok() && Fire(po, p).Ok() && Fire(po, p).left > 0
    ensures Next(po, Fire(po, p)) == Next(po, p)
  {
    hide EditFirst, EditRest, EditHeader, EditDone, Push, Finish;
  }

  /** A region may be entered before its first byte is taken. */
  lemma RunFire(po: Policy, p: Pos, r: Rope, left: nat)
    requires p.Ok() && Fire(po, p).left > 0 && left > 0
    ensures Fire(po, p).Ok() && RopeRun(po, p, r, left) == RopeRun(po, Fire(po, p), FireRope(po, p, r, left), left)
  {
    hide RopeRun, FireRope, Fire, Next;
    FireOk(po, p);
    var q, s := Fire(po, p), FireRope(po, p, r, left);
    FireInside(po, q, s, left);
    RunOne(po, p, r, left);
    RunOne(po, q, s, left);
    NextFired(po, p);
  }

  // ---- what the edits keep --------------------------------------------------------------------

  /** Reporting a token keeps what is firm behind it. */
  lemma TokenKeeps(po: Policy, hist: seq<Event>, kind: Kind, r: Rope, from: int, to: int, b: int)
    requires |r.text| == Len(r.layout) && 0 <= from <= to <= |r.text| && b <= |r.text| - to
    ensures KeepsFirm(po, r.layout, TokenRope(po, hist, kind, r, from, to).layout, b)
  {
    hide Resized, NeverShortens, KeepsFirm;
    var now := hist + [Token(kind, r.text[from..to])];
    NotShorter(po, now);
    match po.token(now)
    case ReplaceToken(t) =>
      ResizedKeeps(po, r.layout, r.text, from, to, |t|);
      KeepsLess(po, r.layout, Resized(r.layout, r.text, from, to, |t|), |r.text| - to, b);
    case _ => KeepsSame(po, r.layout, b);
  }

  lemma TokenLen(po: Policy, hist: seq<Event>, kind: Kind, r: Rope, from: int, to: int)
    requires |r.text| == Len(r.layout) && 0 <= from <= to <= |r.text|
    ensures var q := TokenRope(po, hist, kind, r, from, to);
      |q.text| == Len(q.layout)
        && |q.text| - |r.text| == |NewText(po.token(hist + [Token(kind, r.text[from..to])]),
                                           r.text[from..to])| - (to - from)
  {
    var now := hist + [Token(kind, r.text[from..to])];
    if po.token(now).ReplaceToken? {
      var n := |po.token(now).text|;
      if n > to - from {
        OpenedLen(r.layout, r.text, from, n - (to - from));
      } else {
        ShrunkLen(r.layout, r.text, from, to - from - n);
      }
    }
  }

  /** So does reporting the rest of the start line. */
  lemma RestKeeps(po: Policy, hist: seq<Event>, r: Rope, t: int, s: StartLine, b: int)
    requires |r.text| == Len(r.layout) && 0 <= t && t + |s.Second()| <= |r.text|
    requires b <= |r.text| - t - |s.Second()| - (if s.RequestLine? then 1 + |s.version| else 0)
    requires s.RequestLine? ==> t + |s.url| + 1 + |s.version| <= |r.text|
    ensures KeepsFirm(po, r.layout, RestRope(po, hist, r, t, s).layout, b)
  {
    hide TokenRope, KeepsFirm;
    match s
    case RequestLine(_, url, version) =>
      TokenKeeps(po, hist, Url, r, t, t + |url|, b);
      TokenLen(po, hist, Url, r, t, t + |url|);
      var q := TokenRope(po, hist, Url, r, t, t + |url|);
      var u := t + |url| + 1 + |q.text| - |r.text|;
      TokenKeeps(po, hist + [Token(Url, url)], Version, q, u, u + |version|, b);
      KeepsTwice(po, r.layout, q.layout, RestRope(po, hist, r, t, s).layout, b, b);
    case StatusLine(_, code, reason) => TokenKeeps(po, hist, Status, r, t, t + |code + reason|, b);
  }

  lemma RestFirm(po: Policy, hist: seq<Event>, r: Rope, t: int, s: StartLine, m: int)
    requires |r.text| == Len(r.layout) && 0 <= t && t + |s.Second()| <= |r.text|
    requires m + 2 <= |r.text| - t - |s.Second()| - (if s.RequestLine? then 1 + |s.version| else 0)
    requires s.RequestLine? ==> t + |s.url| + 1 + |s.version| <= |r.text|
    ensures Firm(po, r.layout, m) ==> Firm(po, RestRope(po, hist, r, t, s).layout, m)
  {
    hide RestRope, KeepsFirm, Firm;
    RestKeeps(po, hist, r, t, s, m + 2);
    if Firm(po, r.layout, m) {
      KeepsAt(po, r.layout, RestRope(po, hist, r, t, s).layout, m + 2, m, m);
    }
  }

  // ---- the kinds of step ----------------------------------------------------------------------

  /** The first token is complete: it lies in front of where the parser stands, and is edited there. */
  lemma FirstRope(po: Policy, v: View, p: Pos, here: int, emitted: seq<byte>, dirty: bool, r: Rope, left: nat, k: nat)
    requires Tied(v, p, here, emitted, dirty) && p.at.First? && p.left == 0 && r.text == v.text
    requires left == |v.text| - here && 0 < k <= Fire(po, p).left && k <= left
    ensures var s := p.at.m.start;
      Eat(po, p, k).Ok() && RopeRun(po, p, r, left) ==
        RopeRun(po, Eat(po, p, k), TokenRope(po, v.history, FirstKind(s), r, v.token, v.token + |s.First()|), left - k)
  {
    hide RopeRun, TokenRope, Eat, Fire;
    RunEat(po, p, r, left, k);
  }

  lemma SecondRope(po: Policy, p: Pos, r: Rope, left: nat, k: nat)
    requires p.Ok() && p.left > 0 && 0 < k <= Fire(po, p).left && k <= left
    ensures Eat(po, p, k).Ok() && RopeRun(po, p, r, left) == RopeRun(po, Eat(po, p, k), r, left - k)
  {
    hide RopeRun, FireRope, Eat, Fire;
    RunEat(po, p, r, left, k);
    FireInside(po, p, r, left);
  }

  /** Two reports on a request line, one behind the other. */
  lemma RequestRope(po: Policy, v: View, u: View, s: StartLine, r: Rope)
    requires s.RequestLine? && r.text == v.text && |r.text| == Len(r.layout)
    requires TokenEdited(po, v, u, Url, s.url, SP) && v.text[v.token..v.token + |s.url|] == s.url
    ensures TokenRope(po, u.history, Version, TokenRope(po, v.history, Url, r, v.token, v.token + |s.url|),
                      u.token, u.token + |s.version|) == RestRope(po, v.history, r, v.token, s)
  {
    hide Resized;
    TokenLen(po, v.history, Url, r, v.token, v.token + |s.url|);
  }

  lemma LineRope(po: Policy, v: View, u: View, p: Pos, here: int, emitted: seq<byte>, dirty: bool, r: Rope)
    requires Tied(v, p, here, emitted, dirty) && p.left == 0 && (p.at.Third? || p.at.BareCr?) && r.text == v.text
    requires p.at.m.start.RequestLine? && TokenEdited(po, v, u, Url, p.at.m.start.url, SP) && |r.text| == Len(r.layout)
    ensures var s := p.at.m.start;
      TokenRope(po, u.history, Version, TokenRope(po, v.history, Url, r, v.token, v.token + |s.url|),
                u.token, u.token + |s.version|) == RestRope(po, v.history, r, v.token, s)
  {
    hide Tied, TokenRope, RestRope, TextEdited;
    StartLineText(v, p, here, emitted, dirty);
    RequestRope(po, v, u, p.at.m.start, r);
  }

  lemma StatusRope(po: Policy, hist: seq<Event>, r: Rope, t: int, s: StartLine)
    requires s.StatusLine?
    ensures RestRope(po, hist, r, t, s) == TokenRope(po, hist, Status, r, t, t + |s.Second()|)
  {
  }

  /** The start line is complete. */
  lemma ThirdRope(po: Policy, v: View, p: Pos, here: int, emitted: seq<byte>, dirty: bool, r: Rope, left: nat, k: nat)
    requires Tied(v, p, here, emitted, dirty) && p.at.Third? && p.left == 0 && p.at.m.headers != [] && r.text == v.text
    requires left == |v.text| - here && 0 < k <= Fire(po, p).left && k <= left
    ensures Eat(po, p, k).Ok() && RopeRun(po, p, r, left) ==
      RopeRun(po, Eat(po, p, k), RestRope(po, v.history, r, v.token, p.at.m.start), left - k)
  {
    hide RopeRun, RestRope, Eat, Fire;
    RunEat(po, p, r, left, k);
  }

  /** The start line is complete, and the first `k` bytes of a header name have been reported. */
  lemma ThirdStep(po: Policy, v: View, w: View, p: Pos, here: int, emitted: seq<byte>, dirty: bool, r: Rope, k: nat)
    requires Tied(v, p, here, emitted, dirty) && p.at.Third? && p.left == 0 && p.at.m.headers != [] && r.text == v.text
    requires Settled(w, EditRest(po, p.acc, p.at.m.start), RawHead(p.at.m.headers, p.at.m.body) + RawAll(p.at.ms),
                     emitted, dirty)
    requires 0 < k <= Fire(po, p).left && k <= |v.text| - here && w.token + k <= |w.text| && StartsField(w, w, k)
    ensures Tied(w, Eat(po, p, k), w.token + k, emitted, dirty)
    ensures Eat(po, p, k).Ok() && RopeRun(po, p, r, |v.text| - here) ==
      RopeRun(po, Eat(po, p, k), RestRope(po, v.history, r, v.token, p.at.m.start), |v.text| - here - k)
    ensures Hold(Eat(po, p, k), w.token + k, w.token) == w.token
  {
    hide RopeRun, RestRope, Eat, Fire, Hold, Settled, Tied, EditRest, RawHead, RawAll, StartsField;
    TiedOk(v, p, here, emitted, dirty);
    ThirdFacts(po, v, p, here, emitted, dirty);
    FirstFieldStep(po, v, w, w, p, here, emitted, dirty, k);
    HoldReported(po, p, k, w.token + k, w.token);
    ThirdRope(po, v, p, here, emitted, dirty, r, |v.text| - here, k);
  }

  /** A header line is complete, and another one begins. */
  lemma EolRope(po: Policy, v: View, p: Pos, here: int, emitted: seq<byte>, dirty: bool, r: Rope, left: nat, k: nat)
    requires Tied(v, p, here, emitted, dirty) && p.at.Eol? && p.left == 0 && p.at.hs != [] && r.text == v.text
    requires left == |v.text| - here && 0 < k <= Fire(po, p).left && k <= left
    ensures Eat(po, p, k).Ok() && RopeRun(po, p, r, left) ==
        RopeRun(po, Eat(po, p, k), HeaderRope(po, v.history, r, v.token, p.at.h), left - k)
  {
    hide RopeRun, HeaderRope, Eat, Fire;
    RunEat(po, p, r, left, k);
  }

  lemma LastFires(po: Policy, p: Pos)
    requires p.Ok() && p.left == 0 && (p.at.LastCr? || p.at.BareCr?)
    ensures Fire(po, p).left > 0
  {
  }

  /** The header lines are complete; the empty line is not. `q` is what is there between the two reports. */
  lemma LastRope(po: Policy, v: View, w: View, p: Pos, here: int, emitted: seq<byte>, dirty: bool, r: Rope, q: Rope)
    requires Tied(v, p, here, emitted, dirty) && p.at.LastCr? && p.left == 0 && r.text == v.text && here < |v.text|
    requires HeaderEdited(po, v, w, p.at.h) && q == HeaderRope(po, v.history, r, v.token, p.at.h) && q.text == w.text
    ensures Fire(po, p).Ok() && RopeRun(po, p, r, |v.text| - here) ==
      RopeRun(po, Fire(po, p), DoneRope(po, w.history, q, w.token), |v.text| - here)
  {
    hide RopeRun, HeaderRope, DoneRope, Fire, EditDone;
    LastFires(po, p);
    RunFire(po, p, r, |v.text| - here);
    assert here == v.token + |p.at.h.Line()| + 3;
  }

  /** The same for a message without header lines. */
  lemma BareRope(po: Policy, v: View, w: View, p: Pos, here: int, emitted: seq<byte>, dirty: bool, r: Rope, q: Rope)
    requires Tied(v, p, here, emitted, dirty) && p.at.BareCr? && p.left == 0 && r.text == v.text && here < |v.text|
    requires q == RestRope(po, v.history, r, v.token, p.at.m.start)
    requires w.history == EditRest(po, p.acc, p.at.m.start).hist
    requires w.token == |q.text| - (|v.text| - here) - 1
    ensures Fire(po, p).Ok() && RopeRun(po, p, r, |v.text| - here) ==
      RopeRun(po, Fire(po, p), DoneRope(po, w.history, q, w.token), |v.text| - here)
  {
    hide RopeRun, RestRope, DoneRope, EditRest;
    LastFires(po, p);
    RunFire(po, p, r, |v.text| - here);
  }

  /** From `p` the parser has come to `q` over `k` bytes without an edit, or has not moved. */
  ghost predicate Passes(po: Policy, p: Pos, q: Pos, k: nat)
  {
    && p.Ok()
    && if k == 0 then q == p else k <= Fire(po, p).left && q == Eat(po, p, k) && (TextStep(p) || FreeStep(p))
  }

  lemma FireQuiet(po: Policy, p: Pos, r: Rope, left: nat)
    requires p.Ok() && (TextStep(p) || FreeStep(p))
    ensures FireRope(po, p, r, left) == r
  {
    hide TokenRope, RestRope, HeaderRope, DoneRope;
  }

  lemma PassOk(po: Policy, p: Pos, q: Pos, k: nat)
    requires Passes(po, p, q, k)
    ensures p.Ok()
  {
  }

  lemma PassRun(po: Policy, p: Pos, q: Pos, k: nat, r: Rope, left: nat)
    requires Passes(po, p, q, k) && k <= left
    ensures q.Ok() && RopeRun(po, p, r, left) == RopeRun(po, q, r, left - k)
  {
    hide RopeRun, FireRope, Eat, Fire, TextStep, FreeStep;
    if k > 0 {
      RunEat(po, p, r, left, k);
      FireQuiet(po, p, r, left);
    }
  }
}
