/** Which delegates and which buffers leave room for added lines: why no line end of theirs goes astray. */
module RewriterRoom {
  import opened Bytes
  import opened HttpStream
  import opened Layouts
  import opened RewriterFacts

  /** Lines added in front of the last `m` bytes will end well, if there are any. */
  ghost predicate Firm(po: Policy, l: Layout, m: int)
  {
    AddsNothing(po) || (NeverShortens(po) && Level(l)) || m < LastSize(l)
  }

  /** An edit of bytes behind which at least `b` bytes lie keeps all that is firm there. */
  ghost predicate KeepsFirm(po: Policy, l: Layout, k: Layout, b: int)
  {
    forall m: int :: m < b && Firm(po, l, m) ==> Firm(po, k, m)
  }

  lemma FirmLess(po: Policy, l: Layout, m: int, k: int)
    requires Firm(po, l, m) && k <= m
    ensures Firm(po, l, k)
  {
  }

  lemma KeepsSame(po: Policy, l: Layout, b: int)
    ensures KeepsFirm(po, l, l, b)
  {
  }

  lemma KeepsLess(po: Policy, l: Layout, k: Layout, b: int, c: int)
    requires KeepsFirm(po, l, k, b) && c <= b
    ensures KeepsFirm(po, l, k, c)
  {
  }

  lemma KeepsTwice(po: Policy, l: Layout, k: Layout, j: Layout, b: int, c: int)
    requires KeepsFirm(po, l, k, b) && KeepsFirm(po, k, j, c) && c <= b
    ensures KeepsFirm(po, l, j, c)
  {
  }

  lemma KeepsAt(po: Policy, l: Layout, k: Layout, b: int, from: int, m: int)
    requires KeepsFirm(po, l, k, b) && m < b && m <= from && Firm(po, l, from)
    ensures Firm(po, k, m)
  {
    assert Firm(po, l, m);
  }

  /** The layout when the bytes from `from` to `to` have been replaced by `n` bytes. */
  function Resized(l: Layout, text: seq<byte>, from: nat, to: nat, n: nat): Layout
    requires from <= to
  {
    var diff := n - (to - from);
    if diff > 0 then Opened(l, text, from, diff) else Shrunk(l, text, from, -diff)
  }

  lemma {:induction false} LevelShrunkNothing(l: Layout, text: seq<byte>, skip: nat)
    requires Level(l) && |text| == Len(l)
    ensures Level(Shrunk(l, text, skip, 0))
  {
    if l.Bare? || skip < l.size {
    } else {
      LevelShrunkNothing(l.rest, text[l.size..], skip - l.size);
    }
  }

  lemma ResizedAt(po: Policy, l: Layout, text: seq<byte>, from: nat, to: nat, n: nat, m: int)
    requires |text| == Len(l) && from <= to <= |text| && (NeverShortens(po) ==> n >= to - from)
    requires m < |text| - to && Firm(po, l, m)
    ensures Firm(po, Resized(l, text, from, to, n), m)
  {
    var diff := n - (to - from);
    if AddsNothing(po) {
    } else if NeverShortens(po) && Level(l) {
      if diff > 0 {
        LevelOpened(l, text, from, diff);
      } else {
        LevelShrunkNothing(l, text, from);
      }
    } else if diff > 0 {
      OpenedLast(l, text, from, diff, m);
    } else {
      ShrunkLast(l, text, from, -diff, m);
    }
  }

  lemma ResizedKeeps(po: Policy, l: Layout, text: seq<byte>, from: nat, to: nat, n: nat)
    requires |text| == Len(l) && from <= to <= |text| && (NeverShortens(po) ==> n >= to - from)
    ensures KeepsFirm(po, l, Resized(l, text, from, to, n), |text| - to)
  {
    forall m: int | m < |text| - to && Firm(po, l, m)
      ensures Firm(po, Resized(l, text, from, to, n), m)
    {
      ResizedAt(po, l, text, from, to, n, m);
    }
  }

  lemma DeletedKeeps(po: Policy, l: Layout, text: seq<byte>, from: nat, n: nat)
    requires |text| == Len(l) && from + n < |text| && !NeverShortens(po) && Firm(po, l, |text| - from)
    ensures Firm(po, Shrunk(l, text, from, n), |text| - from - n)
  {
    if !AddsNothing(po) {
      ShrunkInside(l, text, from, n);
    }
  }

  /** The layout when the header line from `from` to `to` has been dealt with. */
  function LineResized(l: Layout, text: seq<byte>, from: nat, to: nat, action: HeaderAction): Layout
    requires from <= to
  {
    match action
    case ReplaceHeader(line) => Resized(l, text, from, to, |line|)
    case DeleteHeader => Shrunk(l, text, from, to + 2 - from)
    case _ => l
  }

  /** If everything from the line on lies in the last chunk, then everything behind it does afterwards. */
  lemma LineFirm(po: Policy, l: Layout, text: seq<byte>, from: nat, to: nat, action: HeaderAction)
    requires |text| == Len(l) && from <= to && to + 2 <= |text|
    requires NeverShortens(po) ==> !action.DeleteHeader? && (action.ReplaceHeader? ==> |action.line| >= to - from)
    ensures to + 2 < |text| && Firm(po, l, |text| - from) ==>
      Firm(po, LineResized(l, text, from, to, action), |text| - to - 2)
  {
    if to + 2 < |text| && Firm(po, l, |text| - from) {
      if action.ReplaceHeader? {
        ResizedKeeps(po, l, text, from, to, |action.line|);
        KeepsAt(po, l, Resized(l, text, from, to, |action.line|), |text| - to, |text| - from, |text| - to - 2);
      } else if action.DeleteHeader? {
        DeletedKeeps(po, l, text, from, to + 2 - from);
      }
    }
  }

  /** Where lines are added at a place that is firm, and some bytes follow, there is room. */
  lemma FirmRoom(po: Policy, l: Layout, m: int)
    requires Firm(po, l, m) && m > 0 && !AddsNothing(po)
    ensures Room(l, m, NeverShortens(po))
  {
  }

  lemma RoomFirm(po: Policy, l: Layout, m: int)
    requires Room(l, m, NeverShortens(po))
    ensures Firm(po, l, m - 1)
  {
    if Tight(l, m) {
      TightLast(l, m);
    }
  }

  // ---- where the parser stands ----------------------------------------------------------------

  predicate InLines(r: Region)
  {
    r.Field? || r.Gap? || r.Value? || r.Eol? || r.LastCr?
  }

  /** A start line has been taken, and its header block not yet. */
  predicate InBlock(p: Pos)
  {
    InLines(p.at) || p.at.BareCr? || (p.at.Third? && p.left == 0)
  }

  /** The place from which on everything should lie in the last chunk; the parser stands at `here`. */
  function Hold(p: Pos, here: int, token: int): int
  {
    if InLines(p.at) then token
    else if p.at.BareCr? then here - (1 - p.left)
    else if p.at.Third? && p.left == 0 then here
    else here + 1
  }

  lemma HoldOutside(p: Pos, here: int, token: int, other: int)
    ensures !InLines(p.at) ==> Hold(p, here, token) == Hold(p, here, other)
  {
  }

  /** Steps that do not edit move it on only. */
  lemma HoldGrows(po: Policy, p: Pos, k: nat, here: int, token: int)
    requires p.Ok() && (TextStep(p) || FreeStep(p)) && 0 < k <= Fire(po, p).left
    ensures Hold(Eat(po, p, k), here + k, token) >= Hold(p, here, token)
    ensures FreeStep(p) ==> !InLines(Eat(po, p, k).at)
    ensures TextStep(p) ==> (InLines(Eat(po, p, k).at) <==> InLines(p.at))
  {
    hide EditFirst, EditRest, EditHeader, EditDone, Push, Finish;
  }

  /** Where it is behind the steps that report something. */
  lemma HoldReported(po: Policy, p: Pos, k: nat, here: int, token: int)
    requires p.Ok() && EditStep(p) && 0 < k <= Fire(po, p).left
    ensures p.at.First? && (p.at.m.start.Reported() == [] ==> k == 1) ==> Hold(Eat(po, p, k), here, token) == here + 1
    ensures p.at.Second? ==> Hold(Eat(po, p, k), here, token) == here + 1
    ensures p.at.Third? || p.at.Eol? ==> Hold(Eat(po, p, k), here, token) == token
  {
    hide EditFirst, EditRest, EditHeader, EditDone, Push, Finish;
  }

  /** What stays firm when `k` bytes have been taken behind an edited token, or behind the header lines. */
  lemma ReportedFirm(po: Policy, p: Pos, k: nat, l: Layout, j: Layout, m: int, size: int, here: int, token: int)
    requires p.Ok() && EditStep(p) && (p.at.First? || p.at.Second?) && 0 < k <= Fire(po, p).left
    requires p.at.First? && p.at.m.start.Reported() == [] ==> k == 1
    requires KeepsFirm(po, l, j, m + 1) && size - here == m - k
    ensures Firm(po, l, m - 1) ==> Firm(po, j, size - Hold(Eat(po, p, k), here, token))
  {
    HoldReported(po, p, k, here, token);
    hide Hold, Eat, Fire;
    if Firm(po, l, m - 1) {
      KeepsAt(po, l, j, m + 1, m - 1, m - k - 1);
    }
  }

  lemma EndedFirm(po: Policy, q: Pos, l: Layout, size: int, here: int, token: int)
    requires q.at.LastLf? && here == token + 1
    ensures Firm(po, l, size - token - 1) ==> Firm(po, l, size - Hold(q, here, token))
  {
  }

  lemma HoldNow(p: Pos, here: int, token: int)
    ensures p.at.First? || p.at.Second? ==> Hold(p, here, token) == here + 1
    ensures InLines(p.at) ==> Hold(p, here, token) == token
    ensures p.at.Third? && p.left == 0 ==> Hold(p, here, token) == here
  {
  }

  /** A buffer in which added lines will end well: the delegate adds none; or it shortens nothing, and no chunk has
      an offset; or the buffer is one chunk, and no start line waits for the end of its header block. */
  ghost predicate Safe(po: Policy, l: Layout, p: Pos)
  {
    || AddsNothing(po)
    || (NeverShortens(po) && Level(l))
    || ((l.Chunk? ==> l.rest.Bare?) && !InBlock(p))
  }

  /** Putting `n` bytes in front of such a buffer. */
  lemma SafeFirm(po: Policy, l: Layout, text: seq<byte>, n: nat, p: Pos, token: int)
    requires Safe(po, l, p) && |text| == Len(l)
    ensures Firm(po, Opened(l, text, 0, n), |text| + n - Hold(p, n, token))
  {
    if NeverShortens(po) && Level(l) {
      LevelOpened(l, text, 0, n);
    }
  }
}
