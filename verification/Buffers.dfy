/** The rope of byte chunks: a singly linked list of `Buf` nodes owned by a `Buffer`. */
module Buffers {
  import opened Bytes
  import opened Layouts

  /** One chunk: `size` live bytes starting at `offset` of a store of fixed capacity. */
  class Buf {
    /** The store; nothing else refers to it. Its length is the capacity. */
    var data: seq<byte>
    var offset: nat
    var size: nat
    var next: Buf?

    /** The chunk is not empty, fits its store, and its live bytes are `c`. */
    ghost predicate Holds(c: seq<byte>)
      reads this
    {
      && 0 < size == |c|
      && offset + size <= |data|
      && data[offset..offset + size] == c
    }

    constructor (n: nat)
      requires n > 0
      ensures |data| == n && offset == 0 && size == n && next == null
      ensures Holds(Zeros(n))
    {
      data := Zeros(n);
      offset, size, next := 0, n, null;
    }

    /** Cuts this chunk after `pos` bytes and hands back the rest of the list. */
    method Break(pos: nat, ghost c: seq<byte>) returns (rest: Buf?)
      requires Holds(c) && 0 < pos <= size
      modifies this`size, this`next
      ensures Holds(c[..pos]) && next == null
      ensures pos == |c| ==> rest == old(next)
      ensures pos < |c| ==> rest != null && fresh(rest) && rest.Holds(c[pos..]) && rest.next == old(next)
      ensures pos < |c| ==> rest.offset == 0 && |rest.data| == |c| - pos
    {
      if pos == size {
        rest := next;
        next := null;
      } else {
        rest := new Buf(size - pos);
        rest.data := data[offset + pos..offset + size];
        rest.next := next;
        next := null;
        size := pos;
      }
    }
  }

  /** The ghost picture of a list: its nodes in order with the bytes each of them holds. */
  datatype Spine = End | Link(node: Buf, bytes: seq<byte>, rest: Spine)

  ghost function Nodes(s: Spine): set<Buf>
  {
    match s
    case End => {}
    case Link(n, _, r) => {n} + Nodes(r)
  }

  ghost function Text(s: Spine): seq<byte>
  {
    match s
    case End => []
    case Link(_, c, r) => c + Text(r)
  }

  ghost function Cat(s: Spine, t: Spine): Spine
  {
    match s
    case End => t
    case Link(n, c, r) => Link(n, c, Cat(r, t))
  }

  ghost function Last(s: Spine): (r: Buf?)
    ensures r == null <==> s.End?
    ensures r != null ==> r in Nodes(s)
  {
    match s
    case End => null
    case Link(n, _, r) => if r.End? then n else Last(r)
  }

  /** Following `next` from `p` runs through the nodes of `s` and arrives at `end`. */
  ghost predicate Chain(s: Spine, p: Buf?, end: Buf?)
    reads Nodes(s)
  {
    match s
    case End => p == end
    case Link(n, c, r) => p == n && n.Holds(c) && Chain(r, n.next, end)
  }

  /** No node occurs twice. */
  ghost predicate Proper(s: Spine)
  {
    match s
    case End => true
    case Link(n, _, r) => n !in Nodes(r) && Proper(r)
  }

  lemma {:induction false} CatFacts(s: Spine, t: Spine)
    ensures Nodes(Cat(s, t)) == Nodes(s) + Nodes(t)
    ensures Text(Cat(s, t)) == Text(s) + Text(t)
    ensures Last(Cat(s, t)) == if t.End? then Last(s) else Last(t)
    ensures Proper(Cat(s, t)) <==> Proper(s) && Proper(t) && Nodes(s) !! Nodes(t)
  {
    match s
    case End =>
    case Link(n, c, r) =>
      CatFacts(r, t);
      assert c + (Text(r) + Text(t)) == (c + Text(r)) + Text(t);
  }

  lemma {:induction false} ChainCat(s: Spine, t: Spine, p: Buf?, m: Buf?, end: Buf?)
    requires Chain(s, p, m) && Chain(t, m, end)
    ensures Chain(Cat(s, t), p, end)
  {
    match s
    case End =>
    case Link(n, c, r) => ChainCat(r, t, n.next, m, end);
  }

  /** Where a list whose picture is `s` starts, if it ends in `end`. */
  ghost function First(s: Spine, end: Buf?): Buf?
  {
    match s
    case End => end
    case Link(n, _, _) => n
  }

  /** A list taken apart: both parts are lists, and they share no node. */
  lemma {:induction false} ChainSplit(s: Spine, t: Spine, p: Buf?, end: Buf?)
    requires Chain(Cat(s, t), p, end) && Proper(Cat(s, t))
    ensures Chain(s, p, First(t, end)) && Chain(t, First(t, end), end)
    ensures Proper(s) && Proper(t) && Nodes(s) !! Nodes(t)
  {
    CatFacts(s, t);
    match s
    case End =>
    case Link(n, c, r) => ChainSplit(r, t, n.next, end);
  }

  lemma {:induction false} CatAssoc(s: Spine, t: Spine, u: Spine)
    ensures Cat(Cat(s, t), u) == Cat(s, Cat(t, u))
  {
    match s
    case End =>
    case Link(n, c, r) => CatAssoc(r, t, u);
  }

  /** Two lists that meet and share no node are one list. */
  lemma Join(s: Spine, t: Spine, p: Buf?, m: Buf?, end: Buf?)
    requires Chain(s, p, m) && Chain(t, m, end)
    requires Proper(s) && Proper(t) && Nodes(s) !! Nodes(t)
    ensures Chain(Cat(s, t), p, end) && Proper(Cat(s, t))
    ensures Nodes(Cat(s, t)) == Nodes(s) + Nodes(t) && Text(Cat(s, t)) == Text(s) + Text(t)
    ensures Last(Cat(s, t)) == if t.End? then Last(s) else Last(t)
  {
    ChainCat(s, t, p, m, end);
    CatFacts(s, t);
  }

  /** The last node of a list, and the list before it. */
  ghost function Front(s: Spine): Spine
    requires s.Link?
  {
    if s.rest.End? then End else Link(s.node, s.bytes, Front(s.rest))
  }

  ghost function LastBytes(s: Spine): seq<byte>
    requires s.Link?
  {
    if s.rest.End? then s.bytes else LastBytes(s.rest)
  }

  lemma {:induction false} ChainLast(s: Spine, p: Buf?, end: Buf?)
    requires s.Link? && Chain(s, p, end) && Proper(s)
    ensures Last(s) != null && Last(s).next == end && Last(s).Holds(LastBytes(s)) && Last(s) in Nodes(s)
    ensures Chain(Front(s), p, Last(s)) && Last(s) !in Nodes(Front(s))
    ensures Cat(Front(s), Link(Last(s), LastBytes(s), End)) == s
  {
    if s.rest.End? {
    } else {
      ChainLast(s.rest, s.node.next, end);
      CatFacts(Front(s.rest), Link(Last(s.rest), LastBytes(s.rest), End));
    }
  }

  /** No chunk is empty, so a list without bytes is a list without chunks. */
  lemma ChainEmpty(s: Spine, p: Buf?, end: Buf?)
    requires Chain(s, p, end)
    ensures s.End? <==> Text(s) == []
  {
  }

  // ---- how the bytes lie in their stores --------------------------------------------------------

  ghost function LayoutOf(s: Spine): Layout
    reads Nodes(s)`data, Nodes(s)`offset
  {
    match s
    case End => Bare
    case Link(n, c, r) => Chunk(Between(n.data, 0, n.offset), |c|, Drop(n.data, n.offset + |c|), LayoutOf(r))
  }

  lemma {:induction false} LayoutCat(s: Spine, t: Spine)
    ensures LayoutOf(Cat(s, t)) == CatLayout(LayoutOf(s), LayoutOf(t))
    ensures Len(LayoutOf(s)) == |Text(s)|
  {
    match s
    case End =>
    case Link(_, _, r) => LayoutCat(r, t);
  }

  lemma LayoutLen(s: Spine)
    ensures Len(LayoutOf(s)) == |Text(s)|
  {
    LayoutCat(s, End);
  }

  /** The last chunk fits its store. */
  lemma LastHolds(s: Spine, p: Buf?)
    requires Chain(s, p, null)
    ensures s.Link? ==> Last(s).offset + Last(s).size <= |Last(s).data|
  {
    if s.End? || s.rest.End? {
    } else {
      LastHolds(s.rest, s.node.next);
    }
  }

  lemma {:induction false} FullBehind(s: Spine, p: Buf?, n: nat)
    requires s.Link? && 0 < n && Chain(s, p, null) && |Last(s).data| - Last(s).offset - Last(s).size < n
    ensures Text(s) != [] && GapBytesBehind(LayoutOf(s), |Text(s)|, n) == Zeros(n)
    ensures OpenedBehind(LayoutOf(s), Text(s), |Text(s)|, n) == CatLayout(LayoutOf(s), Chunk([], n, [], Bare))
  {
    if s.rest.End? {
    } else {
      FullBehind(s.rest, s.node.next, n);
      assert Text(s)[|s.bytes|..] == Text(s.rest);
    }
  }

  /** A gap at the end, where the last chunk has too little slack. */
  lemma FullLayout(s: Spine, p: Buf?, n: nat)
    requires Chain(s, p, null) && (s.Link? ==> |Last(s).data| - Last(s).offset - Last(s).size < n)
    ensures GapBytes(LayoutOf(s), |Text(s)|, n) == Zeros(n)
    ensures Opened(LayoutOf(s), Text(s), |Text(s)|, n)
      == if n > 0 then CatLayout(LayoutOf(s), Chunk([], n, [], Bare)) else LayoutOf(s)
  {
    if s.Link? && n > 0 {
      FullBehind(s, p, n);
    } else {
      ChainEmpty(s, p, null);
      LastHolds(s, p);
    }
  }

  /** The layout of the list `s` with another, laid out as `m`, put behind the first `pos` bytes of its first chunk. */
  ghost function CutLayout(s: Spine, pos: nat, m: Layout): Layout
    requires s.Link? && 0 < pos <= |s.bytes|
    reads Nodes(s)`data, Nodes(s)`offset
  {
    var l, rest := LayoutOf(s), LayoutOf(s.rest);
    l.(size := pos, back := s.bytes[pos..] + l.back,
       rest := CatLayout(m, if pos < |s.bytes| then Chunk([], |s.bytes| - pos, [], rest) else rest))
  }

  ghost function BackOf(post: Spine, pos: nat, newBuf: Buf?): Spine
    requires post.Link? && 0 < pos <= |post.bytes|
    requires pos < |post.bytes| ==> newBuf != null
  {
    if pos < |post.bytes| then Link(newBuf, post.bytes[pos..], post.rest) else post.rest
  }

  lemma CutBack(post: Spine, pos: nat, newBuf: Buf?)
    requires post.Link? && 0 < pos <= |post.bytes|
    requires pos < |post.bytes| ==> newBuf != null && newBuf.offset == 0 && |newBuf.data| == |post.bytes| - pos
    ensures LayoutOf(post).Chunk? && LayoutOf(post).rest == LayoutOf(post.rest)
    ensures LayoutOf(BackOf(post, pos, newBuf))
      == if pos < |post.bytes| then Chunk([], |post.bytes| - pos, [], LayoutOf(post.rest)) else LayoutOf(post.rest)
  {
  }

  lemma CutFront(post: Spine, pos: nat)
    requires post.Link? && 0 < pos <= |post.bytes| && post.node.offset + |post.bytes| <= |post.node.data|
    requires post.bytes == post.node.data[post.node.offset..post.node.offset + |post.bytes|]
    ensures var l := LayoutOf(post);
      && l.Chunk?
      && LayoutOf(Link(post.node, post.bytes[..pos], End)) == l.(size := pos, back := post.bytes[pos..] + l.back,
                                                                 rest := Bare)
  {
    WindowEnd(post.node.data, post.node.offset, post.bytes, pos);
  }

  /** The two lists left when `Cat(pre, post)` is cut after `pos` bytes of the first chunk of `post`. */
  ghost function FrontOf(pre: Spine, post: Spine, pos: nat): Spine
    requires post.Link? && 0 < pos <= |post.bytes|
  {
    Cat(pre, Link(post.node, post.bytes[..pos], End))
  }

  /** The list `t` put after the first `pos` bytes of the first chunk of `post`. */
  ghost function Inserted(pre: Spine, post: Spine, pos: nat, newBuf: Buf?, t: Spine): Spine
    requires post.Link? && 0 < pos <= |post.bytes|
    requires pos < |post.bytes| ==> newBuf != null
  {
    Cat(FrontOf(pre, post, pos), Cat(t, BackOf(post, pos, newBuf)))
  }

  lemma InsertLayout(pre: Spine, post: Spine, pos: nat, newBuf: Buf?, t: Spine)
    requires post.Link? && 0 < pos <= |post.bytes| && (pos < |post.bytes| ==> newBuf != null)
    requires post.node.offset + |post.bytes| <= |post.node.data|
    requires post.bytes == post.node.data[post.node.offset..post.node.offset + |post.bytes|]
    requires pos < |post.bytes| ==> newBuf.offset == 0 && |newBuf.data| == |post.bytes| - pos
    ensures LayoutOf(Inserted(pre, post, pos, newBuf, t)) == CatLayout(LayoutOf(pre), CutLayout(post, pos, LayoutOf(t)))
  {
    hide CatLayout, Cat, LayoutOf;
    var front, back := Link(post.node, post.bytes[..pos], End), BackOf(post, pos, newBuf);
    LayoutCat(pre, front);
    LayoutCat(t, back);
    LayoutCat(FrontOf(pre, post, pos), Cat(t, back));
    CatTwice(LayoutOf(pre), LayoutOf(front), LayoutOf(Cat(t, back)));
    CutFront(post, pos);
    CutBack(post, pos, newBuf);
    OneBehind(LayoutOf(front), LayoutOf(Cat(t, back)));
  }

  lemma RestInside(pre: Spine, post: Spine)
    requires post.Link?
    ensures First(post.rest, null) != null ==> First(post.rest, null) in Nodes(Cat(pre, post))
  {
    CatFacts(pre, post);
  }

  lemma LastOfPost(pre: Spine, post: Spine)
    requires Proper(Cat(pre, post)) && post.Link?
    ensures Last(Cat(pre, post)) == Last(post) && (Last(post) == post.node <==> post.rest.End?)
  {
    CatFacts(pre, post);
  }

  lemma ChainNotEmpty(s: Spine, p: Buf?)
    requires Chain(s, p, null) && p != null
    ensures s.Link? && s.node == p
  {
  }

  /** The first chunk of the second part of a list. */
  lemma HoldsFirst(pre: Spine, post: Spine, p: Buf?)
    requires Chain(Cat(pre, post), p, null) && Proper(Cat(pre, post)) && post.Link?
    ensures post.node.Holds(post.bytes) && post.node in Nodes(Cat(pre, post))
  {
    ChainSplit(pre, post, p, null);
    CatFacts(pre, post);
  }

  lemma HeadOfPost(pre: Spine, post: Spine)
    requires post.Link?
    ensures post.node in Nodes(Cat(pre, post))
    ensures Nodes(pre) <= Nodes(Cat(pre, post)) && Nodes(post) <= Nodes(Cat(pre, post))
  {
    CatFacts(pre, post);
  }

  /** What the indexing operator sees of byte `i` of the first chunk of `post`. */
  lemma IndexInside(pre: Spine, post: Spine, i: nat)
    requires post.Link? && post.node.Holds(post.bytes) && i < |post.bytes|
    ensures var l, at := LayoutOf(Cat(pre, post)), |Text(pre)| + i;
      && at < |Text(Cat(pre, post))|
      && Skew(l, at) == post.node.offset
      && (InSlack(l, at) <==> i < post.node.offset)
      && (InSlack(l, at) ==> Slack(l, at) == post.node.data[i])
  {
    CatFacts(pre, post);
    LayoutCat(pre, post);
    IndexCat(LayoutOf(pre), LayoutOf(post), i);
  }

  /** Points the last node of the list `s` at `next`. */
  method Relink(last: Buf, next: Buf?, ghost s: Spine, ghost p: Buf?, ghost was: Buf?)
    requires s.Link? && Chain(s, p, was) && Proper(s) && last == Last(s)
    modifies last`next
    ensures Chain(s, p, next) && last in Nodes(s)
  {
    ChainLast(s, p, was);
    last.next := next;
    ChainCat(Front(s), Link(last, LastBytes(s), End), p, last, next);
  }

  lemma CutFacts(pre: Spine, post: Spine, pos: nat, newBuf: Buf?)
    requires Proper(Cat(pre, post)) && post.Link? && 0 < pos <= |post.bytes|
    requires pos < |post.bytes| ==> newBuf != null && newBuf !in Nodes(Cat(pre, post))
    ensures var f, b := FrontOf(pre, post, pos), BackOf(post, pos, newBuf);
      && Proper(f) && Proper(b) && Nodes(f) !! Nodes(b)
      && Nodes(f) + Nodes(b) == Nodes(Cat(pre, post)) + (if pos < |post.bytes| then {newBuf} else {})
      && Last(f) == post.node
      && Last(b) == (if post.rest.End? && pos < |post.bytes| then newBuf else Last(post.rest))
  {
    CatFacts(pre, post);
    CatFacts(pre, Link(post.node, post.bytes[..pos], End));
  }

  lemma CutText(pre: Spine, post: Spine, pos: nat, newBuf: Buf?)
    requires post.Link? && 0 < pos <= |post.bytes| && (pos < |post.bytes| ==> newBuf != null)
    ensures |Text(FrontOf(pre, post, pos))| == |Text(pre)| + pos
    ensures Text(FrontOf(pre, post, pos)) + Text(BackOf(post, pos, newBuf)) == Text(Cat(pre, post))
  {
    var c, d, one := post.bytes, Text(post.rest), Link(post.node, post.bytes[..pos], End);
    CatFacts(pre, post);
    CatFacts(pre, one);
    assert Text(one) == c[..pos];
    assert Text(BackOf(post, pos, newBuf)) == c[pos..] + d;
    hide Text, Cat;
    SplitMiddle(Text(pre), c, d, pos);
  }

  /** Cuts the list `Cat(pre, post)`, whose nodes are `R`, inside or just after the first chunk of `post`. */
  method SplitAt(buf: Buf, pos: nat, ghost pre: Spine, ghost post: Spine, ghost p: Buf?, ghost R: set<Buf>)
    returns (newBuf: Buf?)
    requires Chain(Cat(pre, post), p, null) && Proper(Cat(pre, post)) && R == Nodes(Cat(pre, post))
    requires post.Link? && post.node == buf && 0 < pos <= |post.bytes|
    modifies buf`size, buf`next
    ensures if pos < |post.bytes| then newBuf != null && fresh(newBuf) else newBuf == First(post.rest, null)
    ensures pos < |post.bytes| ==> newBuf.offset == 0 && |newBuf.data| == |post.bytes| - pos
    ensures Chain(FrontOf(pre, post, pos), p, null) && Chain(BackOf(post, pos, newBuf), newBuf, null)
  {
    ghost var c, rest := post.bytes, post.rest;
    ChainSplit(pre, post, p, null);
    CatFacts(pre, post);
    newBuf := buf.Break(pos, c);
    assert Chain(rest, First(rest, null), null);
    ChainCat(pre, Link(buf, c[..pos], End), p, buf, null);
  }

  /** Links the list `t` between the lists `front` and `back`. */
  method Bridge(buf: Buf, first: Buf, last: Buf, next: Buf?,
                ghost front: Spine, ghost t: Spine, ghost back: Spine, ghost p: Buf?, ghost R: set<Buf>)
    requires Chain(front, p, null) && Chain(t, first, null) && Chain(back, next, null)
    requires Proper(front) && Proper(t) && Proper(back)
    requires Nodes(front) !! Nodes(t) && Nodes(front) !! Nodes(back) && Nodes(t) !! Nodes(back)
    requires R == Nodes(front) + Nodes(t) + Nodes(back)
    requires buf == Last(front) && last == Last(t)
    modifies buf`next, last`next
    ensures Chain(Cat(front, Cat(t, back)), p, null)
  {
    Relink(buf, first, front, p, null);
    assert Chain(t, first, null) && Chain(back, next, null);
    Relink(last, next, t, first, null);
    assert Chain(front, p, first) && Chain(back, next, null);
    ChainCat(t, back, first, next, null);
    ChainCat(front, Cat(t, back), p, first, null);
  }

  lemma BridgeFacts(front: Spine, t: Spine, back: Spine)
    requires Proper(front) && Proper(t) && Proper(back)
    requires Nodes(front) !! Nodes(t) && Nodes(front) !! Nodes(back) && Nodes(t) !! Nodes(back)
    ensures var s := Cat(front, Cat(t, back));
      && Proper(s) && Nodes(s) == Nodes(front) + Nodes(t) + Nodes(back)
      && Text(s) == Splice(Text(front) + Text(back), |Text(front)|, Text(t))
      && Last(s) == if back.Link? then Last(back) else if t.Link? then Last(t) else Last(front)
  {
    CatFacts(t, back);
    CatFacts(front, Cat(t, back));
    SpliceBetween(Text(front), Text(back), Text(t));
  }

  lemma LastCut(post: Spine, pos: nat, newBuf: Buf?)
    requires post.Link? && 0 < pos <= |post.bytes| && (pos < |post.bytes| ==> newBuf != null)
    ensures var b := BackOf(post, pos, newBuf);
      && (b.Link? <==> pos < |post.bytes| || post.rest.Link?)
      && (post.rest.Link? ==> Last(b) == Last(post)) && (post.rest.End? && b.Link? ==> Last(b) == newBuf)
  {
  }

  lemma InsertFacts(pre: Spine, post: Spine, pos: nat, newBuf: Buf?, t: Spine)
    requires Proper(Cat(pre, post)) && post.Link? && 0 < pos <= |post.bytes|
    requires if pos < |post.bytes| then newBuf != null && newBuf !in Nodes(Cat(pre, post))
      else newBuf == First(post.rest, null)
    requires Proper(t) && t.Link? && Nodes(t) !! Nodes(Cat(pre, post)) && (newBuf == null || newBuf !in Nodes(t))
    ensures var s, all := Inserted(pre, post, pos, newBuf, t), Cat(pre, post);
      && Proper(s)
      && Nodes(s) == Nodes(all) + Nodes(t) + (if newBuf == null then {} else {newBuf})
      && |Text(pre)| + pos <= |Text(all)|
      && Text(s) == Splice(Text(all), |Text(pre)| + pos, Text(t))
      && Last(s) == if post.rest.Link? then Last(post) else if newBuf != null then newBuf else Last(t)
  {
    hide Cat, Text, Proper, Splice, FrontOf, BackOf;
    CatFacts(pre, post);
    RestInside(pre, post);
    CutFacts(pre, post, pos, newBuf);
    CutText(pre, post, pos, newBuf);
    LastCut(post, pos, newBuf);
    BridgeFacts(FrontOf(pre, post, pos), t, BackOf(post, pos, newBuf));
  }

  /** Puts the list `t` after the first `pos` bytes of the chunk `buf`. */
  method InsertList(buf: Buf, pos: nat, first: Buf, last: Buf, ghost pre: Spine, ghost post: Spine, ghost t: Spine,
                    ghost p: Buf?, ghost R: set<Buf>, ghost T: set<Buf>)
    returns (newBuf: Buf?)
    requires Chain(Cat(pre, post), p, null) && Proper(Cat(pre, post)) && R == Nodes(Cat(pre, post))
    requires Chain(t, first, null) && Proper(t) && T == Nodes(t) && R !! T && last == Last(t)
    requires post.Link? && post.node == buf && 0 < pos <= |post.bytes|
    modifies buf`size, buf`next, last`next
    ensures newBuf != null ==> newBuf in R || fresh(newBuf)
    ensures pos < |post.bytes| ==> fresh(newBuf) && newBuf.offset == 0 && |newBuf.data| == |post.bytes| - pos
    ensures if pos < |post.bytes| then newBuf != null && newBuf !in R else newBuf == First(post.rest, null)
    ensures Chain(Inserted(pre, post, pos, newBuf, t), p, null)
  {
    hide Cat, Text, Proper, Nodes, FrontOf, BackOf;
    HoldsFirst(pre, post, p);
    RestInside(pre, post);
    newBuf := SplitAt(buf, pos, pre, post, p, R);
    ghost var front, back := FrontOf(pre, post, pos), BackOf(post, pos, newBuf);
    CutFacts(pre, post, pos, newBuf);
    assert Chain(t, first, null);
    Bridge(buf, first, last, newBuf, front, t, back, p, R + T + if pos < |post.bytes| then {newBuf} else {});
  }

  // ---- editing one chunk in place -------------------------------------------------------------

  /** The list `Cat(pre, post)` with the bytes of the first chunk of `post` replaced by `c`. */
  ghost function Edited(pre: Spine, post: Spine, c: seq<byte>): Spine
    requires post.Link?
  {
    Cat(pre, Link(post.node, c, post.rest))
  }

  lemma EditFacts(pre: Spine, post: Spine, c: seq<byte>)
    requires post.Link? && Proper(Cat(pre, post))
    ensures var s := Edited(pre, post, c);
      && Proper(s) && Nodes(s) == Nodes(Cat(pre, post)) && Last(s) == Last(Cat(pre, post))
      && Text(s) == Text(pre) + (c + Text(post.rest))
      && Text(Cat(pre, post)) == Text(pre) + (post.bytes + Text(post.rest))
  {
    CatFacts(pre, post);
    CatFacts(pre, Link(post.node, c, post.rest));
  }

  /** Growing a chunk opens a gap where it grows. */
  lemma GrowBackFacts(pre: Spine, post: Spine, g: seq<byte>)
    requires post.Link? && Proper(Cat(pre, post))
    ensures var at := |Text(pre)| + |post.bytes|;
      at <= |Text(Cat(pre, post))| && Text(Edited(pre, post, post.bytes + g)) == Splice(Text(Cat(pre, post)), at, g)
  {
    var a, c, d := Text(pre), post.bytes, Text(post.rest);
    EditFacts(pre, post, c + g);
    SpliceBetween(a + c, d, g);
    Assoc(a, c, d);
    Assoc(c, g, d);
    Assoc(a, c, g + d);
  }

  lemma GrowFrontFacts(pre: Spine, post: Spine, g: seq<byte>)
    requires post.Link? && Proper(Cat(pre, post))
    ensures |Text(pre)| <= |Text(Cat(pre, post))|
    ensures Text(Edited(pre, post, g + post.bytes)) == Splice(Text(Cat(pre, post)), |Text(pre)|, g)
  {
    var a, c, d := Text(pre), post.bytes, Text(post.rest);
    EditFacts(pre, post, g + c);
    SpliceBetween(a, c + d, g);
    Assoc(g, c, d);
  }

  /** Moves the window of a chunk, and changes its store, in place. */
  method Rewindow(cur: Buf, data: seq<byte>, offset: nat, size: nat,
                  ghost pre: Spine, ghost post: Spine, ghost p: Buf?, ghost R: set<Buf>)
    requires Chain(Cat(pre, post), p, null) && Proper(Cat(pre, post)) && R == Nodes(Cat(pre, post))
    requires post.Link? && post.node == cur
    requires |data| == |cur.data| && 0 < size && offset + size <= |data|
    modifies cur`data, cur`offset, cur`size
    ensures Chain(Edited(pre, post, data[offset..offset + size]), p, null)
    ensures cur.data == data && cur.offset == offset && cur.size == size
  {
    hide Cat, Text;
    ChainSplit(pre, post, p, null);
    CatFacts(pre, post);
    assert Chain(post.rest, cur.next, null);
    cur.data, cur.offset, cur.size := data, offset, size;
    assert Chain(post.rest, cur.next, null);
    ChainCat(pre, Link(cur, data[offset..offset + size], post.rest), p, cur, null);
  }

  lemma EmptyFacts()
    ensures Text(End) == [] && Nodes(End) == {} && Proper(End) && Last(End) == null
  {
  }

  /** A byte of a chunk in the bytes of the list. */
  lemma FoundFacts(pre: Spine, post: Spine, k: nat)
    requires post.Link? && post.node.Holds(post.bytes) && post.node.offset <= k < post.node.offset + post.node.size
    ensures var s, i := Text(Cat(pre, post)), |Text(pre)| + (k - post.node.offset);
      i < |s| && k < |post.node.data| && s[i] == post.node.data[k] && post.node in Nodes(Cat(pre, post))
  {
    CatFacts(pre, post);
    HeadOfPost(pre, post);
    hide Chain, Proper, Nodes, Cat;
    TextAt(Text(pre), post.bytes, Text(post.rest), k - post.node.offset);
  }

  class Buffer {
    var head: Buf?
    var tail: Buf?
    var size: nat
    /** The nodes reachable from `head`, in order, with the bytes they hold. */
    ghost var spine: Spine
    /** The nodes this buffer owns. */
    ghost var Repr: set<Buf>

    ghost predicate Linked()
      reads this, Repr
    {
      Repr == Nodes(spine) && Chain(spine, head, null) && Proper(spine)
    }

    ghost predicate Valid()
      reads this, Repr
    {
      && Linked()
      && tail == Last(spine)
      && size == |Text(spine)|
    }

    /** The abstract value of a buffer. */
    ghost function Contents(): seq<byte>
      reads this
    {
      Text(spine)
    }

    constructor (n: nat)
      ensures Valid() && fresh(Repr)
      ensures n == 0 ==> spine == End
      ensures n > 0 ==> tail != null && head == tail && Repr == {tail} && spine == Link(tail, Zeros(n), End)
      ensures n > 0 ==> tail.offset == 0 && |tail.data| == n
      ensures Contents() == Zeros(n) && LayoutOf(spine) == if n > 0 then Chunk([], n, [], Bare) else Bare
    {
      if n > 0 {
        var b := new Buf(n);
        head, tail, size := b, b, n;
        spine, Repr := Link(b, Zeros(n), End), {b};
      } else {
        head, tail, size := null, null, n;
        spine, Repr := End, {};
      }
    }

    /** Move assignment: takes over the other buffer's chunks and leaves it empty. */
    method Assign(buffer: Buffer)
      requires buffer.Valid() && this != buffer
      modifies this, buffer
      ensures Valid() && Contents() == old(buffer.Contents()) && Repr == old(buffer.Repr)
      ensures buffer.Valid() && buffer.Contents() == [] && buffer.Repr == {}
    {
      hide Proper, Nodes, Text, Last;
      EmptyFacts();
      head, tail, size, spine, Repr := buffer.head, buffer.tail, buffer.size, buffer.spine, buffer.Repr;
      buffer.head, buffer.tail, buffer.size, buffer.spine, buffer.Repr := null, null, 0, End, {};
    }

    // ---- walking to a position ----------------------------------------------------------------

    /** Moves the first chunk of `post` to the end of `pre`. */
    static ghost function Step(pre: Spine, post: Spine): (r: Spine)
      requires post.Link?
      ensures Cat(r, post.rest) == Cat(pre, post)
      ensures Last(r) == post.node && Text(r) == Text(pre) + post.bytes
    {
      var one := Link(post.node, post.bytes, End);
      CatAssoc(pre, one, post.rest);
      CatFacts(pre, one);
      Cat(pre, one)
    }

    /** The chunk in which position `pos` lies; a position on a boundary belongs to the later chunk. */
    method LocateInside(pos: nat) returns (cur: Buf, rest: nat, prev: Buf?, ghost pre: Spine, ghost post: Spine)
      requires Valid() && pos < size
      ensures spine == Cat(pre, post) && post.Link? && post.node == cur && prev == Last(pre)
      ensures |Text(pre)| + rest == pos && rest < cur.size
      ensures cur.Holds(post.bytes) && cur.next == First(post.rest, null)
    {
      cur, rest, prev, pre, post := head, pos, null, End, spine;
      while rest >= cur.size
        invariant spine == Cat(pre, post) && post.Link? && post.node == cur && prev == Last(pre)
        invariant Chain(post, cur, null)
        invariant |Text(pre)| + rest == pos && rest < |Text(post)|
        decreases post
      {
        rest, prev, cur := rest - cur.size, cur, cur.next;
        pre, post := Step(pre, post), post.rest;
      }
    }

    /** As `LocateInside`; a position on a boundary belongs to the earlier chunk. */
    method LocateEnd(pos: nat) returns (cur: Buf, rest: nat, ghost pre: Spine, ghost post: Spine)
      requires Valid() && 0 < pos <= size
      ensures spine == Cat(pre, post) && post.Link? && post.node == cur
      ensures |Text(pre)| + rest == pos && 0 < rest <= cur.size
      ensures cur.Holds(post.bytes) && cur.next == First(post.rest, null)
    {
      cur, rest, pre, post := head, pos, End, spine;
      while rest > cur.size
        invariant spine == Cat(pre, post) && post.Link? && post.node == cur
        invariant Chain(post, cur, null)
        invariant |Text(pre)| + rest == pos && 0 < rest <= |Text(post)|
        decreases post
      {
        rest, cur := rest - cur.size, cur.next;
        pre, post := Step(pre, post), post.rest;
      }
    }

    static lemma StepLayout(pre: Spine, post: Spine)
      requires post.Link?
      ensures var one := Link(post.node, post.bytes, End);
        Nodes(one) == {post.node} && LayoutOf(Step(pre, post)) == CatLayout(LayoutOf(pre), LayoutOf(one))
    {
      LayoutCat(pre, Link(post.node, post.bytes, End));
    }

    static lemma StepNodes(pre: Spine, post: Spine)
      requires post.Link?
      ensures Nodes(Step(pre, post)) == Nodes(pre) + {post.node}
    {
      CatFacts(pre, Link(post.node, post.bytes, End));
    }

    // ---- splicing another buffer --------------------------------------------------------------

    ghost predicate Apart(buffer: Buffer)
      reads this, buffer
    {
      this != buffer && Repr !! buffer.Repr
    }

    /** A spliced buffer keeps no chunk; its `tail` and `size` are left stale. */
    ghost predicate Drained()
      reads this
    {
      head == null && spine == End && Repr == {}
    }

    /** The bookkeeping that ends every splice: `s` is the list now, and `buffer` has lost its chunks. */
    method Adopt(buffer: Buffer, first: Buf, last: Buf, ghost s: Spine, ghost all: set<Buf>)
      requires this != buffer && Chain(s, first, null) && Proper(s) && Nodes(s) == all
      requires last == Last(s) && size + buffer.size == |Text(s)|
      modifies this, buffer
      ensures Valid() && spine == s && Repr == all
      ensures buffer.size == old(buffer.size) && buffer.Drained()
    {
      hide Proper, Nodes, Text, Last;
      head, tail, size := first, last, size + buffer.size;
      spine, Repr := s, all;
      buffer.head, buffer.spine, buffer.Repr := null, End, {};
    }

    method SpliceBack(buffer: Buffer)
      requires Valid() && buffer.Valid() && Apart(buffer)
      modifies this, Repr`next, buffer
      ensures Valid() && Contents() == old(Contents()) + old(buffer.Contents())
      ensures spine == if old(buffer.size) > 0 then Cat(old(spine), old(buffer.spine)) else old(spine)
      ensures Repr == old(Repr) + old(buffer.Repr)
      ensures buffer.size == old(buffer.size) && buffer.Drained()
    {
      ChainEmpty(buffer.spine, buffer.head, null);
      if buffer.size == 0 {
        return;
      }
      ghost var s, t := spine, buffer.spine;
      if head != null {
        Relink(tail, buffer.head, s, head, null);
        assert Chain(t, buffer.head, null);
      }
      var first := if head != null then head else buffer.head;
      Join(s, t, first, buffer.head, null);
      Adopt(buffer, first, buffer.tail, Cat(s, t), Repr + buffer.Repr);
    }

    method SpliceFront(buffer: Buffer)
      requires Valid() && buffer.Valid() && Apart(buffer)
      modifies this, buffer, buffer.Repr`next
      ensures Valid() && Contents() == old(buffer.Contents()) + old(Contents())
      ensures spine == if old(buffer.size) > 0 then Cat(old(buffer.spine), old(spine)) else old(spine)
      ensures Repr == old(Repr) + old(buffer.Repr)
      ensures buffer.size == old(buffer.size) && buffer.Drained()
    {
      ChainEmpty(buffer.spine, buffer.head, null);
      if buffer.size == 0 {
        return;
      }
      ghost var s, t := spine, buffer.spine;
      Relink(buffer.tail, head, t, buffer.head, null);
      assert Chain(s, head, null);
      Join(t, s, buffer.head, head, null);
      Adopt(buffer, buffer.head, if tail == null then buffer.tail else tail, Cat(t, s), Repr + buffer.Repr);
    }

    lemma HeadOf(pre: Spine, post: Spine)
      requires Valid() && spine == Cat(pre, post) && post.Link?
      ensures head != null
    {
    }

    /** Puts `buffer` after the first `pos` bytes of the chunk `buf`. */
    method InsertBufAt(buf: Buf, buffer: Buffer, pos: nat, ghost pre: Spine, ghost post: Spine)
      requires Valid() && buffer.Valid() && Apart(buffer) && buffer.head != null
      requires spine == Cat(pre, post) && post.Link? && post.node == buf && 0 < pos <= |post.bytes|
      modifies this, buf`size, buf`next, buffer, buffer.Repr`next
      ensures LayoutOf(spine) == CatLayout(old(LayoutOf(pre)), old(CutLayout(post, pos, LayoutOf(buffer.spine))))
      ensures Valid() && |Text(pre)| + pos <= old(size)
      ensures Contents() == Splice(old(Contents()), |Text(pre)| + pos, old(buffer.Contents()))
      ensures old(Repr) + old(buffer.Repr) <= Repr && fresh(Repr - old(Repr) - old(buffer.Repr))
      ensures buffer.size == old(buffer.size) && buffer.Drained()
    {
      hide Chain, Proper, Text, Nodes, Last, Cat, LayoutOf, CatLayout, CutLayout, FrontOf, BackOf, Inserted;
      ghost var t := buffer.spine;
      ChainNotEmpty(buffer.spine, buffer.head);
      CatFacts(pre, post);
      ghost var l := CatLayout(LayoutOf(pre), CutLayout(post, pos, LayoutOf(t)));
      HoldsFirst(pre, post, head);
      LastOfPost(pre, post);
      HeadOf(pre, post);
      var newBuf := InsertList(buf, pos, buffer.head, buffer.tail, pre, post, t, head, Repr, buffer.Repr);
      InsertFacts(pre, post, pos, newBuf, t);
      InsertLayout(pre, post, pos, newBuf, t);
      assert CatLayout(LayoutOf(pre), CutLayout(post, pos, LayoutOf(t))) == l;
      Adopt(buffer, head, if buf != tail then tail else if newBuf != null then newBuf else buffer.tail,
            Inserted(pre, post, pos, newBuf, t), Repr + buffer.Repr + if newBuf == null then {} else {newBuf});
    }

    method SpliceInside(buffer: Buffer, pos: nat)
      requires Valid() && buffer.Valid() && Apart(buffer) && 0 < pos <= size && buffer.size > 0
      modifies this, Repr, buffer, buffer.Repr
      ensures Valid() && Contents() == Splice(old(Contents()), pos, old(buffer.Contents()))
      ensures old(Repr) + old(buffer.Repr) <= Repr && fresh(Repr - old(Repr) - old(buffer.Repr))
      ensures buffer.size == old(buffer.size) && buffer.Drained()
    {
      hide Chain, Proper, Nodes, Cat;
      buffer.HasHead();
      var cur, rest, pre, post := LocateEnd(pos);
      HeadOfPost(pre, post);
      InsertBufAt(cur, buffer, rest, pre, post);
    }

    /** Takes `buffer` over at position `pos`. */
    method SpliceAt(buffer: Buffer, pos: nat)
      requires Valid() && buffer.Valid() && Apart(buffer) && pos <= size
      modifies this, Repr, buffer, buffer.Repr
      ensures Valid() && Contents() == Splice(old(Contents()), pos, old(buffer.Contents()))
      ensures old(Repr) + old(buffer.Repr) <= Repr && fresh(Repr - old(Repr) - old(buffer.Repr))
      ensures buffer.size == old(buffer.size) && buffer.Drained()
    {
      ChainEmpty(buffer.spine, buffer.head, null);
      SpliceEnds(Contents(), buffer.Contents());
      if buffer.size == 0 {
        assert Splice(Contents(), pos, []) == Contents();
      } else if pos == size {
        SpliceBack(buffer);
      } else if pos == 0 {
        SpliceFront(buffer);
      } else {
        SpliceInside(buffer, pos);
      }
    }

    lemma HasHead()
      requires Valid() && size > 0
      ensures head != null
    {
    }

    // ---- opening gaps -------------------------------------------------------------------------

    /** Moves the window of the first chunk of `post`, whose bytes become `c`. */
    method EditChunk(cur: Buf, data: seq<byte>, offset: nat, n: nat, ghost c: seq<byte>, ghost pre: Spine,
                     ghost post: Spine)
      requires Valid() && spine == Cat(pre, post) && post.Link? && post.node == cur
      requires |data| == |cur.data| && 0 < n && offset + n <= |data| && c == data[offset..offset + n]
      modifies this`size, this`spine, cur`data, cur`offset, cur`size
      ensures Valid() && spine == Edited(pre, post, c)
      ensures Contents() == Text(pre) + (c + Text(post.rest))
      ensures old(Contents()) == Text(pre) + (post.bytes + Text(post.rest))
      ensures cur.data == data && cur.offset == offset && cur.size == n
    {
      ChainSplit(pre, post, head, null);
      EditFacts(pre, post, c);
      size := size + n - cur.size;
      Rewindow(cur, data, offset, n, pre, post, head, Repr);
      spine := Edited(pre, post, c);
    }

    /** As `EditChunk`, with what becomes of the layout. */
    method MoveChunk(cur: Buf, data: seq<byte>, offset: nat, n: nat, ghost c: seq<byte>, ghost pre: Spine,
                     ghost post: Spine)
      requires Valid() && spine == Cat(pre, post) && post.Link? && post.node == cur
      requires |data| == |cur.data| && 0 < n && offset + n <= |data| && c == data[offset..offset + n]
      modifies this`size, this`spine, cur`data, cur`offset, cur`size
      ensures Valid() && spine == Edited(pre, post, c)
      ensures Contents() == Text(pre) + (c + Text(post.rest))
      ensures old(Contents()) == Text(pre) + (post.bytes + Text(post.rest))
      ensures cur.data == data && cur.offset == offset && cur.size == n
      ensures LayoutOf(pre) == old(LayoutOf(pre)) && LayoutOf(post.rest) == old(LayoutOf(post.rest))
      ensures LayoutOf(spine) == CatLayout(LayoutOf(pre),
                                           Chunk(data[..offset], n, data[offset + n..], LayoutOf(post.rest)))
    {
      hide Chain, Text;
      CatFacts(pre, post);
      ghost var l, m := LayoutOf(pre), LayoutOf(post.rest);
      EditChunk(cur, data, offset, n, c, pre, post);
      assert LayoutOf(pre) == l && LayoutOf(post.rest) == m;
      LayoutCat(pre, Link(cur, c, post.rest));
    }

    /** Changes the live bytes of a chunk and nothing else. */
    method EditInPlace(cur: Buf, data: seq<byte>, ghost c: seq<byte>, ghost pre: Spine, ghost post: Spine)
      requires Valid() && spine == Cat(pre, post) && post.Link? && post.node == cur && cur.Holds(post.bytes)
      requires |data| == |cur.data| && c == data[cur.offset..cur.offset + cur.size]
      requires data[..cur.offset] == cur.data[..cur.offset]
      requires data[cur.offset + cur.size..] == cur.data[cur.offset + cur.size..]
      modifies this`size, this`spine, cur`data, cur`offset, cur`size
      ensures Valid() && spine == Edited(pre, post, c) && LayoutOf(spine) == old(LayoutOf(spine))
      ensures size == old(size) && Contents() == Text(pre) + (c + Text(post.rest))
      ensures old(Contents()) == Text(pre) + (post.bytes + Text(post.rest))
      ensures cur.data == data && cur.offset == old(cur.offset) && cur.size == old(cur.size)
    {
      hide Chain, Text, CatLayout;
      LayoutCat(pre, post);
      MoveChunk(cur, data, cur.offset, cur.size, c, pre, post);
    }

    lemma GrowBack(pre: Spine, post: Spine, g: seq<byte>)
      requires Valid() && spine == Cat(pre, post) && post.Link?
      ensures |Text(pre)| + |post.bytes| <= size
      ensures Text(pre) + ((post.bytes + g) + Text(post.rest)) == Splice(Contents(), |Text(pre)| + |post.bytes|, g)
    {
      GrowBackFacts(pre, post, g);
      EditFacts(pre, post, post.bytes + g);
    }

    /** Lets the first chunk of `post` grow by `k` bytes at its back. */
    method ExtendBack(cur: Buf, k: nat, ghost pre: Spine, ghost post: Spine) returns (ghost g: seq<byte>)
      requires Valid() && spine == Cat(pre, post) && post.Link? && post.node == cur
      requires cur.Holds(post.bytes) && cur.offset + cur.size + k <= |cur.data|
      modifies this`size, this`spine, cur`data, cur`offset, cur`size
      ensures Valid() && spine == Edited(pre, post, post.bytes + g)
      ensures |Text(pre)| + |post.bytes| <= old(size)
      ensures Contents() == Splice(old(Contents()), |Text(pre)| + |post.bytes|, g)
      ensures LayoutOf(pre) == old(LayoutOf(pre)) && LayoutOf(post.rest) == old(LayoutOf(post.rest))
      ensures var l := old(LayoutOf(post));
        && k <= |l.back| && g == l.back[..k]
        && LayoutOf(spine) == CatLayout(LayoutOf(pre), l.(size := l.size + k, back := l.back[k..]))
        && LayoutOf(Link(cur, post.bytes + g, End)) == l.(size := l.size + k, back := l.back[k..], rest := Bare)
    {
      hide Chain, Proper, Nodes, Text, Cat, CatLayout, Splice;
      g := cur.data[cur.offset + cur.size..cur.offset + cur.size + k];
      GrowBack(pre, post, g);
      MoveChunk(cur, cur.data, cur.offset, cur.size + k, post.bytes + g, pre, post);
    }

    lemma GrowFront(pre: Spine, post: Spine, g: seq<byte>)
      requires Valid() && spine == Cat(pre, post) && post.Link?
      ensures |Text(pre)| <= size
      ensures Text(pre) + ((g + post.bytes) + Text(post.rest)) == Splice(Contents(), |Text(pre)|, g)
    {
      GrowFrontFacts(pre, post, g);
      EditFacts(pre, post, g + post.bytes);
    }

    /** Lets the first chunk of `post` grow by `k` bytes at its front. */
    method ExtendFront(cur: Buf, k: nat, ghost pre: Spine, ghost post: Spine) returns (ghost g: seq<byte>)
      requires Valid() && spine == Cat(pre, post) && post.Link? && post.node == cur
      requires cur.Holds(post.bytes) && k <= cur.offset
      modifies this`size, this`spine, cur`data, cur`offset, cur`size
      ensures Valid() && |Text(pre)| <= old(size) && Contents() == Splice(old(Contents()), |Text(pre)|, g)
      ensures LayoutOf(pre) == old(LayoutOf(pre))
      ensures var l := old(LayoutOf(post));
        && k <= |l.front| && g == l.front[|l.front| - k..]
        && LayoutOf(spine) == CatLayout(LayoutOf(pre), l.(front := l.front[..|l.front| - k], size := l.size + k))
    {
      hide Chain, Proper, Nodes, Text, Cat, CatLayout, Splice;
      g := cur.data[cur.offset - k..cur.offset];
      GrowFront(pre, post, g);
      assert cur.data[..cur.offset - k] == cur.data[..cur.offset][..cur.offset - k];
      MoveChunk(cur, cur.data, cur.offset - k, cur.size + k, g + post.bytes, pre, post);
    }

    /** Opening a gap at the front. */
    lemma FrontFacts(n: nat)
      requires Valid()
      ensures Cat(End, spine) == spine && LayoutOf(End) == Bare && Text(End) == []
      ensures forall m: Layout :: CatLayout(Bare, m) == m
      ensures head != null ==> spine.Link? && spine.node == head && head.Holds(spine.bytes) && head in Repr
      ensures var l := LayoutOf(spine);
        if head != null && head.offset >= n then
          && l.Chunk? && n <= |l.front| && GapBytes(l, 0, n) == l.front[|l.front| - n..]
          && Opened(l, Contents(), 0, n) == l.(front := l.front[..|l.front| - n], size := l.size + n)
        else
          GapBytes(l, 0, n) == Zeros(n) && Opened(l, Contents(), 0, n) == if n > 0 then Chunk([], n, [], l) else l
    {
      if n == 0 && spine.Link? {
        var front := LayoutOf(spine).front;
        assert front[..|front|] == front && front[|front|..] == [];
      }
    }

    /** Opens a gap at the front with a chunk of its own. */
    method PrependFresh(n: nat)
      requires Valid()
      modifies this, Repr
      ensures Valid() && Contents() == Splice(old(Contents()), 0, Zeros(n))
      ensures LayoutOf(spine) == if n > 0 then Chunk([], n, [], old(LayoutOf(spine))) else old(LayoutOf(spine))
      ensures old(Repr) <= Repr && fresh(Repr - old(Repr))
    {
      hide Chain, Proper, Text, Splice;
      ghost var s := spine;
      var buffer := new Buffer(n);
      assert LayoutOf(s) == old(LayoutOf(s));
      SpliceEnds(Contents(), Zeros(n));
      SpliceFront(buffer);
    }

    method InsertFront(n: nat)
      requires Valid()
      modifies this, Repr
      ensures Valid() && GapOpened(old(Contents()), old(LayoutOf(spine)), Contents(), LayoutOf(spine), 0, n)
      ensures old(Repr) <= Repr && fresh(Repr - old(Repr))
    {
      hide Chain, Proper, Nodes, Text, Cat, LayoutOf, CatLayout, Opened, GapBytes, Splice;
      FrontFacts(n);
      if head != null && head.offset >= n {
        var g := ExtendFront(head, n, End, spine);
      } else {
        PrependFresh(n);
      }
    }

    lemma LastFacts()
      requires Valid() && tail != null
      ensures var pre, post := Front(spine), Link(tail, LastBytes(spine), End);
        && spine.Link? && spine == Cat(pre, post) && tail.Holds(post.bytes) && tail.next == null
        && |Text(pre)| + |post.bytes| == size
    {
      ChainLast(spine, head, null);
      CatFacts(Front(spine), Link(tail, LastBytes(spine), End));
    }

    /** Opens a gap at the end with a chunk of its own. */
    method AppendFresh(n: nat)
      requires Valid() && (tail != null ==> |tail.data| - tail.offset - tail.size < n)
      modifies this, Repr
      ensures Valid() && GapOpened(old(Contents()), old(LayoutOf(spine)), Contents(), LayoutOf(spine), old(size), n)
      ensures old(Repr) <= Repr && fresh(Repr - old(Repr))
    {
      hide Chain, Proper, Text, Splice, CatLayout, Opened, GapBytes, GapOpened;
      ghost var s := spine;
      FullLayout(s, head, n);
      GapAtEnd(Contents(), LayoutOf(s), n);
      var buffer := new Buffer(n);
      ghost var t := buffer.spine;
      assert LayoutOf(s) == old(LayoutOf(s));
      SpliceBack(buffer);
      LayoutCat(s, t);
    }

    /** Opening a gap behind the first `pos` bytes of `post`. */
    lemma OpenHere(pre: Spine, post: Spine, pos: nat, n: nat)
      requires Valid() && spine == Cat(pre, post) && 0 < pos && 0 < n
      ensures Opened(LayoutOf(spine), Contents(), |Text(pre)| + pos, n)
        == CatLayout(LayoutOf(pre), OpenedBehind(LayoutOf(post), Text(post), pos, n))
      ensures GapBytes(LayoutOf(spine), |Text(pre)| + pos, n) == GapBytesBehind(LayoutOf(post), pos, n)
    {
      hide Chain, Proper, Nodes, Text, Cat, LayoutOf, CatLayout, Opened, OpenedBehind, GapBytes, GapBytesBehind;
      CatFacts(pre, post);
      LayoutCat(pre, post);
      LayoutLen(post);
      OpenedCat(LayoutOf(pre), LayoutOf(post), Text(pre), Text(post), pos, n);
    }

    lemma NextOfPost(pre: Spine, post: Spine)
      requires Valid() && spine == Cat(pre, post) && post.Link? && post.rest.Link?
      ensures post.node in Repr && post.rest.node in Repr && post.node != post.rest.node
      ensures post.rest.node.Holds(post.rest.bytes)
      ensures LayoutOf(post).Chunk? && LayoutOf(post).rest == LayoutOf(post.rest) && LayoutOf(post.rest).Chunk?
      ensures Nodes(pre) <= Repr
      ensures var cur := post.node;
        && cur.offset + cur.size <= |cur.data|
        && |LayoutOf(post).back| == |cur.data| - cur.offset - cur.size
      ensures |LayoutOf(post.rest).front| == post.rest.node.offset
    {
      CatFacts(pre, post);
      ChainSplit(pre, post, head, null);
    }

    /** The slack of `cur` and part of that of the next chunk. */
    method ClaimBoth(cur: Buf, next: Buf, n: nat, ghost pre: Spine, ghost post: Spine) returns (ghost g: seq<byte>)
      requires Valid() && spine == Cat(pre, post) && post.Link? && post.node == cur
      requires cur.Holds(post.bytes) && cur.next == First(post.rest, null) == next
      requires var remain := |cur.data| - cur.offset - cur.size; remain < n <= remain + next.offset
      modifies this`size, this`spine, Repr
      ensures Valid() && |Text(pre)| + |post.bytes| <= old(size)
      ensures Contents() == Splice(old(Contents()), |Text(pre)| + |post.bytes|, g)
      ensures var l := old(LayoutOf(post));
        && l.rest.Chunk? && |l.back| < n <= |l.back| + |l.rest.front|
        && var at := |l.rest.front| - (n - |l.back|);
        && g == l.back + l.rest.front[at..]
        && LayoutOf(spine) == CatLayout(old(LayoutOf(pre)), l.(size := l.size + |l.back|, back := [],
            rest := l.rest.(front := l.rest.front[..at], size := l.rest.size + (n - |l.back|))))
    {
      hide Splice, Chain, Proper, Nodes, Text, Cat, LayoutOf, CatLayout;
      NextOfPost(pre, post);
      ghost var was, lp, l := Contents(), LayoutOf(pre), LayoutOf(post);
      var k := |cur.data| - cur.offset - cur.size;
      g := ExtendBack(cur, k, pre, post);
      ghost var one := Link(cur, post.bytes + g, post.rest);
      ghost var first := LayoutOf(Link(cur, post.bytes + g, End));
      assert l.back[..k] == l.back && l.back[k..] == [];
      StepLayout(pre, one);
      var h := ExtendFront(next, n - k, Step(pre, one), post.rest);
      ghost var m := l.rest.(front := l.rest.front[..|l.rest.front| - (n - k)], size := l.rest.size + (n - k));
      CatTwice(lp, first, m);
      OneBehind(first, m);
      SpliceTwice(was, |Text(pre)| + |post.bytes|, g, h);
      g := g + h;
    }

    /** Opens the gap behind the chunk `cur`, in the slack after it and, if need be, before the next chunk. */
    method OpenSlack(cur: Buf, n: nat, ghost pre: Spine, ghost post: Spine)
      requires Valid() && spine == Cat(pre, post) && post.Link? && post.node == cur && 0 < n
      requires cur.Holds(post.bytes) && cur.next == First(post.rest, null)
      requires var remain := |cur.data| - cur.offset - cur.size;
        remain >= n || (cur.next != null && remain + cur.next.offset >= n)
      modifies this`size, this`spine, Repr
      ensures Valid() && |Text(pre)| + |post.bytes| <= old(size)
      ensures GapOpened(old(Contents()), old(LayoutOf(spine)), Contents(), LayoutOf(spine), |Text(pre)| + |post.bytes|,
                        n)
    {
      hide Chain, Proper, Text, Cat, Splice, CatLayout, Opened, GapBytes;
      HeadOfPost(pre, post);
      OpenHere(pre, post, |post.bytes|, n);
      if n <= |cur.data| - cur.offset - cur.size {
        var g := ExtendBack(cur, n, pre, post);
      } else {
        var g := ClaimBoth(cur, cur.next, n, pre, post);
      }
    }

    method InsertBack(n: nat)
      requires Valid()
      modifies this, Repr
      ensures Valid() && GapOpened(old(Contents()), old(LayoutOf(spine)), Contents(), LayoutOf(spine), old(size), n)
      ensures old(Repr) <= Repr && fresh(Repr - old(Repr))
    {
      hide Chain, Proper, Nodes, Text, Cat;
      if tail != null && |tail.data| - tail.offset - tail.size >= n {
        ghost var pre, post := Front(spine), Link(tail, LastBytes(spine), End);
        LastFacts();
        if n > 0 {
          OpenSlack(tail, n, pre, post);
        } else {
          NoGap(Contents(), LayoutOf(spine), size);
        }
      } else {
        AppendFresh(n);
      }
    }

    /** What a gap is in front of which, and behind which, there is too little slack. */
    lemma FreshBehind(pre: Spine, post: Spine, pos: nat, n: nat)
      requires Valid() && spine == Cat(pre, post) && n > 0
      requires post.Link? && 0 < pos <= |post.bytes| && post.node.Holds(post.bytes)
      requires post.node.next == First(post.rest, null)
      requires pos == |post.bytes| ==>
        var remain := |post.node.data| - post.node.offset - post.node.size;
        remain < n && (post.node.next != null ==> remain + post.node.next.offset < n)
      ensures GapBytesBehind(LayoutOf(post), pos, n) == Zeros(n)
      ensures OpenedBehind(LayoutOf(post), Text(post), pos, n)
        == CutLayout(post, pos, Chunk([], n, [], Bare))
    {
      hide Chain, Proper, Nodes, CatLayout;
      assert Text(post)[pos..|post.bytes|] == post.bytes[pos..];
      var m := Chunk([], n, [], Bare);
      OneBehind(m, LayoutOf(post.rest));
      OneBehind(m, Chunk([], |post.bytes| - pos, [], LayoutOf(post.rest)));
    }

    /** Opens the gap with a chunk of its own. */
    method InsertFresh(cur: Buf, rest: nat, n: nat, ghost pre: Spine, ghost post: Spine)
      requires Valid() && n > 0
      requires spine == Cat(pre, post) && post.Link? && post.node == cur && 0 < rest <= |post.bytes|
      requires cur.Holds(post.bytes) && cur.next == First(post.rest, null)
      requires rest == cur.size ==>
        var remain := |cur.data| - cur.offset - cur.size;
        remain < n && (cur.next != null ==> remain + cur.next.offset < n)
      modifies this, Repr
      ensures Valid() && |Text(pre)| + rest <= old(size)
      ensures GapOpened(old(Contents()), old(LayoutOf(spine)), Contents(), LayoutOf(spine), |Text(pre)| + rest, n)
      ensures old(Repr) <= Repr && fresh(Repr - old(Repr))
    {
      hide Chain, Proper, Nodes, Text, Cat, Splice, LayoutOf, CatLayout, Opened, OpenedBehind, GapBytes, GapBytesBehind;
      HeadOfPost(pre, post);
      OpenHere(pre, post, rest, n);
      FreshBehind(pre, post, rest, n);
      var buffer := new Buffer(n);
      ghost var t := LayoutOf(buffer.spine);
      assert LayoutOf(pre) == old(LayoutOf(pre)) && CutLayout(post, rest, t) == old(CutLayout(post, rest, t));
      InsertBufAt(cur, buffer, rest, pre, post);
    }

    method Insert(skip: nat, n: nat)
      requires Valid() && skip <= size
      modifies this, Repr
      ensures Valid() && GapOpened(old(Contents()), old(LayoutOf(spine)), Contents(), LayoutOf(spine), skip, n)
      ensures old(Repr) <= Repr && fresh(Repr - old(Repr))
    {
      hide Chain, Proper, Nodes, Text, Cat, GapOpened;
      if n == 0 {
        NoGap(Contents(), LayoutOf(spine), skip);
      } else if skip == size {
        InsertBack(n);
      } else if skip == 0 {
        InsertFront(n);
      } else {
        var cur, rest, pre, post := LocateEnd(skip);
        if rest == cur.size {
          var remain := |cur.data| - cur.offset - cur.size;
          if remain >= n || (cur.next != null && remain + cur.next.offset >= n) {
            OpenSlack(cur, n, pre, post);
            return;
          }
        }
        InsertFresh(cur, rest, n, pre, post);
      }
    }

    // ---- deleting -----------------------------------------------------------------------------

    /** Cutting from the byte `pos` of `post` on. */
    lemma ShrinkHere(pre: Spine, post: Spine, pos: nat, n: nat)
      requires Valid() && spine == Cat(pre, post)
      ensures size == |Text(pre)| + |Text(post)|
      ensures Shrunk(LayoutOf(spine), Contents(), |Text(pre)| + pos, n)
        == CatLayout(LayoutOf(pre), Shrunk(LayoutOf(post), Text(post), pos, n))
    {
      hide Chain, Proper, Nodes, Text, Cat, LayoutOf, CatLayout, Shrunk;
      CatFacts(pre, post);
      LayoutCat(pre, post);
      LayoutLen(post);
      ShrunkCat(LayoutOf(pre), LayoutOf(post), Text(pre), Text(post), pos, n);
    }

    static lemma AcrossLayout(s: Spine, pos: nat, n: nat)
      requires s.Link? && 0 < pos < |s.bytes| <= pos + n
      ensures var l := LayoutOf(s);
        && l.Chunk? && l.rest == LayoutOf(s.rest)
        && Shrunk(l, Text(s), pos, n) == l.(size := pos, back := s.bytes[pos..] + l.back,
          rest := Removed(l.rest, Text(s.rest), n - (|s.bytes| - pos)))
    {
      assert Text(s)[pos..|s.bytes|] == s.bytes[pos..] && Text(s)[|s.bytes|..] == Text(s.rest);
    }

    /** Drops the bytes of a chunk from `rest` on; the chunk now belongs to what precedes the cut. */
    method Truncate(cur: Buf, rest: nat, ghost pre: Spine, ghost post: Spine, ghost pos: nat)
      returns (ghost pre2: Spine)
      requires Valid() && spine == Cat(pre, post) && post.Link? && post.node == cur
      requires cur.Holds(post.bytes) && 0 < rest < cur.size && pos == |Text(pre)| + rest
      modifies this`size, this`spine, cur`data, cur`offset, cur`size
      ensures Valid() && pos + (|post.bytes| - rest) <= old(size)
      ensures Contents() == Cut(old(Contents()), pos, |post.bytes| - rest)
      ensures spine == Cat(pre2, post.rest) && cur == Last(pre2)
      ensures |Text(pre2)| == pos && LayoutOf(post.rest) == old(LayoutOf(post.rest))
      ensures var l := old(LayoutOf(post));
        l.Chunk? && LayoutOf(pre2) == CatLayout(old(LayoutOf(pre)),
                                                l.(size := rest, back := post.bytes[rest..] + l.back, rest := Bare))
    {
      hide Chain, Proper, Nodes, Text, Cat, Cut, CatLayout;
      ghost var c := post.bytes;
      CutMiddle(Text(pre), c, Text(post.rest), rest, |c| - rest);
      CutEnd(c, rest);
      CutFront(post, rest);
      assert c[..rest] == cur.data[cur.offset..cur.offset + rest];
      MoveChunk(cur, cur.data, cur.offset, rest, c[..rest], pre, post);
      ghost var one := Link(cur, c[..rest], post.rest);
      StepLayout(pre, one);
      pre2 := Step(pre, one);
    }

    static lemma RemovedNothing(l: Layout, text: seq<byte>)
      ensures Removed(l, text, 0) == l
    {
    }

    lemma RoundFacts(pre: Spine, s: Spine)
      requires Linked() && spine == Cat(pre, s) && s.Link? && size == |Text(pre)| + |Text(s)|
      ensures s.node.Holds(s.bytes) && s.node in Repr && Last(spine) == Last(s) && size == |Text(spine)|
      ensures Nodes(pre) <= Repr && Nodes(s) <= Repr
    {
      hide Chain, Proper;
      HoldsFirst(pre, s, head);
      CatFacts(pre, s);
    }

    /** What the first chunk of `s` has to do with removing `n` bytes of `s`. */
    static lemma FirstRound(s: Spine, n: nat)
      requires s.Link? && 0 < n <= |Text(s)|
      ensures s.rest.Link? ==> Last(s.rest) == Last(s)
      ensures n < |s.bytes| ==> Last(Link(s.node, s.bytes[n..], s.rest)) == Last(s)
      ensures n >= |s.bytes| ==>
        && n - |s.bytes| <= |Text(s.rest)| && Text(s)[n..] == Text(s.rest)[n - |s.bytes|..]
        && Removed(LayoutOf(s), Text(s), n) == Removed(LayoutOf(s.rest), Text(s.rest), n - |s.bytes|)
    {
      if n >= |s.bytes| {
        DropAcross(s.bytes, Text(s.rest), n);
        assert Text(s)[|s.bytes|..] == Text(s.rest);
      }
    }

    method ShaveFront(cur: Buf, k: nat, ghost pre: Spine, ghost post: Spine)
      requires Valid() && spine == Cat(pre, post) && post.Link? && post.node == cur
      requires cur.Holds(post.bytes) && 0 < k < cur.size
      modifies this`size, this`spine, cur`data, cur`offset, cur`size
      ensures Valid() && spine == Edited(pre, post, post.bytes[k..])
      ensures k <= |Text(post)| && post.bytes[k..] + Text(post.rest) == Text(post)[k..]
      ensures LayoutOf(pre) == old(LayoutOf(pre))
      ensures LayoutOf(Link(cur, post.bytes[k..], post.rest)) == old(Removed(LayoutOf(post), Text(post), k))
    {
      hide Chain, Proper, Nodes, Cat, CatLayout;
      assert Text(post)[0..k] == post.bytes[..k];
      WindowStart(cur.data, cur.offset, post.bytes, k);
      MoveChunk(cur, cur.data, cur.offset + k, cur.size - k, post.bytes[k..], pre, post);
    }

    static lemma DropNodes(pre: Spine, post: Spine)
      requires Proper(Cat(pre, post)) && post.Link?
      ensures Nodes(Cat(pre, post)) - {post.node} == Nodes(pre) + Nodes(post.rest)
      ensures Nodes(pre) <= Nodes(Cat(pre, post)) && Nodes(post.rest) <= Nodes(Cat(pre, post))
      ensures Nodes(pre) !! Nodes(post.rest) && Proper(pre) && Proper(post.rest)
    {
      CatFacts(pre, post);
    }

    static lemma NoChunk(s: Spine)
      requires Last(s) == null
      ensures s == End && Chain(s, null, null)
    {
    }

    /** Unlinks the first chunk of `post`. */
    method DropChunk(prev: Buf?, cur: Buf, ghost pre: Spine, ghost post: Spine) returns (next: Buf?, ghost rest: Spine)
      requires Linked() && spine == Cat(pre, post) && post.Link? && post.node == cur && prev == Last(pre)
      requires cur.size <= size
      modifies this`head, this`size, this`spine, this`Repr, Repr`next
      ensures Linked() && Repr <= old(Repr) && rest == post.rest && spine == Cat(pre, rest) && next == First(rest, null)
      ensures size == old(size) - |post.bytes|
    {
      hide Cat, Text, Proper, Nodes;
      rest := post.rest;
      ChainSplit(pre, post, head, null);
      DropNodes(pre, post);
      size := size - cur.size;
      next := cur.next;
      assert Chain(post.rest, next, null);
      if prev == null {
        head := next;
        NoChunk(pre);
      } else {
        Relink(prev, next, pre, head, cur);
        assert Chain(post.rest, next, null);
      }
      Join(pre, post.rest, head, next, null);
      spine, Repr := Cat(pre, post.rest), Repr - {cur};
    }

    /** One round of `RemoveChunks`: shortens the chunk `cur`, or frees it. */
    method RemoveRound(prev: Buf?, cur: Buf, left: nat, ghost pre: Spine, ghost rest: Spine)
      returns (next: Buf?, left2: nat, ghost rest2: Spine)
      requires Linked() && spine == Cat(pre, rest) && rest.Link? && cur == rest.node && prev == Last(pre)
      requires 0 < left <= |Text(rest)| && size == |Text(pre)| + |Text(rest)| && tail == Last(rest)
      modifies this`head, this`size, this`spine, this`Repr, Repr
      ensures Linked() && Repr <= old(Repr) && spine == Cat(pre, rest2) && next == First(rest2, null)
      ensures left2 < left && left2 <= |Text(rest2)| && Text(rest2)[left2..] == Text(rest)[left..]
      ensures size == |Text(pre)| + |Text(rest2)|
      ensures rest2.Link? ==> tail == Last(rest2)
      ensures LayoutOf(pre) == old(LayoutOf(pre))
      ensures Removed(LayoutOf(rest2), Text(rest2), left2) == old(Removed(LayoutOf(rest), Text(rest), left))
    {
      hide Chain, Proper, LayoutOf, Removed;
      RoundFacts(pre, rest);
      FirstRound(rest, left);
      if left < cur.size {
        rest2 := Link(cur, rest.bytes[left..], rest.rest);
        ShaveFront(cur, left, pre, rest);
        CatFacts(pre, rest2);
        RemovedNothing(LayoutOf(rest2), Text(rest2));
        next, left2 := cur, 0;
      } else {
        left2 := left - cur.size;
        next, rest2 := DropChunk(prev, cur, pre, rest);
      }
    }

    /** Removes the first `n` bytes of `post`, freeing every chunk that becomes empty. */
    method RemoveChunks(prev: Buf?, first: Buf?, n: nat, ghost pre: Spine, ghost post: Spine, ghost pos: nat)
      requires Valid() && spine == Cat(pre, post) && first == First(post, null) && prev == Last(pre)
      requires n <= |Text(post)| && pos == |Text(pre)|
      modifies this, Repr
      ensures Valid() && pos + n <= old(size)
      ensures Contents() == Cut(old(Contents()), pos, n)
      ensures LayoutOf(spine) == CatLayout(old(LayoutOf(pre)), Removed(old(LayoutOf(post)), Text(post), n))
      ensures Repr <= old(Repr)
    {
      hide Chain, Proper, LayoutOf, CatLayout, Removed;
      var cur: Buf?, left: nat := first, n;
      ghost var rest, keep := post, Text(post)[n..];
      ghost var l, goal := LayoutOf(pre), Removed(LayoutOf(post), Text(post), n);
      CatFacts(pre, post);
      CutPrefix(Text(pre), Text(post), n);
      while left > 0
        invariant Linked() && Repr <= old(Repr)
        invariant spine == Cat(pre, rest) && cur == First(rest, null)
        invariant left <= |Text(rest)|
        invariant Text(rest)[left..] == keep
        invariant size == |Text(pre)| + |Text(rest)|
        invariant rest.Link? ==> tail == Last(rest)
        invariant LayoutOf(pre) == l && Removed(LayoutOf(rest), Text(rest), left) == goal
        decreases left
      {
        cur, left, rest := RemoveRound(prev, cur, left, pre, rest);
      }
      CatFacts(pre, rest);
      LayoutCat(pre, rest);
      RemovedNothing(LayoutOf(rest), Text(rest));
      if cur == null {
        tail := prev;
      }
    }

    /** What a walker standing in front of `post` knows. */
    lemma CursorAt(pre: Spine, post: Spine)
      requires Valid() && spine == Cat(pre, post)
      ensures |Text(pre)| + |Text(post)| == size && (|Text(pre)| < size ==> post.Link?)
      ensures post.Link? ==>
        && post.node in Repr && post.node.Holds(post.bytes) && post.node.next == First(post.rest, null)
        && |post.bytes| <= |Text(post)|
    {
      CatFacts(pre, post);
      ChainSplit(pre, post, head, null);
    }

    static lemma TextFirst(s: Spine)
      requires s.Link?
      ensures Text(s) == s.bytes + Text(s.rest)
    {
    }

    /** Removes the end of one chunk and the start of what follows it. */
    method ShrinkAcross(cur: Buf, rest: nat, n: nat, ghost pre: Spine, ghost post: Spine, ghost pos: nat)
      requires Valid() && spine == Cat(pre, post) && post.Link? && post.node == cur
      requires cur.Holds(post.bytes) && cur.next == First(post.rest, null)
      requires 0 < rest < cur.size <= rest + n && pos == |Text(pre)| + rest && pos + n <= size
      modifies this, Repr
      ensures Valid() && Contents() == Cut(old(Contents()), pos, n)
      ensures LayoutOf(spine) == CatLayout(old(LayoutOf(pre)), Shrunk(old(LayoutOf(post)), Text(post), rest, n))
      ensures Repr <= old(Repr)
    {
      hide Cut, Chain, Proper, Nodes, Text, Cat, LayoutOf, CatLayout, Removed, Shrunk;
      CursorAt(pre, post);
      TextFirst(post);
      var k := cur.size - rest;
      CutTwice(Contents(), pos, k, n);
      AcrossLayout(post, rest, n);
      ghost var l := LayoutOf(post);
      ghost var first := l.(size := rest, back := post.bytes[rest..] + l.back, rest := Bare);
      ghost var m := Removed(l.rest, Text(post.rest), n - k);
      CatTwice(LayoutOf(pre), first, m);
      OneBehind(first, m);
      var pre2 := Truncate(cur, rest, pre, post, pos);
      CursorAt(pre2, post.rest);
      RemoveChunks(cur, cur.next, n - k, pre2, post.rest, pos);
    }

    static lemma RemoveAll(s: Spine, n: nat)
      requires s.Link? && s.bytes != []
      ensures Shrunk(LayoutOf(s), Text(s), 0, n) == Removed(LayoutOf(s), Text(s), n)
    {
    }

    /** What is left in the store behind the bytes that were moved. */
    static lemma CloseUpSlack(data: seq<byte>, offset: nat, size: nat, rest: nat, n: nat)
      requires offset + size <= |data| && rest + n <= size
      ensures var moved := Overwrite(data, offset + rest, data[offset + rest + n..offset + size]);
        && |moved| == |data| && moved[..offset] == data[..offset]
        && moved[offset + size - n..] == data[offset..offset + size][size - n..] + data[offset + size..]
    {
    }

    /** Removes `n` bytes from the middle of one chunk by moving the bytes behind them. */
    method CloseUp(cur: Buf, rest: nat, n: nat, ghost pre: Spine, ghost post: Spine)
      requires Valid() && spine == Cat(pre, post) && post.Link? && post.node == cur
      requires cur.Holds(post.bytes) && 0 < rest && rest + n < cur.size
      modifies this`size, this`spine, cur`data, cur`offset, cur`size
      ensures Valid() && |Text(pre)| + rest + n <= old(size)
      ensures Contents() == Cut(old(Contents()), |Text(pre)| + rest, n)
      ensures LayoutOf(spine) == CatLayout(old(LayoutOf(pre)), Shrunk(old(LayoutOf(post)), Text(post), rest, n))
    {
      hide Cut, Overwrite, Chain, Proper, Nodes, Cat, CatLayout;
      var at, end := cur.offset + rest, cur.offset + cur.size;
      var data := Overwrite(cur.data, at, cur.data[at + n..end]);
      WindowCut(cur.data, cur.offset, cur.size, rest, n);
      CutMiddle(Text(pre), post.bytes, Text(post.rest), rest, n);
      CloseUpSlack(cur.data, cur.offset, cur.size, rest, n);
      assert Text(post)[cur.size - n..cur.size] == post.bytes[cur.size - n..];
      MoveChunk(cur, data, cur.offset, cur.size - n, Cut(post.bytes, rest, n), pre, post);
    }

    /** Removes the `n` bytes at `skip`. */
    method Shrink(skip: nat, n: nat)
      requires Valid() && skip < size && skip + n <= size
      modifies this, Repr
      ensures Valid() && Contents() == Cut(old(Contents()), skip, n)
      ensures LayoutOf(spine) == Shrunk(old(LayoutOf(spine)), old(Contents()), skip, n)
      ensures Repr <= old(Repr)
    {
      hide Chain, Proper, Nodes, Text, Cat, Cut, LayoutOf, CatLayout, Shrunk, Removed;
      var cur, rest, prev, pre, post := LocateInside(skip);
      HeadOfPost(pre, post);
      ShrinkHere(pre, post, rest, n);
      if rest == 0 {
        RemoveAll(post, n);
        RemoveChunks(prev, cur, n, pre, post, skip);
      } else if n < cur.size - rest {
        CloseUp(cur, rest, n, pre, post);
      } else {
        ShrinkAcross(cur, rest, n, pre, post, skip);
      }
    }

    method ShrinkFront(n: nat)
      requires Valid() && 0 < size && n <= size
      modifies this, Repr
      ensures Valid() && Contents() == old(Contents())[n..] && Repr <= old(Repr)
      ensures LayoutOf(spine) == Shrunk(old(LayoutOf(spine)), old(Contents()), 0, n)
    {
      Shrink(0, n);
    }

    method ShrinkBack(n: nat)
      requires Valid() && 0 < n <= size
      modifies this, Repr
      ensures Valid() && Contents() == old(Contents())[..old(size) - n] && Repr <= old(Repr)
      ensures LayoutOf(spine) == Shrunk(old(LayoutOf(spine)), old(Contents()), old(size) - n, n)
    {
      Shrink(size - n, n);
    }

    // ---- splitting ----------------------------------------------------------------------------

    static method FromList(buf: Buf?, n: nat, ghost s: Spine, ghost R: set<Buf>) returns (b: Buffer)
      requires Chain(s, buf, null) && Proper(s) && R == Nodes(s) && n == |Text(s)| > 0
      ensures fresh(b) && b.Valid() && b.spine == s && b.Repr == R
    {
      b := new Buffer(0);
      b.head, b.size := buf, n;
      b.spine, b.Repr := s, R;
      b.ResetTail();
    }

    method ResetTail()
      requires Linked() && head != null
      modifies this`tail
      ensures tail == Last(spine) && Linked()
    {
      var current: Buf := head;
      ghost var rest := spine;
      while current.next != null
        invariant Linked() && Chain(rest, current, null) && rest.Link? && Last(rest) == Last(spine)
        decreases rest
      {
        current := current.next;
        rest := rest.rest;
      }
      tail := current;
    }

    /** Gives the list `back` to a new buffer and keeps the list `front`. */
    method Detach(buf: Buf?, skip: nat, ghost front: Spine, ghost back: Spine, ghost all: set<Buf>)
      returns (b: Buffer)
      requires Chain(front, head, null) && Proper(front) && Chain(back, buf, null) && Proper(back)
      requires Nodes(front) !! Nodes(back) && Nodes(front) + Nodes(back) == all
      requires 0 < skip == |Text(front)| < size == |Text(front)| + |Text(back)|
      modifies this
      ensures Valid() && Contents() == Text(front) && Repr == Nodes(front)
      ensures fresh(b) && b.Valid() && b.Contents() == Text(back) && b.Repr == Nodes(back)
    {
      b := FromList(buf, size - skip, back, all * Nodes(back));
      size := skip;
      spine, Repr := front, all * Nodes(front);
      ResetTail();
    }

    /** Keeps the first `skip` bytes and hands back the rest. */
    method Break(skip: nat) returns (b: Buffer)
      requires Valid() && 0 < skip < size
      modifies this, Repr
      ensures Valid() && Contents() == old(Contents())[..skip]
      ensures fresh(b) && b.Valid() && b.Contents() == old(Contents())[skip..]
      ensures Apart(b) && Repr <= old(Repr) && fresh(b.Repr - old(Repr))
    {
      var cur, rest, pre, post := LocateEnd(skip);
      CatFacts(pre, post);
      ghost var nodes, whole := Repr, Contents();
      var buf := SplitAt(cur, rest, pre, post, head, Repr);
      ghost var front, back := FrontOf(pre, post, rest), BackOf(post, rest, buf);
      CutFacts(pre, post, rest, buf);
      CutText(pre, post, rest, buf);
      ghost var all := nodes + if rest < |post.bytes| then {buf} else {};
      b := Detach(buf, skip, front, back, all);
      assert whole[..skip] == Text(front) && whole[skip..] == Text(back);
    }

    // ---- copying ------------------------------------------------------------------------------

    /** What lies behind a cursor. */
    lemma CursorFacts(pre: Spine, post: Spine, at: nat, n: nat)
      requires Valid() && spine == Cat(pre, post) && |Text(pre)| + at + n <= size
      ensures Chain(post, First(post, null), null) && Nodes(post) <= Repr && at + n <= |Text(post)|
      ensures Window(Contents(), |Text(pre)| + at, n) == Window(Text(post), at, n)
    {
      CatFacts(pre, post);
      ChainSplit(pre, post, head, null);
      SliceBehind(Text(pre), Text(post), at, n);
    }

    static lemma LaterChunk(s: Spine, p: Buf?)
      requires Chain(s, p, null)
      ensures Text(s) != [] ==> s.Link? && s.bytes != []
    {
    }

    /** What the chunk `cur` has to copy from `at` on, at most `left` bytes and at most `room`; and the cursor
        behind it. */
    static method ReadSome(cur: Buf, at: nat, left: nat, room: nat, ghost post: Spine, ghost got: seq<byte>)
      returns (w: seq<byte>, next: Buf?, at2: nat, ghost post2: Spine)
      requires Chain(post, cur, null) && post.Link? && at < |post.bytes| && at + left <= |Text(post)|
      requires left > 0 && room > 0
      ensures 0 < |w| <= left && |w| <= room && at + |w| <= |post.bytes|
      ensures Chain(post2, next, null) && Nodes(post2) <= Nodes(post)
      ensures at2 + (left - |w|) <= |Text(post2)|
      ensures got + Window(Text(post), at, left) == (got + w) + Window(Text(post2), at2, left - |w|)
      ensures left > |w| ==> post2.Link? && at2 < |post2.bytes|
    {
      hide Window, Text;
      TextFirst(post);
      LaterChunk(post.rest, cur.next);
      var k := Min(cur.size - at, Min(left, room));
      w := cur.data[cur.offset + at..cur.offset + at + k];
      ghost var c, t := post.bytes, Text(post.rest);
      ReadFacts(c, t, at, k, left, got);
      WindowInside(cur.data, cur.offset, cur.size, at, k);
      if at + k == cur.size {
        next, at2, post2 := cur.next, 0, post.rest;
      } else {
        next, at2, post2 := cur, at + k, post;
      }
    }

    /** The `n` bytes at `skip`, as copied into the caller's memory. */
    method GetData(skip: nat, n: nat) returns (target: seq<byte>)
      requires Valid() && skip < size && skip + n <= size
      ensures target == Window(Contents(), skip, n)
    {
      hide Window, Text, Nodes, Last, Cat, Proper;
      var first, rest, prev, pre, post := LocateInside(skip);
      var cur: Buf?, at: nat, left: nat := first, rest, n;
      CursorFacts(pre, post, at, n);
      target := [];
      ghost var goal := Window(Contents(), skip, n);
      assert target + Window(Text(post), at, left) == goal;
      while left > 0
        invariant Chain(post, cur, null)
        invariant left > 0 ==> post.Link? && at < |post.bytes|
        invariant at + left <= |Text(post)|
        invariant target + Window(Text(post), at, left) == goal
        decreases left
      {
        var w;
        w, cur, at, post := ReadSome(cur, at, left, left, post, target);
        target := target + w;
        left := left - |w|;
      }
      WindowNothing(Text(post), at);
    }

    /** Overwrites part of the first chunk of `post`. */
    method WriteChunk(cur: Buf, at: nat, w: seq<byte>, ghost pre: Spine, ghost post: Spine, ghost pos: nat)
      requires Valid() && spine == Cat(pre, post) && post.Link? && post.node == cur
      requires cur.Holds(post.bytes) && at + |w| <= |post.bytes| && pos == |Text(pre)| + at
      modifies this`size, this`spine, cur`data, cur`offset, cur`size
      ensures Valid() && spine == Edited(pre, post, Overwrite(post.bytes, at, w))
      ensures size == old(size) && cur.size == old(cur.size) && pos + |w| <= size
      ensures LayoutOf(spine) == old(LayoutOf(spine))
      ensures Contents() == Overwrite(old(Contents()), pos, w)
    {
      hide Overwrite, Chain, Proper, Nodes, Cat;
      var data := Overwrite(cur.data, cur.offset + at, w);
      WindowWrite(cur.data, cur.offset, cur.size, at, w);
      OverwriteAround(cur.data, cur.offset, cur.size, at, w);
      OverwriteMiddle(Text(pre), post.bytes, Text(post.rest), at, w);
      EditInPlace(cur, data, Overwrite(post.bytes, at, w), pre, post);
    }

    /** One round of a write: puts `w` into the chunk `cur` and moves the cursor behind it. */
    method WriteSome(cur: Buf, at: nat, w: seq<byte>, ghost pre: Spine, ghost post: Spine,
                     ghost offset: nat, ghost was: seq<byte>, ghost got: seq<byte>)
      returns (next: Buf?, at2: nat, ghost pre2: Spine, ghost post2: Spine)
      requires Valid() && spine == Cat(pre, post) && post.Link? && post.node == cur && at + |w| <= |post.bytes|
      requires offset + |got| == |Text(pre)| + at && |was| == size && offset + |got| + |w| <= size
      requires Contents() == Overwrite(was, offset, got)
      modifies this`size, this`spine, Repr
      ensures Valid() && size == old(size) && LayoutOf(spine) == old(LayoutOf(spine))
      ensures Contents() == Overwrite(was, offset, got + w)
      ensures spine == Cat(pre2, post2) && next == First(post2, null)
      ensures |Text(pre2)| + at2 == offset + |got| + |w|
      ensures offset + |got| + |w| < size ==> post2.Link? && at2 < next.size == |post2.bytes|
    {
      hide Overwrite, Chain, Proper, Nodes, Text, Cat;
      CursorAt(pre, post);
      ghost var c := Overwrite(post.bytes, at, w);
      ghost var grown := Link(cur, c, post.rest);
      OverwriteTwice(was, offset, got, w);
      OverwriteSize(post.bytes, at, w);
      WriteChunk(cur, at, w, pre, post, offset + |got|);
      CursorAt(pre, grown);
      if at + |w| == cur.size {
        next, at2, pre2, post2 := cur.next, 0, Step(pre, grown), post.rest;
        CursorAt(pre2, post2);
      } else {
        next, at2, pre2, post2 := cur, at + |w|, pre, grown;
      }
    }

    /** Copies the caller's memory over the bytes at `skip`. */
    method SetData(skip: nat, source: seq<byte>)
      requires Valid() && skip < size && skip + |source| <= size
      modifies this, Repr
      ensures Valid() && Contents() == Overwrite(old(Contents()), skip, source)
      ensures Repr == old(Repr) && size == old(size) && LayoutOf(spine) == old(LayoutOf(spine))
    {
      hide Overwrite, Text, Cat, Nodes, Last, Chain, Proper;
      var first, rest, prev, pre, post := LocateInside(skip);
      var cur: Buf?, at: nat, done: nat := first, rest, 0;
      ghost var was := Contents();
      OverwriteNothing(was, skip, source);
      while done < |source|
        invariant Valid() && Repr == old(Repr) && size == |was| && spine == Cat(pre, post)
        invariant LayoutOf(spine) == old(LayoutOf(spine))
        invariant done <= |source| && cur == First(post, null)
        invariant done < |source| ==> at + |Text(pre)| == skip + done && post.Link? && at < cur.size == |post.bytes|
        invariant Contents() == Overwrite(was, skip, source[..done])
        decreases |source| - done
      {
        var k := Min(|source| - done, cur.size - at);
        assert source[..done] + source[done..done + k] == source[..done + k];
        cur, at, pre, post := WriteSome(cur, at, source[done..done + k], pre, post, skip, was, source[..done]);
        done := done + k;
      }
      assert source[..done] == source;
    }

    /** One round of the copy. */
    method CopyRound(scur: Buf, sat: nat, ghost spost: Spine, left: nat,
                     target: Buffer, tcur: Buf, tat: nat, ghost tpre: Spine, ghost tpost: Spine,
                     ghost offset: nat, ghost was: seq<byte>, ghost got: seq<byte>)
      returns (scur2: Buf?, sat2: nat, ghost spost2: Spine,
               tcur2: Buf?, tat2: nat, ghost tpre2: Spine, ghost tpost2: Spine, w: seq<byte>)
      requires target.Valid() && Apart(target) && target.size == |was| && 0 < left && offset + |got| + left <= |was|
      requires Chain(spost, scur, null) && Nodes(spost) <= Repr && sat + left <= |Text(spost)|
      requires spost.Link? && sat < |spost.bytes|
      requires target.spine == Cat(tpre, tpost) && tpost.Link? && tcur == tpost.node && tat < tcur.size == |tpost.bytes|
      requires |Text(tpre)| + tat == offset + |got|
      requires target.Contents() == Overwrite(was, offset, got)
      modifies target`size, target`spine, target.Repr
      ensures 0 < |w| <= left && target.Valid() && target.size == |was|
      ensures Chain(spost2, scur2, null) && Nodes(spost2) <= Repr && sat2 + (left - |w|) <= |Text(spost2)|
      ensures target.spine == Cat(tpre2, tpost2) && tcur2 == First(tpost2, null)
      ensures |Text(tpre2)| + tat2 == offset + |got + w|
      ensures left > |w| ==>
        spost2.Link? && sat2 < |spost2.bytes| && tpost2.Link? && tat2 < tcur2.size == |tpost2.bytes|
      ensures got + Window(Text(spost), sat, left) == (got + w) + Window(Text(spost2), sat2, left - |w|)
      ensures target.Contents() == Overwrite(was, offset, got + w)
    {
      hide Overwrite, Window, Text, Cat, Nodes, Last;
      w, scur2, sat2, spost2 := ReadSome(scur, sat, left, tcur.size - tat, spost, got);
      tcur2, tat2, tpre2, tpost2 := target.WriteSome(tcur, tat, w, tpre, tpost, offset, was, got);
    }

    /** The copy, from a cursor in the source to a cursor in the target. */
    method CopyRun(sfirst: Buf, from: nat, ghost s: Spine, n: nat,
                   target: Buffer, tfirst: Buf, to: nat, ghost t: Spine, ghost u: Spine, ghost offset: nat)
      requires target.Valid() && Apart(target) && offset + n <= target.size
      requires Chain(s, sfirst, null) && Nodes(s) <= Repr && from + n <= |Text(s)| && s.Link? && from < |s.bytes|
      requires target.spine == Cat(t, u) && u.Link? && tfirst == u.node && to < tfirst.size == |u.bytes|
      requires |Text(t)| + to == offset
      modifies target`size, target`spine, target.Repr
      ensures target.Valid() && target.size == old(target.size)
      ensures target.Contents() == Overwrite(old(target.Contents()), offset, Window(Text(s), from, n))
    {
      var scur: Buf?, tcur: Buf?, sat: nat, tat: nat, left: nat := sfirst, tfirst, from, to, n;
      ghost var spost, tpre, tpost := s, t, u;
      ghost var was, goal, got := target.Contents(), Window(Text(s), from, n), [];
      OverwriteNothing(was, offset, got);
      assert got + goal == goal;
      var w: seq<byte>;
      hide Overwrite, Window, Text, Cat, Nodes, Last;
      while left > 0
        invariant target.Valid() && target.size == |was|
        invariant Chain(spost, scur, null) && Nodes(spost) <= Repr && sat + left <= |Text(spost)|
        invariant target.spine == Cat(tpre, tpost) && tcur == First(tpost, null)
        invariant |Text(tpre)| + tat == offset + |got| && |got| + left == n
        invariant left > 0 ==> spost.Link? && sat < |spost.bytes| && tpost.Link? && tat < tcur.size == |tpost.bytes|
        invariant got + Window(Text(spost), sat, left) == goal
        invariant target.Contents() == Overwrite(was, offset, got)
        decreases left
      {
        scur, sat, spost, tcur, tat, tpre, tpost, w :=
          CopyRound(scur, sat, spost, left, target, tcur, tat, tpre, tpost, offset, was, got);
        got := got + w;
        left := left - |w|;
      }
      assert got + Window(Text(spost), sat, 0) == got by {
        WindowNothing(Text(spost), sat);
      }
    }

    /** Copies the `n` bytes at `skip` over the bytes of `target` at `offset`. */
    method GetDataInto(skip: nat, n: nat, target: Buffer, offset: nat)
      requires Valid() && target.Valid() && Apart(target)
      requires skip < size && skip + n <= size && offset < target.size && offset + n <= target.size
      modifies target, target.Repr
      ensures Valid() && target.Valid() && target.Repr == old(target.Repr) && target.size == old(target.size)
      ensures target.Contents() == Overwrite(old(target.Contents()), offset, Window(Contents(), skip, n))
    {
      hide Overwrite, Window, Text, Cat, Nodes, Last, Chain, Proper;
      var tcur, tat, tprev, tpre, tpost := target.LocateInside(offset);
      var scur, sat, sprev, spre, spost := LocateInside(skip);
      CursorFacts(spre, spost, sat, n);
      CopyRun(scur, sat, spost, n, target, tcur, tat, tpre, tpost, offset);
    }

    // ---- visiting chunks ----------------------------------------------------------------------

    static lemma ConcatNothing()
      ensures Concat([]) == []
    {
    }

    /** The rest of the first chunk of `s` is visited. */
    static lemma WalkStep(visited: seq<seq<byte>>, s: Spine, at: nat, chunk: seq<byte>, goal: seq<byte>)
      requires s.Link? && at <= |s.bytes| && chunk == s.bytes[at..] && Concat(visited) + Text(s)[at..] == goal
      ensures Concat(visited + [chunk]) + Text(s.rest)[0..] == goal && Concat(visited + [chunk]) <= goal
    {
      var t := Text(s.rest);
      ConcatPush(visited, chunk);
      assert Text(s)[at..] == chunk + t[0..];
      Assoc(Concat(visited), chunk, t[0..]);
    }

    static method WalkFrom(first: Buf, from: nat, walker: seq<byte> -> bool, ghost s: Spine)
      returns (visited: seq<seq<byte>>)
      requires Chain(s, first, null) && s.Link? && from < |s.bytes|
      ensures visited != [] && Concat(visited) <= Text(s)[from..]
      ensures forall i :: 0 <= i < |visited| ==> |visited[i]| > 0
      ensures forall i :: 0 <= i < |visited| - 1 ==> walker(visited[i])
      ensures walker(visited[|visited| - 1]) ==> Concat(visited) == Text(s)[from..]
    {
      hide Concat, Nodes, Text;
      var cur: Buf?, at: nat := first, from;
      ghost var rest := s;
      TextFirst(s);
      EmptyFacts();
      ghost var goal := Text(s)[from..];
      visited := [];
      ConcatNothing();
      while cur != null
        invariant Chain(rest, cur, null) && (rest.Link? ==> at < |rest.bytes|) && (rest.End? ==> at == 0)
        invariant rest.End? ==> visited != []
        invariant forall i :: 0 <= i < |visited| ==> |visited[i]| > 0 && walker(visited[i])
        invariant at <= |Text(rest)| && Concat(visited) + Text(rest)[at..] == goal
        decreases rest
      {
        var chunk := cur.data[cur.offset + at..cur.offset + cur.size];
        WindowInside(cur.data, cur.offset, cur.size, at, cur.size - at);
        WalkStep(visited, rest, at, chunk, goal);
        visited := visited + [chunk];
        if !walker(chunk) {
          return;
        }
        cur, rest, at := cur.next, rest.rest, 0;
      }
    }

    /** The chunks the walker is handed, in order, from byte `from` on, until it returns false. */
    method WalkInternalChunk(from: nat, walker: seq<byte> -> bool) returns (visited: seq<seq<byte>>)
      requires Valid() && from <= size
      ensures Concat(visited) <= Contents()[from..]
      ensures forall i :: 0 <= i < |visited| ==> |visited[i]| > 0
      ensures forall i :: 0 <= i < |visited| - 1 ==> walker(visited[i])
      ensures visited == [] || walker(visited[|visited| - 1]) ==> Concat(visited) == Contents()[from..]
    {
      visited := [];
      if from == size {
        return;
      }
      var cur, at, prev, pre, post := LocateInside(from);
      CatFacts(pre, post);
      ChainSplit(pre, post, head, null);
      assert Contents()[from..] == Text(post)[at..];
      visited := WalkFrom(cur, at, walker, post);
    }

    /** The stream offset of a pointer, given as a chunk and an index into its store; `size` for a foreign pointer. */
    method FindLocation(b: Buf, k: nat) returns (offset: nat, ghost pre: Spine, ghost post: Spine)
      requires Valid()
      ensures spine == Cat(pre, post)
      ensures b in Repr && b.offset <= k < b.offset + b.size ==>
        && post.Link? && post.node == b && offset == |Text(pre)| + (k - b.offset)
        && offset < size && k < |b.data| && Contents()[offset] == b.data[k]
      ensures !(b in Repr && b.offset <= k < b.offset + b.size) ==> offset == size
    {
      hide Proper, Text, Nodes;
      var cur := head;
      offset, pre, post := 0, End, spine;
      EmptyFacts();
      while cur != null
        invariant spine == Cat(pre, post) && Chain(post, cur, null) && offset == |Text(pre)|
        invariant b in Nodes(pre) ==> !(b.offset <= k < b.offset + b.size)
        decreases post
      {
        if cur == b && cur.offset <= k < cur.offset + cur.size {
          offset := offset + (k - cur.offset);
          FoundFacts(pre, post, k);
          return;
        }
        offset := offset + cur.size;
        StepNodes(pre, post);
        pre := Step(pre, post);
        cur, post := cur.next, post.rest;
      }
      CatFacts(pre, post);
      EmptyFacts();
    }

    // ---- indexing -----------------------------------------------------------------------------

    /** `buffer[index]`: indexes the store of the chunk without adding its offset. */
    method At(index: nat) returns (v: byte, ghost skew: nat)
      requires Valid() && index < size
      ensures skew == Skew(LayoutOf(spine), index) && (!InSlack(LayoutOf(spine), index) ==> skew <= index)
      ensures v == if InSlack(LayoutOf(spine), index) then Slack(LayoutOf(spine), index) else Contents()[index - skew]
    {
      var cur, rest, prev, pre, post := LocateInside(index);
      CatFacts(pre, post);
      IndexInside(pre, post, rest);
      skew := cur.offset;
      v := cur.data[rest];
      if skew <= rest {
        TextAt(Text(pre), post.bytes, Text(post.rest), rest - skew);
      }
    }

    lemma PokeHere(pre: Spine, post: Spine, k: nat, v: byte)
      requires Valid() && spine == Cat(pre, post) && post.Link? && k < |post.bytes| && k < |LayoutOf(post).front|
      requires InSlack(LayoutOf(spine), |Text(pre)| + k)
      ensures var l := LayoutOf(post);
        Poked(LayoutOf(spine), |Text(pre)| + k, v) == CatLayout(LayoutOf(pre), l.(front := l.front[k := v]))
    {
      hide Chain, Proper, Nodes, CatLayout;
      LayoutCat(pre, post);
      IndexCat(LayoutOf(pre), LayoutOf(post), k);
      assert InSlack(LayoutOf(post), k);
      assert Poked(LayoutOf(post), k, v) == LayoutOf(post).(front := LayoutOf(post).front[k := v]);
    }

    static lemma PokeStore(data: seq<byte>, offset: nat, size: nat, k: nat, v: byte)
      requires offset + size <= |data| && k < offset
      ensures var data2 := data[k := v];
        && data2[..offset] == data[..offset][k := v] && data2[offset + size..] == data[offset + size..]
        && data2[offset..offset + size] == data[offset..offset + size]
    {
    }

    /** A write in front of the live bytes of a chunk changes no byte of the buffer. */
    method WriteSlack(cur: Buf, k: nat, v: byte, ghost pre: Spine, ghost post: Spine)
      requires Valid() && spine == Cat(pre, post) && post.Link? && post.node == cur
      requires cur.Holds(post.bytes) && k < cur.offset && k < cur.size
      requires InSlack(LayoutOf(spine), |Text(pre)| + k)
      modifies this`size, this`spine, cur`data, cur`offset, cur`size
      ensures Valid() && spine == old(spine) && size == old(size)
      ensures LayoutOf(spine) == old(Poked(LayoutOf(spine), |Text(pre)| + k, v))
    {
      hide Chain, Proper, Nodes, Text, Cat, CatLayout, InSlack, Poked;
      PokeHere(pre, post, k, v);
      PokeStore(cur.data, cur.offset, cur.size, k, v);
      var data := cur.data[k := v];
      MoveChunk(cur, data, cur.offset, cur.size, post.bytes, pre, post);
    }

    method Store(index: nat, v: byte) returns (ghost skew: nat, ghost inSlack: bool)
      requires Valid() && index < size
      modifies this`size, this`spine, Repr
      ensures Valid() && size == old(size)
      ensures skew == old(Skew(LayoutOf(spine), index)) && inSlack == old(InSlack(LayoutOf(spine), index))
      ensures (inSlack ==> skew > 0) && (inSlack || skew <= index)
      ensures Contents() == if inSlack then old(Contents()) else old(Contents())[index - skew := v]
      ensures LayoutOf(spine) == old(if inSlack then Poked(LayoutOf(spine), index, v) else LayoutOf(spine))
    {
      hide Chain, Proper, Nodes, Cat, CatLayout;
      var cur, rest, prev, pre, post := LocateInside(index);
      HeadOfPost(pre, post);
      IndexInside(pre, post, rest);
      skew, inSlack := cur.offset, rest < cur.offset;
      if rest < cur.offset {
        WriteSlack(cur, rest, v, pre, post);
      } else {
        OverwriteOne(Contents(), index - skew, v);
        hide Overwrite;
        WriteChunk(cur, rest - cur.offset, [v], pre, post, index - skew);
      }
    }

    /** `buffer[index] = v`: the write lands `skew` bytes in front of the byte it names, or in the slack there. */
    method SetAt(index: nat, v: byte) returns (ghost skew: nat, ghost inSlack: bool)
      requires Valid() && index < size
      modifies this, Repr
      ensures Valid() && Repr == old(Repr) && size == old(size)
      ensures skew == old(Skew(LayoutOf(spine), index)) && inSlack == old(InSlack(LayoutOf(spine), index))
      ensures inSlack || skew <= index
      ensures Contents() == if inSlack then old(Contents()) else old(Contents())[index - skew := v]
      ensures LayoutOf(spine) == old(if inSlack then Poked(LayoutOf(spine), index, v) else LayoutOf(spine))
      ensures var s := old(Contents());
        Contents() == s[index := v] <==> skew == 0 || (s[index] == v && (inSlack || s[index - skew] == v))
    {
      ghost var was := Contents();
      WriteNothing(was, index, v);
      skew, inSlack := Store(index, v);
      if !inSlack {
        WriteElsewhere(was, index - skew, index, v);
      }
    }
  }

  // ---- operations that undo each other --------------------------------------------------------

  /** Splitting a buffer and appending the second part again restores it. */
  method BreakAndRejoin(buffer: Buffer, skip: nat)
    requires buffer.Valid() && 0 < skip < buffer.size
    modifies buffer, buffer.Repr
    ensures buffer.Valid() && buffer.Contents() == old(buffer.Contents())
  {
    hide Chain, Proper, Nodes, Text;
    var b := buffer.Break(skip);
    buffer.SpliceBack(b);
  }

  /** What has been written is read back. */
  method WriteAndRead(buffer: Buffer, skip: nat, source: seq<byte>) returns (target: seq<byte>)
    requires buffer.Valid() && skip < buffer.size && skip + |source| <= buffer.size
    modifies buffer, buffer.Repr
    ensures buffer.Valid() && target == source
  {
    ghost var was := buffer.Contents();
    buffer.SetData(skip, source);
    target := buffer.GetData(skip, |source|);
    assert Overwrite(was, skip, source)[skip..skip + |source|] == source;
  }

  /** An inserted gap that is cut out again leaves the contents as they were. */
  method InsertAndShrink(buffer: Buffer, skip: nat, n: nat)
    requires buffer.Valid() && skip < buffer.size
    modifies buffer, buffer.Repr
    ensures buffer.Valid() && buffer.Contents() == old(buffer.Contents())
  {
    hide Chain, Proper, Nodes, Text;
    ghost var was := buffer.Contents();
    ghost var l := LayoutOf(buffer.spine);
    buffer.Insert(skip, n);
    GapOpenedFacts(was, l, buffer.Contents(), LayoutOf(buffer.spine), skip, n);
    GapFacts(was, buffer.Contents(), skip, n);
    buffer.Shrink(skip, n);
  }

  // ---- buffers and byte strings ---------------------------------------------------------------

  method BufferOf(text: seq<byte>) returns (buffer: Buffer)
    ensures buffer.Valid() && fresh(buffer) && fresh(buffer.Repr) && buffer.Contents() == text
    ensures LayoutOf(buffer.spine) == if text == [] then Bare else Chunk([], |text|, [], Bare)
  {
    buffer := new Buffer(|text|);
    if text != [] {
      buffer.SetData(0, text);
    }
  }

  method TextOf(buffer: Buffer) returns (text: seq<byte>)
    requires buffer.Valid()
    ensures text == buffer.Contents()
  {
    text := [];
    if buffer.size > 0 {
      text := buffer.GetData(0, buffer.size);
    }
  }

  // ---- indexing a chunk with an offset --------------------------------------------------------

  /** The indexing operator goes astray in a buffer that has been shrunk at its front: a write to its second byte
      lands on the first, and a write to its first byte is lost. */
  method IndexAstray() returns (before: seq<byte>, after: seq<byte>, last: seq<byte>)
    ensures before == [2, 3]
    ensures after == [7, 3] != before[1 := 7]
    ensures last == after != after[0 := 9]
  {
    hide Chain, Proper, Nodes, Text;
    var buffer := BufferOf([1, 2, 3]);
    buffer.ShrinkFront(1);
    before := TextOf(buffer);
    var skew, inSlack := buffer.SetAt(1, 7);
    after := TextOf(buffer);
    skew, inSlack := buffer.SetAt(0, 9);
    last := TextOf(buffer);
  }

  /** It goes astray even where the byte it names has the value already: the byte in front is overwritten. */
  method IndexHarms() returns (before: seq<byte>, after: seq<byte>)
    ensures before == [2, 7] == before[1 := 7] && after == [7, 7]
  {
    hide Chain, Proper, Nodes, Text;
    var buffer := BufferOf([1, 2, 7]);
    buffer.ShrinkFront(1);
    before := TextOf(buffer);
    var skew, inSlack := buffer.SetAt(1, 7);
    after := TextOf(buffer);
  }
}
