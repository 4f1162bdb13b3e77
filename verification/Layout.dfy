/** How the bytes of a rope lie in the stores of its chunks, and what the rope's operations do to that. */
module Layouts {
  import opened Bytes

  /** For each chunk the slack in front of its live bytes, their number, and the slack behind them. */
  datatype Layout = Bare | Chunk(front: seq<byte>, size: nat, back: seq<byte>, rest: Layout)

  function Len(l: Layout): nat
  {
    if l.Bare? then 0 else l.size + Len(l.rest)
  }

  function CatLayout(l: Layout, m: Layout): Layout
  {
    if l.Bare? then m else l.(rest := CatLayout(l.rest, m))
  }

  lemma {:induction false} CatTwice(l: Layout, m: Layout, k: Layout)
    ensures CatLayout(CatLayout(l, m), k) == CatLayout(l, CatLayout(m, k))
  {
    if l.Bare? {
    } else {
      CatTwice(l.rest, m, k);
    }
  }

  lemma OneBehind(l: Layout, m: Layout)
    requires l.Chunk? && l.rest.Bare?
    ensures CatLayout(l, m) == l.(rest := m)
  {
  }

  lemma {:induction false} CatLen(l: Layout, m: Layout)
    ensures Len(CatLayout(l, m)) == Len(l) + Len(m)
  {
    if l.Bare? {
    } else {
      CatLen(l.rest, m);
    }
  }

  // ---- indexing -------------------------------------------------------------------------------

  /** The offset of the chunk that byte `i` lies in: how far in front of it the indexing operator looks. */
  function Skew(l: Layout, i: nat): nat
  {
    if l.Bare? then 0 else if i < l.size then |l.front| else Skew(l.rest, i - l.size)
  }

  /** The operator then looks at a byte of the slack in front of the chunk. */
  predicate InSlack(l: Layout, i: nat)
  {
    l.Chunk? && if i < l.size then i < |l.front| else InSlack(l.rest, i - l.size)
  }

  function Slack(l: Layout, i: nat): byte
    requires InSlack(l, i)
  {
    if i < l.size then l.front[i] else Slack(l.rest, i - l.size)
  }

  function Poked(l: Layout, i: nat, v: byte): Layout
    requires InSlack(l, i)
  {
    if i < l.size then l.(front := l.front[i := v]) else l.(rest := Poked(l.rest, i - l.size, v))
  }

  lemma {:induction false} SlackSkew(l: Layout, i: nat)
    requires InSlack(l, i)
    ensures Skew(l, i) > 0
  {
    if i < l.size {
    } else {
      SlackSkew(l.rest, i - l.size);
    }
  }

  /** What the operator sees does not depend on the chunks in front. */
  lemma {:induction false} IndexCat(l: Layout, m: Layout, i: nat)
    ensures Skew(CatLayout(l, m), Len(l) + i) == Skew(m, i)
    ensures InSlack(CatLayout(l, m), Len(l) + i) <==> InSlack(m, i)
    ensures InSlack(m, i) ==> Slack(CatLayout(l, m), Len(l) + i) == Slack(m, i)
    ensures InSlack(m, i) ==> forall v :: Poked(CatLayout(l, m), Len(l) + i, v) == CatLayout(l, Poked(m, i, v))
  {
    if l.Bare? {
    } else {
      IndexCat(l.rest, m, i);
    }
  }

  /** `s` from `from` on, and between two places; what is not there is left out. */
  function Drop(s: seq<byte>, from: nat): seq<byte>
  {
    if from <= |s| then s[from..] else []
  }

  function Between(s: seq<byte>, from: nat, to: nat): seq<byte>
  {
    if from <= to <= |s| then s[from..to] else []
  }

  // ---- gaps -----------------------------------------------------------------------------------

  /** As `Opened`, behind some byte: only a gap on the boundary of a chunk is opened in slack. */
  function OpenedBehind(l: Layout, text: seq<byte>, skip: nat, n: nat): Layout
    requires 0 < n
  {
    match l
    case Bare => Chunk([], n, [], Bare)
    case Chunk(_, size, back, rest) =>
      if skip > size then l.(rest := OpenedBehind(rest, Drop(text, size), skip - size, n))
      else if skip < size then
        l.(size := skip, back := Between(text, skip, size) + back,
           rest := Chunk([], n, [], Chunk([], size - skip, [], rest)))
      else if |back| >= n then l.(size := size + n, back := back[n..])
      else if rest.Chunk? && |back| + |rest.front| >= n then
        var k := n - |back|;
        l.(size := size + |back|, back := [],
           rest := rest.(front := rest.front[..|rest.front| - k], size := rest.size + k))
      else l.(rest := Chunk([], n, [], rest))
  }

  /** The layout with a gap of `n` bytes at `skip`; `text` are the live bytes. */
  function Opened(l: Layout, text: seq<byte>, skip: nat, n: nat): Layout
  {
    if n == 0 then l
    else if skip > 0 then OpenedBehind(l, text, skip, n)
    else if l.Chunk? && |l.front| >= n then l.(front := l.front[..|l.front| - n], size := l.size + n)
    else Chunk([], n, [], l)
  }

  function GapBytesBehind(l: Layout, skip: nat, n: nat): seq<byte>
  {
    match l
    case Bare => Zeros(n)
    case Chunk(_, size, back, rest) =>
      if skip > size then GapBytesBehind(rest, skip - size, n)
      else if skip < size then Zeros(n)
      else if |back| >= n then back[..n]
      else if rest.Chunk? && |back| + |rest.front| >= n then back + rest.front[|rest.front| - (n - |back|)..]
      else Zeros(n)
  }

  /** What the gap holds: the slack it takes over, or zeros. */
  function GapBytes(l: Layout, skip: nat, n: nat): seq<byte>
  {
    if skip > 0 then GapBytesBehind(l, skip, n)
    else if l.Chunk? && |l.front| >= n then l.front[|l.front| - n..]
    else Zeros(n)
  }

  lemma {:induction false} GapLen(l: Layout, skip: nat, n: nat)
    ensures |GapBytes(l, skip, n)| == n
  {
    if skip > 0 && l.Chunk? && skip > l.size {
      GapLen(l.rest, skip - l.size, n);
    } else {
    }
  }

  /** `was`, laid out as `l`, has become `now`, laid out as `m`, by opening a gap of `n` bytes at `skip`. */
  ghost predicate GapOpened(was: seq<byte>, l: Layout, now: seq<byte>, m: Layout, skip: nat, n: nat)
  {
    && skip <= |was|
    && now == Splice(was, skip, GapBytes(l, skip, n))
    && m == Opened(l, was, skip, n)
  }

  lemma NoGap(was: seq<byte>, l: Layout, skip: nat)
    requires skip <= |was|
    ensures GapOpened(was, l, was, l, skip, 0)
  {
    GapLen(l, skip, 0);
    assert Splice(was, skip, []) == was;
  }

  /** A gap of zeros at the end, behind what is there. */
  lemma GapAtEnd(was: seq<byte>, l: Layout, n: nat)
    requires GapBytes(l, |was|, n) == Zeros(n)
    ensures GapOpened(was, l, was + Zeros(n), Opened(l, was, |was|, n), |was|, n)
  {
    SpliceEnds(was, Zeros(n));
  }

  lemma GapOpenedFacts(was: seq<byte>, l: Layout, now: seq<byte>, m: Layout, skip: nat, n: nat)
    requires GapOpened(was, l, now, m, skip, n)
    ensures Gapped(was, now, skip, n) && now[skip..skip + n] == GapBytes(l, skip, n) && m == Opened(l, was, skip, n)
  {
    GapLen(l, skip, n);
  }

  /** A gap behind some byte of `m` does not depend on what precedes `m`. */
  lemma {:induction false} OpenedCat(l: Layout, m: Layout, t: seq<byte>, u: seq<byte>, skip: nat, n: nat)
    requires |t| == Len(l) && |u| == Len(m) && 0 < skip && 0 < n
    ensures Len(CatLayout(l, m)) == |t + u|
    ensures Opened(CatLayout(l, m), t + u, |t| + skip, n) == CatLayout(l, OpenedBehind(m, u, skip, n))
    ensures GapBytes(CatLayout(l, m), |t| + skip, n) == GapBytesBehind(m, skip, n)
  {
    CatLen(l, m);
    if l.Bare? {
      assert t + u == u;
    } else {
      assert (t + u)[l.size..] == t[l.size..] + u;
      OpenedCat(l.rest, m, t[l.size..], u, skip, n);
    }
  }

  // ---- cuts -----------------------------------------------------------------------------------

  /** The layout without its first `n` bytes: emptied chunks go, and the next one starts later in its store. */
  function Removed(l: Layout, text: seq<byte>, n: nat): Layout
  {
    if n == 0 || l.Bare? then l
    else if n < l.size then l.(front := l.front + Between(text, 0, n), size := l.size - n)
    else Removed(l.rest, Drop(text, l.size), n - l.size)
  }

  /** The layout without the `n` bytes at `skip`; `text` are the live bytes. */
  function Shrunk(l: Layout, text: seq<byte>, skip: nat, n: nat): Layout
  {
    match l
    case Bare => Bare
    case Chunk(_, size, back, rest) =>
      if skip >= size then l.(rest := Shrunk(rest, Drop(text, size), skip - size, n))
      else if skip == 0 then Removed(l, text, n)
      else if n < size - skip then l.(size := size - n, back := Between(text, size - n, size) + back)
      else l.(size := skip, back := Between(text, skip, size) + back,
              rest := Removed(rest, Drop(text, size), n - (size - skip)))
  }

  lemma {:induction false} ShrunkCat(l: Layout, m: Layout, t: seq<byte>, u: seq<byte>, skip: nat, n: nat)
    requires |t| == Len(l) && |u| == Len(m)
    ensures Len(CatLayout(l, m)) == |t + u|
    ensures Shrunk(CatLayout(l, m), t + u, |t| + skip, n) == CatLayout(l, Shrunk(m, u, skip, n))
  {
    CatLen(l, m);
    if l.Bare? {
      assert t + u == u;
    } else {
      assert (t + u)[l.size..] == t[l.size..] + u;
      ShrunkCat(l.rest, m, t[l.size..], u, skip, n);
    }
  }

  lemma {:induction false} RemovedLen(l: Layout, text: seq<byte>, n: nat)
    requires n <= Len(l)
    ensures Len(Removed(l, text, n)) == Len(l) - n
  {
    if n == 0 || l.Bare? || n < l.size {
    } else {
      RemovedLen(l.rest, Drop(text, l.size), n - l.size);
    }
  }

  lemma {:induction false} ShrunkLen(l: Layout, text: seq<byte>, skip: nat, n: nat)
    requires skip + n <= Len(l)
    ensures Len(Shrunk(l, text, skip, n)) == Len(l) - n
  {
    if l.Bare? {
    } else if skip >= l.size {
      ShrunkLen(l.rest, Drop(text, l.size), skip - l.size, n);
    } else if skip == 0 {
      RemovedLen(l, text, n);
    } else if n >= l.size - skip {
      RemovedLen(l.rest, Drop(text, l.size), n - (l.size - skip));
    }
  }

  // ---- where gaps lie at offset 0 -------------------------------------------------------------

  /** The number of live bytes of the last chunk. */
  function LastSize(l: Layout): nat
  {
    if l.Bare? then 0 else if l.rest.Bare? then l.size else LastSize(l.rest)
  }

  /** No chunk has slack in front of it. */
  predicate Level(l: Layout)
  {
    l.Chunk? ==> l.front == [] && Level(l.rest)
  }

  /** The last `m` bytes are the last chunk, and there is no slack around the place in front of it. */
  predicate Tight(l: Layout, m: int)
  {
    && l.Chunk? && l.rest.Chunk?
    && if l.rest.rest.Bare?
       then l.size > 0 && l.back == [] && l.rest.front == [] && l.rest.size == m
       else Tight(l.rest, m)
  }

  /** Why a gap with `m` bytes behind it takes over no slack of a chunk that has an offset; `level` tells whether it
      may be because there is none. */
  predicate Room(l: Layout, m: int, level: bool)
  {
    (level && Level(l)) || 0 < m < LastSize(l) || Tight(l, m)
  }

  lemma {:induction false} LastInside(l: Layout)
    ensures LastSize(l) <= Len(l)
  {
    if l.Bare? || l.rest.Bare? {
    } else {
      LastInside(l.rest);
    }
  }

  lemma {:induction false} LevelSkew(l: Layout, i: nat)
    requires Level(l)
    ensures Skew(l, i) == 0
  {
    if l.Bare? || i < l.size {
    } else {
      LevelSkew(l.rest, i - l.size);
    }
  }

  lemma {:induction false} LevelOpened(l: Layout, text: seq<byte>, skip: nat, n: nat)
    requires Level(l)
    ensures Level(Opened(l, text, skip, n))
  {
    if n > 0 && skip > 0 && l.Chunk? && skip > l.size {
      LevelOpened(l.rest, Drop(text, l.size), skip - l.size, n);
    } else {
    }
  }

  /** A gap inside the last chunk has a chunk of its own, and the bytes behind it are the last one. */
  lemma {:induction false} OpenedInside(l: Layout, text: seq<byte>, skip: nat, n: nat, i: nat)
    requires 0 < Len(l) - skip < LastSize(l) && i < n
    ensures Skew(Opened(l, text, skip, n), skip + i) == 0 && Tight(Opened(l, text, skip, n), Len(l) - skip)
  {
    LastInside(l);
    if l.rest.Bare? {
    } else {
      LastInside(l.rest);
      OpenedInside(l.rest, Drop(text, l.size), skip - l.size, n, i);
    }
  }

  lemma {:induction false} TightLast(l: Layout, m: int)
    requires Tight(l, m)
    ensures m == LastSize(l) < Len(l)
  {
    if l.rest.rest.Bare? {
    } else {
      TightLast(l.rest, m);
    }
  }

  /** So has a gap in front of a last chunk around which there is no slack. */
  lemma {:induction false} OpenedTight(l: Layout, text: seq<byte>, skip: nat, n: nat, i: nat)
    requires Tight(l, Len(l) - skip) && i < n
    ensures Skew(Opened(l, text, skip, n), skip + i) == 0 && Tight(Opened(l, text, skip, n), Len(l) - skip)
  {
    TightLast(l, Len(l) - skip);
    if l.rest.rest.Bare? {
    } else {
      TightLast(l.rest, Len(l) - skip);
      OpenedTight(l.rest, Drop(text, l.size), skip - l.size, n, i);
    }
  }

  lemma {:induction false} OpenedLen(l: Layout, text: seq<byte>, skip: nat, n: nat)
    ensures Len(Opened(l, text, skip, n)) == Len(l) + n
  {
    if n > 0 && skip > 0 && l.Chunk? && skip > l.size {
      OpenedLen(l.rest, Drop(text, l.size), skip - l.size, n);
    } else {
      var r := Opened(l, text, skip, n);
      assert r.Chunk? && r.rest.Chunk? ==> Len(r.rest) == r.rest.size + Len(r.rest.rest);
      assert n > 0 && l.Chunk? && 0 < skip < l.size ==> Len(r.rest.rest) == l.size - skip + Len(l.rest);
    }
  }

  /** Where there is room, a gap lies at offset 0, and there is room behind it. */
  lemma RoomGap(l: Layout, text: seq<byte>, skip: nat, n: nat, i: nat, level: bool)
    requires skip <= Len(l) && Room(l, Len(l) - skip, level) && i < n
    ensures Skew(Opened(l, text, skip, n), skip + i) == 0
    ensures Room(Opened(l, text, skip, n), Len(l) - skip, level)
  {
    if level && Level(l) {
      LevelOpened(l, text, skip, n);
      LevelSkew(Opened(l, text, skip, n), skip + i);
    } else if Tight(l, Len(l) - skip) {
      OpenedTight(l, text, skip, n, i);
    } else {
      OpenedInside(l, text, skip, n, i);
    }
  }

  // ---- what stays in the last chunk -----------------------------------------------------------

  /** A gap opened in front of the last `m` bytes and the byte before them leaves them in the last chunk. */
  lemma {:induction false} OpenedLast(l: Layout, text: seq<byte>, skip: nat, n: nat, m: int)
    requires m < Len(l) - skip && m < LastSize(l)
    ensures m < LastSize(Opened(l, text, skip, n))
  {
    if n > 0 && skip > 0 && l.Chunk? && skip > l.size {
      OpenedLast(l.rest, Drop(text, l.size), skip - l.size, n, m);
    } else {
      var r := Opened(l, text, skip, n);
      assert r.Chunk? && r.rest.Chunk? ==> LastSize(r) == LastSize(r.rest);
      assert r.Chunk? && r.rest.Chunk? && r.rest.rest.Chunk? ==> LastSize(r.rest) == LastSize(r.rest.rest);
    }
  }

  lemma {:induction false} RemovedLast(l: Layout, text: seq<byte>, n: nat, m: int)
    requires |text| == Len(l) && m < Len(l) - n && m < LastSize(l)
    ensures m < LastSize(Removed(l, text, n))
  {
    if n == 0 || l.Bare? || n < l.size {
    } else {
      RemovedLast(l.rest, text[l.size..], n - l.size, m);
    }
  }

  /** So does a cut there. */
  lemma {:induction false} ShrunkLast(l: Layout, text: seq<byte>, skip: nat, n: nat, m: int)
    requires |text| == Len(l) && m < Len(l) - (skip + n) && m < LastSize(l)
    ensures m < LastSize(Shrunk(l, text, skip, n))
  {
    if l.Bare? {
    } else if skip >= l.size {
      LastInside(l);
      ShrunkLast(l.rest, text[l.size..], skip - l.size, n, m);
    } else if skip == 0 {
      RemovedLast(l, text, n, m);
    } else if n < l.size - skip {
    } else {
      RemovedLast(l.rest, text[l.size..], n - (l.size - skip), m);
    }
  }

  /** A cut inside the last chunk shortens it. */
  lemma {:induction false} ShrunkInside(l: Layout, text: seq<byte>, skip: nat, n: nat)
    requires |text| == Len(l) && Len(l) - skip < LastSize(l) && skip + n < Len(l)
    ensures LastSize(Shrunk(l, text, skip, n)) == LastSize(l) - n
  {
    LastInside(l);
    if l.rest.Bare? {
    } else {
      LastInside(l.rest);
      ShrunkInside(l.rest, text[l.size..], skip - l.size, n);
    }
  }
}
