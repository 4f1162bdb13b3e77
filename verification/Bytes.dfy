/** Bytes, and the edits of a byte string that the rest of the model speaks about. */
module Bytes {
  newtype byte = b: int | 0 <= b < 0x100

  datatype Option<+T> = None | Some(value: T)

  function Zeros(n: nat): seq<byte>
  {
    seq(n, _ => 0)
  }

  lemma Assoc(a: seq<byte>, b: seq<byte>, c: seq<byte>)
    ensures a + (b + c) == (a + b) + c
  {
  }

  lemma SplitMiddle(a: seq<byte>, c: seq<byte>, d: seq<byte>, at: nat)
    requires at <= |c|
    ensures (a + c[..at]) + (c[at..] + d) == a + (c + d)
  {
  }

  function Min(a: nat, b: nat): nat
  {
    if a < b then a else b
  }

  /** `s` with the bytes from `at` on replaced by `w`. */
  function Overwrite(s: seq<byte>, at: nat, w: seq<byte>): seq<byte>
    requires at + |w| <= |s|
  {
    s[..at] + w + s[at + |w|..]
  }

  /** `s` without the `n` bytes at `skip`. */
  function Cut(s: seq<byte>, skip: nat, n: nat): seq<byte>
    requires skip + n <= |s|
  {
    s[..skip] + s[skip + n..]
  }

  /** `s` with `t` put in at `at`. */
  function Splice(s: seq<byte>, at: nat, t: seq<byte>): seq<byte>
    requires at <= |s|
  {
    s[..at] + t + s[at..]
  }

  /** Where each byte of an edited string comes from. */
  lemma CutByIndex(s: seq<byte>, skip: nat, n: nat)
    requires skip + n <= |s|
    ensures |Cut(s, skip, n)| == |s| - n
    ensures forall i :: 0 <= i < |s| - n ==> Cut(s, skip, n)[i] == s[if i < skip then i else i + n]
  {
  }

  lemma SpliceByIndex(s: seq<byte>, at: nat, t: seq<byte>)
    requires at <= |s|
    ensures |Splice(s, at, t)| == |s| + |t|
    ensures forall i :: 0 <= i < |s| + |t| ==>
      Splice(s, at, t)[i] == if i < at then s[i] else if i < at + |t| then t[i - at] else s[i - |t|]
  {
  }

  lemma OverwriteByIndex(s: seq<byte>, at: nat, w: seq<byte>)
    requires at + |w| <= |s|
    ensures |Overwrite(s, at, w)| == |s|
    ensures forall i :: 0 <= i < |s| ==> Overwrite(s, at, w)[i] == if at <= i < at + |w| then w[i - at] else s[i]
  {
  }

  lemma SpliceEnds(s: seq<byte>, t: seq<byte>)
    ensures Splice(s, 0, t) == t + s && Splice(s, |s|, t) == s + t
  {
  }

  lemma SpliceBetween(a: seq<byte>, b: seq<byte>, t: seq<byte>)
    ensures a + (t + b) == Splice(a + b, |a|, t)
  {
    var s := a + b;
    assert s[..|a|] == a && s[|a|..] == b;
  }

  /** What opening a gap of `n` bytes at `skip` means: both sides stay, the gap holds anything. */
  ghost predicate Gapped(before: seq<byte>, after: seq<byte>, skip: nat, n: nat)
  {
    skip <= |before| && exists g :: |g| == n && after == Splice(before, skip, g)
  }

  lemma GapFacts(before: seq<byte>, after: seq<byte>, skip: nat, n: nat)
    requires Gapped(before, after, skip, n)
    ensures |after| == |before| + n
    ensures after[..skip] == before[..skip] && after[skip + n..] == before[skip..]
  {
  }

  /** Two insertions one right behind the other are one insertion. */
  lemma SpliceTwice(s: seq<byte>, at: nat, g: seq<byte>, h: seq<byte>)
    requires at <= |s|
    ensures Splice(Splice(s, at, g), at + |g|, h) == Splice(s, at, g + h)
  {
    var t := Splice(s, at, g);
    assert t[..at + |g|] == s[..at] + g && t[at + |g|..] == s[at..];
    Assoc(s[..at], g, h);
  }

  /** Cutting inside the middle of three strings. */
  lemma CutMiddle(a: seq<byte>, c: seq<byte>, d: seq<byte>, at: nat, n: nat)
    requires at + n <= |c|
    ensures Cut(a + (c + d), |a| + at, n) == a + (Cut(c, at, n) + d)
  {
    var s := a + (c + d);
    assert s[..|a| + at] == a + c[..at];
    assert s[|a| + at + n..] == c[at + n..] + d;
    Assoc(a, c[..at], c[at + n..] + d);
    Assoc(c[..at], c[at + n..], d);
  }

  lemma CutPrefix(a: seq<byte>, c: seq<byte>, n: nat)
    requires n <= |c|
    ensures Cut(a + c, |a|, n) == a + c[n..]
  {
    assert (a + c)[..|a|] == a && (a + c)[|a| + n..] == c[n..];
  }

  /** Moving the end of a window over its middle cuts the middle out of the window. */
  lemma WindowCut(data: seq<byte>, offset: nat, size: nat, rest: nat, n: nat)
    requires offset + size <= |data| && rest + n <= size
    ensures var data2 := Overwrite(data, offset + rest, data[offset + rest + n..offset + size]);
      |data2| == |data| && data2[offset..offset + size - n] == Cut(data[offset..offset + size], rest, n)
  {
  }

  /** A cut made in two steps. */
  lemma CutTwice(s: seq<byte>, at: nat, k: nat, n: nat)
    requires k <= n && at + n <= |s|
    ensures Cut(Cut(s, at, k), at, n - k) == Cut(s, at, n)
  {
    var t := Cut(s, at, k);
    assert t[..at] == s[..at] && t[at + (n - k)..] == s[at + n..];
  }

  lemma CutEnd(s: seq<byte>, at: nat)
    requires at <= |s|
    ensures Cut(s, at, |s| - at) == s[..at]
  {
  }

  lemma DropAcross(c: seq<byte>, t: seq<byte>, k: nat)
    requires |c| <= k <= |c| + |t|
    ensures (c + t)[k..] == t[k - |c|..]
  {
  }

  /** Overwriting inside the middle of three strings. */
  lemma OverwriteMiddle(a: seq<byte>, c: seq<byte>, d: seq<byte>, at: nat, w: seq<byte>)
    requires at + |w| <= |c|
    ensures Overwrite(a + (c + d), |a| + at, w) == a + (Overwrite(c, at, w) + d)
  {
    var s := a + (c + d);
    assert s[..|a| + at] == a + c[..at];
    assert s[|a| + at + |w|..] == c[at + |w|..] + d;
    Assoc(a, c[..at], w);
    Assoc(a, c[..at] + w, c[at + |w|..] + d);
    Assoc(c[..at] + w, c[at + |w|..], d);
  }

  /** Overwriting behind what was just overwritten extends it. */
  lemma OverwriteTwice(s: seq<byte>, at: nat, w: seq<byte>, v: seq<byte>)
    requires at + |w| + |v| <= |s|
    ensures Overwrite(Overwrite(s, at, w), at + |w|, v) == Overwrite(s, at, w + v)
  {
    var t := Overwrite(s, at, w);
    assert t[..at + |w|] == s[..at] + w && t[at + |w| + |v|..] == s[at + |w| + |v|..];
    Assoc(s[..at], w, v);
  }

  lemma OverwriteSize(s: seq<byte>, at: nat, w: seq<byte>)
    requires at + |w| <= |s|
    ensures |Overwrite(s, at, w)| == |s|
  {
  }

  /** A window sees an overwrite that lies inside it at the same place. */
  lemma WindowWrite(data: seq<byte>, offset: nat, size: nat, at: nat, w: seq<byte>)
    requires offset + size <= |data| && at + |w| <= size
    ensures |Overwrite(data, offset + at, w)| == |data| && |Overwrite(data[offset..offset + size], at, w)| == size
    ensures Overwrite(data, offset + at, w)[offset..offset + size] == Overwrite(data[offset..offset + size], at, w)
  {
  }

  /** What surrounds the window stays. */
  lemma OverwriteAround(data: seq<byte>, offset: nat, size: nat, at: nat, w: seq<byte>)
    requires offset + size <= |data| && at + |w| <= size
    ensures var data2 := Overwrite(data, offset + at, w);
      |data2| == |data| && data2[..offset] == data[..offset] && data2[offset + size..] == data[offset + size..]
  {
  }

  /** The `n` bytes of `s` at `at`. */
  function Window(s: seq<byte>, at: nat, n: nat): seq<byte>
    requires at + n <= |s|
  {
    s[at..at + n]
  }

  lemma WindowByIndex(s: seq<byte>, at: nat, n: nat)
    requires at + n <= |s|
    ensures |Window(s, at, n)| == n && forall i :: 0 <= i < n ==> Window(s, at, n)[i] == s[at + i]
  {
  }

  lemma SliceBehind(a: seq<byte>, s: seq<byte>, at: nat, n: nat)
    requires at + n <= |s|
    ensures Window(a + s, |a| + at, n) == Window(s, at, n)
  {
  }

  lemma OverwriteNothing(s: seq<byte>, at: nat, source: seq<byte>)
    requires at <= |s|
    ensures Overwrite(s, at, Window(source, 0, 0)) == s
    ensures Window(source, 0, |source|) == source
  {
  }

  /** Reading `k` of the next `n` bytes, in `c` and in what follows it. */
  lemma ReadFacts(c: seq<byte>, t: seq<byte>, at: nat, k: nat, n: nat, got: seq<byte>)
    requires at + k <= |c| && k <= n && at + n <= |c| + |t|
    ensures got + Window(c + t, at, n) == (got + Window(c, at, k)) + Window(c + t, at + k, n - k)
    ensures at + k == |c| ==> got + Window(c + t, at, n) == (got + Window(c, at, k)) + Window(t, 0, n - k)
  {
    assert Window(c + t, at, n) == Window(c, at, k) + Window(c + t, at + k, n - k);
    assert at + k == |c| ==> Window(c + t, at + k, n - k) == Window(t, 0, n - k);
    Assoc(got, Window(c, at, k), Window(c + t, at + k, n - k));
  }

  lemma WindowInside(data: seq<byte>, offset: nat, size: nat, at: nat, k: nat)
    requires offset + size <= |data| && at + k <= size
    ensures data[offset + at..offset + at + k] == Window(data[offset..offset + size], at, k)
  {
    var c, w := data[offset..offset + size], data[offset + at..offset + at + k];
    assert forall i :: 0 <= i < k ==> w[i] == data[offset + at + i] == c[at + i] == c[at..at + k][i];
  }

  /** The window `c` of `data` at `offset`, together with what follows and what precedes it. */
  lemma WindowEnd(data: seq<byte>, offset: nat, c: seq<byte>, at: nat)
    requires offset + |c| <= |data| && c == data[offset..offset + |c|] && at <= |c|
    ensures data[offset + at..] == c[at..] + data[offset + |c|..]
  {
  }

  lemma WindowStart(data: seq<byte>, offset: nat, c: seq<byte>, at: nat)
    requires offset + |c| <= |data| && c == data[offset..offset + |c|] && at <= |c|
    ensures data[..offset + at] == data[..offset] + c[..at]
  {
  }

  lemma WindowNothing(s: seq<byte>, at: nat)
    requires at <= |s|
    ensures Window(s, at, 0) == []
  {
  }

  lemma TextAt(a: seq<byte>, c: seq<byte>, d: seq<byte>, i: nat)
    requires i < |c|
    ensures (a + (c + d))[|a| + i] == c[i]
  {
  }

  lemma OverwriteOne(s: seq<byte>, at: nat, v: byte)
    requires at < |s|
    ensures Overwrite(s, at, [v]) == s[at := v]
  {
  }

  /** Writing `v` at `i` does what writing it at `j` does exactly if the places are one, or `v` is in both already. */
  lemma WriteElsewhere(s: seq<byte>, i: nat, j: nat, v: byte)
    requires i < |s| && j < |s|
    ensures s[i := v] == s[j := v] <==> i == j || s[i] == s[j] == v
  {
    assert s[j := v][j] == v;
    assert i != j ==> s[i := v][j] == s[j] && s[j := v][i] == s[i];
  }

  lemma WriteNothing(s: seq<byte>, j: nat, v: byte)
    requires j < |s|
    ensures s == s[j := v] <==> s[j] == v
  {
    assert s[j := v][j] == v;
  }

  /** Byte strings laid end to end. */
  function Concat(cs: seq<seq<byte>>): seq<byte>
  {
    if cs == [] then [] else Concat(cs[..|cs| - 1]) + cs[|cs| - 1]
  }

  lemma ConcatPush(cs: seq<seq<byte>>, c: seq<byte>)
    ensures Concat(cs + [c]) == Concat(cs) + c
  {
    assert (cs + [c])[..|cs|] == cs;
  }

  /** Pieces laid end to end begin the whole. */
  lemma {:induction false} ConcatFrom(pieces: seq<seq<byte>>, i: nat)
    requires i <= |pieces|
    ensures Concat(pieces[..i]) <= Concat(pieces)
    decreases |pieces| - i
  {
    if i == |pieces| {
      assert pieces[..i] == pieces;
    } else {
      ConcatFrom(pieces, i + 1);
      assert pieces[..i + 1] == pieces[..i] + [pieces[i]];
      ConcatPush(pieces[..i], pieces[i]);
    }
  }

  lemma ConcatNext(pieces: seq<seq<byte>>, i: nat)
    requires i < |pieces|
    ensures Concat(pieces[..i + 1]) == Concat(pieces[..i]) + pieces[i]
    ensures |Concat(pieces[..i])| + |pieces[i]| <= |Concat(pieces)|
  {
    assert pieces[..i + 1] == pieces[..i] + [pieces[i]];
    ConcatPush(pieces[..i], pieces[i]);
    ConcatFrom(pieces, i + 1);
  }

  /** `s` with the bytes from `from` to `to` replaced by `w`. */
  function Replace(s: seq<byte>, from: nat, to: nat, w: seq<byte>): seq<byte>
    requires from <= to <= |s|
  {
    s[..from] + w + s[to..]
  }

  lemma ReplaceByIndex(s: seq<byte>, from: nat, to: nat, w: seq<byte>)
    requires from <= to <= |s|
    ensures |Replace(s, from, to, w)| == |s| - (to - from) + |w|
    ensures forall i :: 0 <= i < |s| - (to - from) + |w| ==>
      Replace(s, from, to, w)[i] ==
        if i < from then s[i] else if i < from + |w| then w[i - from] else s[i - |w| + (to - from)]
  {
  }

  /** Making room for `w`, or closing up behind it, and then writing it replaces the old bytes by `w`. */
  lemma ReplaceByResize(s: seq<byte>, t: seq<byte>, from: nat, to: nat, w: seq<byte>)
    requires from <= to <= |s|
    requires var diff := |w| - (to - from);
      if diff > 0 then Gapped(s, t, from, diff) else -diff <= |s| - from && t == Cut(s, from, -diff)
    ensures from + |w| <= |t| && Overwrite(t, from, w) == Replace(s, from, to, w)
    ensures to < |s| ==> from < |t|
  {
    var diff := |w| - (to - from);
    if diff > 0 {
      GapFacts(s, t, from, diff);
      assert t[from + |w|..] == t[from + diff..][to - from..];
    } else {
      assert t[from + |w|..] == s[to..];
    }
  }
}
