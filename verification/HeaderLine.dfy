/** Putting a header line into a rope: when its line end, which is written by index, comes out right. */
module HeaderLines {
  import opened Bytes
  import opened HttpStream
  import opened Layouts

  /** Where a write by index lands: `skew` bytes in front of the byte it names, or in the slack there. */
  datatype Landing = Landing(skew: nat, inSlack: bool)

  function Lands(l: Layout, i: nat): Landing
  {
    Landing(Skew(l, i), InSlack(l, i))
  }

  /** What a write by index does to the bytes of a rope. */
  function Put(text: seq<byte>, i: nat, v: byte, d: Landing): seq<byte>
  {
    if d.inSlack || i < d.skew || i - d.skew >= |text| then text else text[i - d.skew := v]
  }

  /** What it does to the layout. */
  function PutLayout(l: Layout, i: nat, v: byte): Layout
  {
    if InSlack(l, i) then Poked(l, i, v) else l
  }

  /** The text when room has been made for a line at `at` and the line has been copied there. */
  function LineCopied(text: seq<byte>, l: Layout, at: nat, line: seq<byte>): (t: seq<byte>)
    requires at <= |text|
    ensures |t| == |text| + |line| + 2
  {
    GapLen(l, at, |line| + 2);
    Overwrite(Splice(text, at, GapBytes(l, at, |line| + 2)), at, line)
  }

  /** The text when its line end has been written, too. */
  function LineAdded(text: seq<byte>, l: Layout, at: nat, line: seq<byte>): seq<byte>
    requires at <= |text|
  {
    var m, n := Opened(l, text, at, |line| + 2), at + |line|;
    Put(Put(LineCopied(text, l, at, line), n, 13, Lands(m, n)), n + 1, 10, Lands(m, n + 1))
  }

  function LineLayout(text: seq<byte>, l: Layout, at: nat, line: seq<byte>): Layout
  {
    var m, n := Opened(l, text, at, |line| + 2), at + |line|;
    PutLayout(PutLayout(m, n, 13), n + 1, 10)
  }

  /** What the text should be. */
  function LineMeant(text: seq<byte>, at: nat, line: seq<byte>): seq<byte>
    requires at <= |text|
  {
    text[..at] + (line + CRLF) + text[at..]
  }

  predicate Strays(i: nat, d: Landing)
  {
    0 < d.skew <= i && !d.inSlack
  }

  /**
   The line end comes out right, given where its two bytes land and what the gap held in their places: each
   lands in its place or finds its like there, and one that lands on a byte in front of it is that byte.
   */
  predicate EndsWell(meant: seq<byte>, n: nat, cr: Landing, lf: Landing, atCr: byte, atLf: byte)
    requires n + 2 <= |meant|
  {
    && (cr.skew == 0 || atCr == 13) && (lf.skew == 0 || atLf == 10)
    && (Strays(n + 1, lf) ==> meant[n + 1 - lf.skew] == 10)
    && (Strays(n, cr) && !(Strays(n + 1, lf) && lf.skew == cr.skew + 1) ==> meant[n - cr.skew] == 13)
  }

  predicate LineEndsWell(text: seq<byte>, l: Layout, at: nat, line: seq<byte>)
    requires at <= |text|
  {
    var m, n, g := Opened(l, text, at, |line| + 2), at + |line|, GapBytes(l, at, |line| + 2);
    GapLen(l, at, |line| + 2);
    EndsWell(LineMeant(text, at, line), n, Lands(m, n), Lands(m, n + 1), g[|line|], g[|line| + 1])
  }

  /** Writing the two bytes of a line end at `n`. */
  lemma TwoBytes(t: seq<byte>, meant: seq<byte>, n: nat, cr: Landing, lf: Landing)
    requires n + 2 <= |t| == |meant| && t[..n] == meant[..n] && t[n + 2..] == meant[n + 2..]
    requires meant[n] == 13 && meant[n + 1] == 10
    requires (cr.inSlack ==> cr.skew > 0) && (lf.inSlack ==> lf.skew > 0)
    ensures Put(Put(t, n, 13, cr), n + 1, 10, lf) == meant <==> EndsWell(meant, n, cr, lf, t[n], t[n + 1])
  {
  }

  /** The bytes that have been copied, and those around them. */
  lemma CopiedBytes(text: seq<byte>, l: Layout, at: nat, line: seq<byte>)
    requires at <= |text|
    ensures var t, n, g := LineCopied(text, l, at, line), at + |line|, GapBytes(l, at, |line| + 2);
      && |g| == |line| + 2 && t[..n] == text[..at] + line && t[n] == g[|line|] && t[n + 1] == g[|line| + 1]
      && t[n + 2..] == text[at..]
  {
    var g := GapBytes(l, at, |line| + 2);
    GapLen(l, at, |line| + 2);
    var s := Splice(text, at, g);
    assert s[at + |line|..] == g[|line|..] + text[at..];
  }

  lemma MeantBytes(text: seq<byte>, at: nat, line: seq<byte>)
    requires at <= |text|
    ensures var t, n := LineMeant(text, at, line), at + |line|;
      |t| == |text| + |line| + 2 && t[..n] == text[..at] + line && t[n] == 13 && t[n + 1] == 10
        && t[n + 2..] == text[at..]
  {
  }

  lemma LandsFacts(l: Layout, i: nat)
    ensures Lands(l, i).inSlack ==> Lands(l, i).skew > 0
  {
    if InSlack(l, i) {
      SlackSkew(l, i);
    }
  }

  /** The text is what it should be if and only if the line ends well. */
  lemma LineExact(text: seq<byte>, l: Layout, at: nat, line: seq<byte>)
    requires at <= |text|
    ensures LineAdded(text, l, at, line) == LineMeant(text, at, line) <==> LineEndsWell(text, l, at, line)
  {
    hide Opened, GapBytes, LineCopied, LineMeant, Lands, Put, EndsWell;
    var m, n := Opened(l, text, at, |line| + 2), at + |line|;
    CopiedBytes(text, l, at, line);
    MeantBytes(text, at, line);
    LandsFacts(m, n);
    LandsFacts(m, n + 1);
    TwoBytes(LineCopied(text, l, at, line), LineMeant(text, at, line), n, Lands(m, n), Lands(m, n + 1));
  }

  /** What follows an added line is unharmed in any case. */
  lemma LineBehind(text: seq<byte>, l: Layout, at: nat, line: seq<byte>)
    requires at <= |text|
    ensures var t := LineAdded(text, l, at, line);
      |t| == |text| + |line| + 2 && t[at + |line| + 2..] == text[at..]
    ensures LineEndsWell(text, l, at, line) ==>
      LineAdded(text, l, at, line)[..at + |line| + 2] == text[..at] + (line + CRLF)
  {
    hide Opened, GapBytes, LineCopied, Lands, LineEndsWell;
    CopiedBytes(text, l, at, line);
    LineExact(text, l, at, line);
    var t := LineAdded(text, l, at, line);
    assert t[at + |line| + 2..] == LineCopied(text, l, at, line)[at + |line| + 2..];
    assert LineMeant(text, at, line)[..at + |line| + 2] == text[..at] + (line + CRLF);
  }

  /** A rope: its bytes, and how they lie in their stores. */
  datatype Rope = Rope(text: seq<byte>, layout: Layout)

  function WithLine(r: Rope, at: nat, line: seq<byte>): Rope
    requires at <= |r.text|
  {
    Rope(LineAdded(r.text, r.layout, at, line), LineLayout(r.text, r.layout, at, line))
  }

  /** The rope when the lines have been added one after another, each behind the one before. */
  function WithLines(r: Rope, at: nat, lines: seq<seq<byte>>): (q: Rope)
    requires at <= |r.text|
    ensures |q.text| == |r.text| + |AddedLines(lines)|
  {
    if lines == [] then r
    else
      var before := lines[..|lines| - 1];
      var s := WithLines(r, at, before);
      LineBehind(s.text, s.layout, at + |AddedLines(before)|, lines[|lines| - 1]);
      WithLine(s, at + |AddedLines(before)|, lines[|lines| - 1])
  }

  lemma {:induction false} PokedIndex(l: Layout, i: nat, v: byte, j: nat)
    requires InSlack(l, i)
    ensures Lands(Poked(l, i, v), j) == Lands(l, j)
  {
    if i >= l.size && j >= l.size {
      PokedIndex(l.rest, i - l.size, v, j - l.size);
    } else {
    }
  }

  /** Writing by index does not change where later writes land. */
  lemma PutIndex(l: Layout, i: nat, v: byte, j: nat)
    ensures Lands(PutLayout(l, i, v), j) == Lands(l, j)
  {
    if InSlack(l, i) {
      PokedIndex(l, i, v, j);
    }
  }

  /** Where there is room, an added line ends well, and there is room for the next one. */
  lemma RoomForLine(text: seq<byte>, l: Layout, at: nat, line: seq<byte>, level: bool)
    requires at <= |text| == Len(l) && Room(l, Len(l) - at, level)
    ensures LineEndsWell(text, l, at, line)
    ensures Len(LineLayout(text, l, at, line)) == Len(l) + |line| + 2
    ensures Room(LineLayout(text, l, at, line), Len(l) - at, level)
  {
    var n, m := |line|, Opened(l, text, at, |line| + 2);
    RoomGap(l, text, at, n + 2, n, level);
    RoomGap(l, text, at, n + 2, n + 1, level);
    OpenedLen(l, text, at, n + 2);
    LandsFacts(m, at + n);
    LandsFacts(m, at + n + 1);
  }
}
