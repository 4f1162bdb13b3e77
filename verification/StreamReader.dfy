/** Reading a stream up to a length or up to a pattern, over reads of any size. */
module StreamReaders {
  import opened Buffers
  import opened Bytes

  // ---- occurrences of a pattern ---------------------------------------------------------------

  predicate OccursAt(s: seq<byte>, pattern: seq<byte>, i: nat)
  {
    i + |pattern| <= |s| && s[i..i + |pattern|] == pattern
  }

  predicate EndsWith(s: seq<byte>, pattern: seq<byte>)
  {
    |pattern| <= |s| && s[|s| - |pattern|..] == pattern
  }

  /** `r` is the shortest prefix of `s` that ends in the pattern. */
  ghost predicate ShortestEnding(r: seq<byte>, s: seq<byte>, pattern: seq<byte>)
  {
    r <= s && EndsWith(r, pattern) && forall n :: 0 <= n < |r| ==> !EndsWith(s[..n], pattern)
  }

  ghost predicate NoneBefore(s: seq<byte>, pattern: seq<byte>, n: nat)
  {
    forall i :: 0 <= i < n ==> !OccursAt(s, pattern, i)
  }

  /** There is at most one shortest prefix, so what is read is decided by the stream alone. */
  lemma ShortestIsUnique(r: seq<byte>, q: seq<byte>, s: seq<byte>, pattern: seq<byte>)
    requires ShortestEnding(r, s, pattern) && ShortestEnding(q, s, pattern)
    ensures r == q
  {
    assert s[..|r|] == r && s[..|q|] == q;
  }

  /** Where no prefix shorter than `n` ends in the pattern, the pattern does not lie. */
  lemma NotBefore(s: seq<byte>, pattern: seq<byte>, n: nat)
    requires n <= |s| + 1 && forall k :: 0 <= k < n ==> !EndsWith(s[..k], pattern)
    ensures forall i :: 0 <= i && i + |pattern| < n ==> s[i..][..|pattern|] != pattern
  {
    forall i | 0 <= i && i + |pattern| < n
      ensures s[i..][..|pattern|] != pattern
    {
      var k := i + |pattern|;
      assert s[..k][i..] == s[i..][..|pattern|];
      assert !EndsWith(s[..k], pattern);
    }
  }

  lemma ResultMeans(text: Option<seq<byte>>, s: seq<byte>, pattern: seq<byte>)
    requires text.Some? ==> ShortestEnding(text.value, s, pattern)
    requires text.None? ==> forall n :: 0 <= n <= |s| ==> !EndsWith(s[..n], pattern)
    ensures var m := |pattern|;
      && (text.Some? ==> text.value <= s && m <= |text.value| && text.value[|text.value| - m..] == pattern)
      && forall i :: 0 <= i && i + m <= (if text.Some? then |text.value| - 1 else |s|) ==> s[i..][..m] != pattern
  {
    NotBefore(s, pattern, if text.Some? then |text.value| else |s| + 1);
  }

  /** It stays the shortest when more of the stream is known. */
  lemma ShortestExtends(r: seq<byte>, s: seq<byte>, more: seq<byte>, pattern: seq<byte>)
    requires ShortestEnding(r, s, pattern)
    ensures ShortestEnding(r, s + more, pattern)
  {
    forall n | 0 <= n < |r|
      ensures !EndsWith((s + more)[..n], pattern)
    {
      assert (s + more)[..n] == s[..n];
    }
  }

  /** The end of the first occurrence is the end of the shortest prefix. */
  lemma FirstIsShortest(s: seq<byte>, pattern: seq<byte>, i: nat)
    requires OccursAt(s, pattern, i) && NoneBefore(s, pattern, i) && pattern != []
    ensures ShortestEnding(s[..i + |pattern|], s, pattern)
  {
    var m := |pattern|;
    assert s[..i + m][i..] == s[i..i + m];
    forall n | 0 <= n < i + m
      ensures !EndsWith(s[..n], pattern)
    {
      if n >= m {
        assert s[..n][n - m..] == s[n - m..n];
        assert !OccursAt(s, pattern, n - m);
      }
    }
  }

  /** Without an occurrence, no prefix ends in the pattern. */
  lemma NoneAtAll(s: seq<byte>, pattern: seq<byte>, n: nat)
    requires NoneBefore(s, pattern, |s|) && pattern != [] && n <= |s|
    ensures !EndsWith(s[..n], pattern)
  {
    var m := |pattern|;
    if n >= m {
      assert s[..n][n - m..] == s[n - m..n];
      assert !OccursAt(s, pattern, n - m);
    }
  }

  /** An occurrence that is not in what is known starts in its last `|pattern|` bytes, or behind it. */
  lemma NoneStraddles(s: seq<byte>, more: seq<byte>, pattern: seq<byte>)
    requires NoneBefore(s, pattern, |s|) && pattern != []
    ensures NoneBefore(s + more, pattern, |s| - Min(|s|, |pattern|))
  {
    var t := s + more;
    forall i | 0 <= i < |s| - Min(|s|, |pattern|)
      ensures !OccursAt(t, pattern, i)
    {
      assert t[i..i + |pattern|] == s[i..i + |pattern|];
      assert !OccursAt(s, pattern, i);
    }
  }

  /** An occurrence in the part searched is one in the whole. */
  lemma PartOccurs(s: seq<byte>, pattern: seq<byte>, from: nat, i: nat)
    requires from <= |s|
    ensures OccursAt(s[from..], pattern, i) <==> OccursAt(s, pattern, from + i)
  {
    if i + |pattern| <= |s| - from {
      assert s[from..][i..i + |pattern|] == s[from + i..from + i + |pattern|];
    }
  }

  /** The first occurrence of the pattern. */
  method FindFirst(s: seq<byte>, pattern: seq<byte>) returns (r: Option<nat>)
    requires pattern != []
    ensures r.Some? ==> OccursAt(s, pattern, r.value) && NoneBefore(s, pattern, r.value)
    ensures r.None? ==> NoneBefore(s, pattern, |s|)
  {
    var i := 0;
    while i < |s|
      invariant i <= |s| && NoneBefore(s, pattern, i)
    {
      if i + |pattern| <= |s| && s[i..i + |pattern|] == pattern {
        return Some(i);
      }
      i := i + 1;
    }
    r := None;
  }

  // ---- the reader -----------------------------------------------------------------------------

  lemma SearchFacts(s: seq<byte>, pattern: seq<byte>, from: nat, found: Option<nat>)
    requires from <= |s| && pattern != [] && NoneBefore(s, pattern, from)
    requires found.Some? ==> OccursAt(s[from..], pattern, found.value) && NoneBefore(s[from..], pattern, found.value)
    requires found.None? ==> NoneBefore(s[from..], pattern, |s[from..]|)
    ensures found.Some? ==> OccursAt(s, pattern, found.value + from) && NoneBefore(s, pattern, found.value + from)
    ensures found.None? ==> NoneBefore(s, pattern, |s|)
  {
    var n := if found.Some? then found.value else |s| - from;
    forall i | from <= i < from + n
      ensures !OccursAt(s, pattern, i)
    {
      PartOccurs(s, pattern, from, i - from);
      assert !OccursAt(s[from..], pattern, i - from);
    }
    PartOccurs(s, pattern, from, n);
  }

  lemma SplitFacts(out: seq<byte>, s: seq<byte>, n: nat)
    requires n <= |s|
    ensures (out + s[..n]) + s[n..] == out + s
    ensures n == |s| ==> s[..n] == s && s[n..] == []
  {
  }

  class StreamReader {
    const buffer: Buffer
    var lengthToRead: nat
    var pattern: seq<byte>
    var lastPos: nat
    /** All bytes the flow has given, and those that have been handed out. */
    ghost var received: seq<byte>
    ghost var handedOut: seq<byte>

    /** What has been handed out and what is kept is what has been received. */
    ghost predicate Valid()
      reads this, buffer, buffer.Repr
    {
      buffer.Valid() && handedOut + buffer.Contents() == received
    }

    constructor ()
      ensures Valid() && fresh(buffer) && fresh(buffer.Repr) && received == [] && handedOut == []
    {
      buffer := new Buffer(0);
      lengthToRead, pattern, lastPos := 0, [], 0;
      received, handedOut := [], [];
      new;
      assert handedOut + buffer.Contents() == received;
    }

    /** Moves everything behind the first `n` bytes into an empty buffer. */
    static method MoveBack(b: Buffer, n: nat, buffer: Buffer)
      requires b.Valid() && 0 < n < b.size && b != buffer && buffer.Repr == {}
      modifies b, b.Repr, buffer
      ensures b.Valid() && b.Contents() == old(b.Contents())[..n] && b.Repr <= old(b.Repr)
      ensures buffer.Valid() && buffer.Contents() == old(b.Contents())[n..]
      ensures buffer.Apart(b) && fresh(buffer.Repr - old(b.Repr))
    {
      hide Chain, Proper, Nodes, Text;
      var rest := b.Break(n);
      buffer.Assign(rest);
    }

    static method TakeFront(buffer: Buffer, n: nat) returns (b: Buffer)
      requires buffer.Valid() && 0 < n <= buffer.size
      modifies buffer, buffer.Repr
      ensures buffer.Valid() && fresh(buffer.Repr - old(buffer.Repr))
      ensures fresh(b) && b.Valid() && buffer.Apart(b)
      ensures b.Contents() == old(buffer.Contents())[..n] && buffer.Contents() == old(buffer.Contents())[n..]
    {
      hide Chain, Proper, Nodes;
      SplitFacts([], buffer.Contents(), n);
      b := new Buffer(0);
      b.Assign(buffer);
      if b.size != n {
        MoveBack(b, n, buffer);
      }
    }

    /** Hands out the first `n` bytes and keeps the rest. */
    method HandOut(n: nat) returns (b: Buffer)
      requires Valid() && 0 < n <= buffer.size
      modifies this`handedOut, buffer, buffer.Repr
      ensures Valid() && fresh(b) && b.Valid() && buffer.Apart(b)
      ensures b.Contents() == old(buffer.Contents())[..n] && buffer.Contents() == old(buffer.Contents())[n..]
      ensures handedOut == old(handedOut) + b.Contents()
      ensures fresh(buffer.Repr - old(buffer.Repr))
    {
      ghost var s := buffer.Contents();
      SplitFacts(handedOut, s, n);
      b := TakeFront(buffer, n);
      handedOut := handedOut + b.Contents();
    }

    /** What a read of the flow has given is appended. */
    method Append(data: Buffer)
      requires Valid() && data.Valid() && buffer.Apart(data)
      modifies this`received, buffer, buffer.Repr, data
      ensures Valid() && buffer.Contents() == old(buffer.Contents()) + old(data.Contents())
      ensures received == old(received) + old(data.Contents())
      ensures buffer.Repr == old(buffer.Repr) + old(data.Repr)
    {
      Assoc(handedOut, buffer.Contents(), data.Contents());
      received := received + data.Contents();
      hide Chain, Proper, Nodes, Text;
      buffer.SpliceBack(data);
    }

    // ---- reading to a length ------------------------------------------------------------------

    /** The first `n` of the bytes held, as soon as there are that many. */
    ghost predicate LengthRead(b: Buffer?, n: nat, held: seq<byte>)
      reads this, buffer, if b == null then {} else {b}
    {
      if |held| < n then b == null && buffer.Contents() == held
      else b != null && b.Contents() == held[..n] && buffer.Contents() == held[n..]
    }

    method DoReadLength() returns (b: Buffer?)
      requires Valid() && lengthToRead > 0
      modifies this`handedOut, buffer, buffer.Repr
      ensures Valid() && fresh(buffer.Repr - old(buffer.Repr))
      ensures LengthRead(b, lengthToRead, old(buffer.Contents()))
      ensures handedOut == if b == null then old(handedOut) else old(handedOut) + b.Contents()
      ensures b != null ==> fresh(b) && b.Valid() && buffer.Apart(b)
    {
      b := null;
      if buffer.size >= lengthToRead {
        hide Chain, Proper, Nodes, Text;
        b := HandOut(lengthToRead);
      }
    }

    /** Starts a request; the result is null when the flow has to be read first. */
    method ReadToLength(n: nat) returns (b: Buffer?)
      requires Valid() && n > 0
      modifies this, buffer, buffer.Repr
      ensures Valid() && lengthToRead == n && received == old(received) && fresh(buffer.Repr - old(buffer.Repr))
      ensures LengthRead(b, n, old(buffer.Contents()))
      ensures handedOut == if b == null then old(handedOut) else old(handedOut) + b.Contents()
      ensures b != null ==> fresh(b) && b.Valid() && buffer.Apart(b)
    {
      lengthToRead := n;
      b := DoReadLength();
    }

    /** The flow has been read for a request that needed it. */
    method OnLengthData(data: Buffer) returns (b: Buffer?)
      requires Valid() && lengthToRead > 0 && data.Valid() && buffer.Apart(data)
      modifies this`handedOut, this`received, buffer, buffer.Repr, data, data.Repr
      ensures Valid() && received == old(received) + old(data.Contents())
      ensures fresh(buffer.Repr - old(buffer.Repr) - old(data.Repr))
      ensures LengthRead(b, lengthToRead, old(buffer.Contents()) + old(data.Contents()))
      ensures handedOut == if b == null then old(handedOut) else old(handedOut) + b.Contents()
      ensures b != null ==> fresh(b) && b.Valid() && buffer.Apart(b)
    {
      hide Chain, Proper, Nodes, Text;
      Append(data);
      b := DoReadLength();
    }

    // ---- reading to a pattern -----------------------------------------------------------------

    /** The search may go on at `lastPos` when more has been read. */
    ghost predicate Searched(held: seq<byte>)
      reads this
    {
      lastPos == |held| - Min(|held|, |pattern|)
    }

    /** The shortest prefix of what is held that ends in the pattern, as soon as there is one. */
    ghost predicate PatternRead(b: Buffer?, held: seq<byte>)
      reads this, buffer, if b == null then {} else {b}
    {
      if b == null then NoneBefore(held, pattern, |held|) && buffer.Contents() == held && Searched(held)
      else ShortestEnding(b.Contents(), held, pattern) && held == b.Contents() + buffer.Contents()
    }

    /** The first occurrence at or behind `lastPos`, counted from there. */
    method Search() returns (found: Option<nat>)
      requires Valid() && pattern != [] && lastPos <= buffer.size && NoneBefore(buffer.Contents(), pattern, lastPos)
      ensures found.Some? ==> OccursAt(buffer.Contents(), pattern, found.value + lastPos)
      ensures found.Some? ==> NoneBefore(buffer.Contents(), pattern, found.value + lastPos)
      ensures found.None? ==> NoneBefore(buffer.Contents(), pattern, buffer.size)
    {
      var chunks := buffer.WalkInternalChunk(lastPos, _ => true);
      var text := Concat(chunks);
      assert text == buffer.Contents()[lastPos..];
      found := FindFirst(text, pattern);
      SearchFacts(buffer.Contents(), pattern, lastPos, found);
    }

    method DoReadPattern() returns (b: Buffer?)
      requires Valid() && pattern != [] && lastPos <= buffer.size && NoneBefore(buffer.Contents(), pattern, lastPos)
      modifies this`handedOut, this`lastPos, buffer, buffer.Repr
      ensures Valid() && fresh(buffer.Repr - old(buffer.Repr))
      ensures PatternRead(b, old(buffer.Contents()))
      ensures handedOut == if b == null then old(handedOut) else old(handedOut) + b.Contents()
      ensures b != null ==> fresh(b) && b.Valid() && buffer.Apart(b)
    {
      ghost var held := buffer.Contents();
      var found := Search();
      if found.None? {
        lastPos := buffer.size - Min(buffer.size, |pattern|);
        b := null;
      } else {
        var len := found.value + |pattern| + lastPos;
        FirstIsShortest(held, pattern, found.value + lastPos);
        SplitFacts([], held, len);
        hide Chain, Proper, Nodes, Text;
        b := HandOut(len);
      }
    }

    method ReadToPattern(pattern: seq<byte>) returns (b: Buffer?)
      requires Valid() && pattern != []
      modifies this, buffer, buffer.Repr
      ensures Valid() && this.pattern == pattern && received == old(received) && fresh(buffer.Repr - old(buffer.Repr))
      ensures PatternRead(b, old(buffer.Contents()))
      ensures handedOut == if b == null then old(handedOut) else old(handedOut) + b.Contents()
      ensures b != null ==> fresh(b) && b.Valid() && buffer.Apart(b)
    {
      this.pattern := pattern;
      lastPos := 0;
      b := DoReadPattern();
    }

    method OnPatternData(data: Buffer) returns (b: Buffer?)
      requires Valid() && pattern != [] && data.Valid() && buffer.Apart(data)
      requires Searched(buffer.Contents()) && NoneBefore(buffer.Contents(), pattern, buffer.size)
      modifies this`handedOut, this`received, this`lastPos, buffer, buffer.Repr, data, data.Repr
      ensures Valid() && received == old(received) + old(data.Contents())
      ensures fresh(buffer.Repr - old(buffer.Repr) - old(data.Repr))
      ensures PatternRead(b, old(buffer.Contents()) + old(data.Contents()))
      ensures handedOut == if b == null then old(handedOut) else old(handedOut) + b.Contents()
      ensures b != null ==> fresh(b) && b.Valid() && buffer.Apart(b)
    {
      hide Chain, Proper, Nodes, Text, PatternRead;
      NoneStraddles(buffer.Contents(), data.Contents(), pattern);
      Append(data);
      b := DoReadPattern();
    }

    /** Gives away everything that is kept. */
    method ConsumeRemainData() returns (b: Buffer)
      requires Valid()
      modifies this`handedOut, buffer
      ensures Valid() && fresh(b) && b.Valid() && b.Contents() == old(buffer.Contents()) && buffer.Contents() == []
      ensures handedOut == received
    {
      b := new Buffer(0);
      handedOut := handedOut + buffer.Contents();
      hide Chain, Proper, Nodes, Text;
      b.Assign(buffer);
    }
  }

  // ---- whole requests -------------------------------------------------------------------------

  lemma NothingRead(chunks: seq<seq<byte>>, pattern: seq<byte>)
    ensures chunks[..0] == [] && Concat(chunks[..0]) == []
  {
  }

  lemma WholeFound(t: seq<byte>, chunks: seq<seq<byte>>, i: nat, pattern: seq<byte>)
    requires i <= |chunks| && ShortestEnding(t, Concat(chunks[..i]), pattern)
    ensures ShortestEnding(t, Concat(chunks), pattern)
  {
    ConcatFrom(chunks, i);
    var held := Concat(chunks[..i]);
    var more := Concat(chunks)[|held|..];
    assert Concat(chunks) == held + more;
    ShortestExtends(t, held, more, pattern);
  }

  lemma NoneEver(chunks: seq<seq<byte>>, pattern: seq<byte>)
    requires pattern != [] && NoneBefore(Concat(chunks), pattern, |Concat(chunks)|)
    ensures forall n :: 0 <= n <= |Concat(chunks)| ==> !EndsWith(Concat(chunks)[..n], pattern)
  {
    forall n | 0 <= n <= |Concat(chunks)|
      ensures !EndsWith(Concat(chunks)[..n], pattern)
    {
      NoneAtAll(Concat(chunks), pattern, n);
    }
  }

  /** Reads to a pattern from a flow that gives its bytes in any chunks. What is read does not depend on them. */
  method PatternOver(pattern: seq<byte>, chunks: seq<seq<byte>>) returns (text: Option<seq<byte>>, reader: StreamReader)
    requires pattern != []
    ensures text.Some? ==> ShortestEnding(text.value, Concat(chunks), pattern)
    ensures text.None? ==> forall n :: 0 <= n <= |Concat(chunks)| ==> !EndsWith(Concat(chunks)[..n], pattern)
    ensures var s, m := Concat(chunks), |pattern|;
      && (text.Some? ==> text.value <= s && m <= |text.value| && text.value[|text.value| - m..] == pattern)
      && forall i :: 0 <= i && i + m <= (if text.Some? then |text.value| - 1 else |s|) ==> s[i..][..m] != pattern
    ensures reader.Valid() && reader.handedOut == if text.Some? then text.value else []
  {
    hide Chain, Proper, Nodes, Text, Concat, EndsWith, ShortestEnding, NoneBefore;
    reader := new StreamReader();
    var b := reader.ReadToPattern(pattern);
    var i := 0;
    NothingRead(chunks, pattern);
    while b == null && i < |chunks|
      invariant i <= |chunks| && fresh(reader) && fresh(reader.buffer) && fresh(reader.buffer.Repr)
      invariant reader.Valid() && reader.pattern == pattern
      invariant reader.PatternRead(b, Concat(chunks[..i])) && (b == null ==> reader.handedOut == [])
      invariant b != null ==> reader.handedOut == b.Contents() && b.Valid()
    {
      var data := BufferOf(chunks[i]);
      ConcatNext(chunks, i);
      b := reader.OnPatternData(data);
      i := i + 1;
    }
    text := None;
    if b != null {
      var t := TextOf(b);
      text := Some(t);
      WholeFound(t, chunks, i, pattern);
    } else {
      assert chunks[..i] == chunks;
      NoneEver(chunks, pattern);
    }
    ResultMeans(text, Concat(chunks), pattern);
  }
}
