/** The in-place rewriter of an HTTP message stream. */
module Rewriters {
  import opened Buffers
  import opened Bytes
  import opened HeaderLines
  import opened HttpRuns
  import opened HttpStream
  import opened Layouts
  import opened RewriterCarry
  import opened RewriterFacts
  import opened RewriterRoom
  import opened RewriterRopes

  /** The longest unfinished token that is kept for the next call. */
  const MAX_PENDING := 8192

  /** More than the limit waits behind `token`; a negative difference wraps around and is larger than any limit. */
  predicate TooLong(token: int, size: int)
  {
    token > size || size - token > MAX_PENDING
  }

  datatype Outcome = Done | BlockTooLong | UserError | ParserError

  lemma WithNone(r: Rope, at: nat)
    requires at <= |r.text|
    ensures WithLines(r, at, []) == r
  {
  }

  lemma WithPush(r: Rope, at: nat, lines: seq<seq<byte>>, i: nat)
    requires at <= |r.text| && i < |lines|
    ensures WithLines(r, at, lines[..i + 1]) == WithLine(WithLines(r, at, lines[..i]), at + |AddedLines(lines[..i])|,
                                                         lines[i])
  {
    assert lines[..i + 1][..i] == lines[..i];
  }

  lemma PrependFacts(s: seq<byte>, t: seq<byte>, w: seq<byte>)
    requires Gapped(s, t, 0, |w|)
    ensures |t| == |w| + |s| && Overwrite(t, 0, w) == w + s
  {
    GapFacts(s, t, 0, |w|);
  }

  lemma KeepLine(s: seq<byte>, from: nat, to: nat, line: seq<byte>)
    requires from <= to && to + 2 <= |s| && s[to..to + 2] == CRLF
    ensures Replace(s, from, to + 2, line + CRLF) == Replace(s, from, to, line)
    ensures line == s[from..to] ==> Replace(s, from, to, line) == s
  {
    assert s[to..] == CRLF + s[to + 2..];
    assert s[..from] + (line + CRLF) + s[to + 2..] == s[..from] + line + (CRLF + s[to + 2..]);
  }

  /** What putting the edited line in place of the old one, with its line end, means for each answer. */
  lemma LinePut(s: seq<byte>, from: nat, to: nat, action: HeaderAction)
    requires from <= to && to + 2 <= |s| && s[to..to + 2] == CRLF
    ensures var r := Replace(s, from, to + 2, NewLine(action, s[from..to]));
      && (action == KeepHeader ==> r == s)
      && (action == DeleteHeader ==> r == s[..from] + s[to + 2..])
      && (action.ReplaceHeader? ==> r == s[..from] + action.line + [13, 10] + s[to + 2..])
  {
    if action.ReplaceHeader? {
      assert s[..from] + (action.line + CRLF) == s[..from] + action.line + [13, 10];
    } else if action == KeepHeader {
      KeepLine(s, from, to, s[from..to]);
    }
  }

  lemma AddedPush(lines: seq<seq<byte>>, i: nat)
    requires i < |lines|
    ensures AddedLines(lines[..i + 1]) == AddedLines(lines[..i]) + (lines[i] + CRLF)
  {
    assert lines[..i + 1][..i] == lines[..i];
  }

  class Rewriter {
    const policy: Policy
    const isRequest: bool

    // Offsets into the buffer being rewritten. Those of a token that is not being collected are stale.
    var bufferOffset: int
    var token: int
    var tokenEnd: int
    var field: int
    var fieldEnd: int
    var value: int
    var valueEnd: int
    var nextToken: int

    var state: State
    var setToken: bool
    var stepBack: bool
    var headerComplete: bool
    var messageComplete: bool
    var errored: bool

    /** What the delegate has been told. */
    var history: seq<Event>

    /** The parser: where it stands in the stream. */
    var parser: Pos

    /** The text already handed over in earlier calls. */
    ghost var emitted: seq<byte>

    /** The part of an unfinished token that waits for the next call. */
    var pending: seq<byte>
    /** Set when an added line has not come out right. */
    ghost var misplaced: bool

    /** The offsets, over a text. */
    ghost function LookAt(text: seq<byte>): View
      reads this
    {
      View(text, token, tokenEnd, field, fieldEnd, value, valueEnd, state, history)
    }

    ghost function Look(buffer: Buffer): View
      reads this, buffer
    {
      LookAt(buffer.Contents())
    }

    /** The parser stands at offset `here` of the buffer, and the offsets delimit what they should. */
    ghost predicate Tracks(buffer: Buffer, here: int)
      reads this, buffer, buffer.Repr
    {
      buffer.Valid() && Tied(Look(buffer), parser, here, emitted, misplaced)
    }

    ghost function RopeOf(buffer: Buffer): Rope
      reads buffer, Nodes(buffer.spine)
    {
      Rope(buffer.Contents(), LayoutOf(buffer.spine))
    }

    lemma RopeFacts(buffer: Buffer)
      requires buffer.Valid()
      ensures RopeOf(buffer).text == buffer.Contents() && RopeOf(buffer).layout == LayoutOf(buffer.spine)
      ensures |RopeOf(buffer).text| == Len(RopeOf(buffer).layout)
    {
      LayoutLen(buffer.spine);
    }

    /** Lines that may yet be added to the header block where `p` stands, at `here`, will end well. */
    ghost predicate Held(buffer: Buffer, p: Pos, here: int)
      reads `token, buffer, Nodes(buffer.spine)
    {
      Firm(policy, LayoutOf(buffer.spine), buffer.size - Hold(p, here, token))
    }

    /** What the buffer will be when the parser, at `p` and at offset `here`, has taken all of it. */
    ghost function Goal(buffer: Buffer, p: Pos, here: int): Rope
      reads buffer, Nodes(buffer.spine)
    {
      if p.Ok() && here <= buffer.size then RopeRun(policy, p, RopeOf(buffer), buffer.size - here) else RopeOf(buffer)
    }

    // ---- the delegate's view of the current token ---------------------------------------------

    method CurrentToken(buffer: Buffer) returns (text: seq<byte>)
      requires buffer.Valid() && 0 <= token <= tokenEnd <= buffer.size && token < buffer.size
      ensures text == buffer.Contents()[token..tokenEnd]
    {
      text := buffer.GetData(token, tokenEnd - token);
    }

    method CurrentHeader(buffer: Buffer) returns (name: seq<byte>, val: seq<byte>)
      requires buffer.Valid() && 0 <= field <= fieldEnd <= value <= valueEnd <= buffer.size && value < buffer.size
      ensures name == buffer.Contents()[field..fieldEnd] && val == buffer.Contents()[value..valueEnd]
    {
      name := buffer.GetData(field, fieldEnd - field);
      val := buffer.GetData(value, valueEnd - value);
    }

    // ---- the three edits ----------------------------------------------------------------------

    static method ReplaceText(buffer: Buffer, from: nat, to: nat, text: seq<byte>)
      requires buffer.Valid() && from <= to < buffer.size
      modifies buffer, buffer.Repr
      ensures buffer.Valid() && fresh(buffer.Repr - old(buffer.Repr))
      ensures buffer.Contents() == Replace(old(buffer.Contents()), from, to, text)
      ensures LayoutOf(buffer.spine) == Resized(old(LayoutOf(buffer.spine)), old(buffer.Contents()), from, to, |text|)
    {
      hide Chain, Proper, Nodes, Text, Last, LayoutOf, Opened, Shrunk, Replace, Overwrite, Cut, Gapped, GapOpened;
      var diff := |text| - (to - from);
      ghost var was, l := buffer.Contents(), LayoutOf(buffer.spine);
      if diff > 0 {
        buffer.Insert(from, diff);
        GapOpenedFacts(was, l, buffer.Contents(), LayoutOf(buffer.spine), from, diff);
      } else {
        buffer.Shrink(from, -diff);
      }
      ReplaceByResize(was, buffer.Contents(), from, to, text);
      buffer.SetData(from, text);
    }

    method RewriteCurrentToken(buffer: Buffer, text: seq<byte>)
      requires buffer.Valid() && 0 <= token <= tokenEnd < buffer.size
      modifies this`tokenEnd, this`nextToken, this`bufferOffset, buffer, buffer.Repr
      ensures buffer.Valid() && fresh(buffer.Repr - old(buffer.Repr))
      ensures buffer.Contents() == Replace(old(buffer.Contents()), token, old(tokenEnd), text)
      ensures LayoutOf(buffer.spine) == Resized(old(LayoutOf(buffer.spine)), old(buffer.Contents()), token,
                                                old(tokenEnd), |text|)
      ensures tokenEnd == token + |text|
      ensures nextToken == old(nextToken) + |text| - (old(tokenEnd) - token)
      ensures bufferOffset == old(bufferOffset) + |text| - (old(tokenEnd) - token)
    {
      hide Chain, Proper, Nodes, Text, Last, LayoutOf, Resized, Replace;
      var diff := |text| - (tokenEnd - token);
      ReplaceText(buffer, token, tokenEnd, text);
      tokenEnd := tokenEnd + diff;
      nextToken := nextToken + diff;
      bufferOffset := bufferOffset + diff;
    }

    method DeleteCurrentHeader(buffer: Buffer)
      requires buffer.Valid() && 0 <= token <= tokenEnd && tokenEnd + 2 <= buffer.size
      modifies this`nextToken, this`bufferOffset, buffer, buffer.Repr
      ensures buffer.Valid() && fresh(buffer.Repr - old(buffer.Repr))
      ensures buffer.Contents() == Replace(old(buffer.Contents()), token, tokenEnd + 2, [])
      ensures LayoutOf(buffer.spine) == Shrunk(old(LayoutOf(buffer.spine)), old(buffer.Contents()), token,
                                               tokenEnd + 2 - token)
      ensures nextToken == old(nextToken) - (tokenEnd - token + 2)
      ensures bufferOffset == old(bufferOffset) - (tokenEnd - token + 2)
    {
      hide Chain, Proper, Nodes, Text, Last, LayoutOf, Shrunk;
      var len := tokenEnd - token + 2;
      buffer.Shrink(token, len);
      bufferOffset := bufferOffset - len;
      nextToken := nextToken - len;
    }

    /** Deletes a header and asks for it again, as a delegate may: the offsets still delimit the place of the old one.
        What is read is what followed the line, and all of it lies inside the buffer exactly if enough does follow. */
    method DeleteAndAsk(buffer: Buffer) returns (inside: bool, name: seq<byte>, val: seq<byte>)
      requires buffer.Valid() && 0 <= token == field <= fieldEnd <= value <= valueEnd == tokenEnd
      requires tokenEnd + 2 <= buffer.size
      modifies this`nextToken, this`bufferOffset, buffer, buffer.Repr
      ensures buffer.Valid() && fresh(buffer.Repr - old(buffer.Repr))
      ensures var behind := old(buffer.Contents())[tokenEnd + 2..];
        && buffer.Contents() == old(buffer.Contents())[..token] + behind
        && (inside <==> |behind| >= valueEnd - token && |behind| > value - token)
        && (inside ==> name == behind[..fieldEnd - token] && val == behind[value - token..valueEnd - token])
    {
      hide Chain, Proper, Nodes, Text, Last, LayoutOf, Shrunk;
      ghost var was := buffer.Contents();
      DeleteCurrentHeader(buffer);
      assert buffer.Contents() == was[..token] + was[tokenEnd + 2..];
      inside, name, val := value < buffer.size && valueEnd <= buffer.size, [], [];
      if inside {
        name, val := CurrentHeader(buffer);
      }
    }

    /** Writes a line end through the indexing operator, so it may land in front of its place. */
    static method PutLineEnd(buffer: Buffer, at: nat)
      requires buffer.Valid() && at + 2 <= buffer.size
      modifies buffer, buffer.Repr
      ensures buffer.Valid() && fresh(buffer.Repr - old(buffer.Repr))
      ensures var l := old(LayoutOf(buffer.spine));
        && buffer.Contents() == Put(Put(old(buffer.Contents()), at, 13, Lands(l, at)), at + 1, 10, Lands(l, at + 1))
        && LayoutOf(buffer.spine) == PutLayout(PutLayout(l, at, 13), at + 1, 10)
    {
      hide Chain, Proper, Nodes, Text, Last, LayoutOf, Skew, InSlack, Poked;
      PutIndex(LayoutOf(buffer.spine), at, 13, at + 1);
      var skew1, slack1 := buffer.SetAt(at, 13);
      var skew2, slack2 := buffer.SetAt(at + 1, 10);
    }

    static method InsertLine(buffer: Buffer, at: nat, line: seq<byte>)
      requires buffer.Valid() && at <= buffer.size
      modifies buffer, buffer.Repr
      ensures buffer.Valid() && fresh(buffer.Repr - old(buffer.Repr))
      ensures buffer.Contents() == LineAdded(old(buffer.Contents()), old(LayoutOf(buffer.spine)), at, line)
      ensures LayoutOf(buffer.spine) == LineLayout(old(buffer.Contents()), old(LayoutOf(buffer.spine)), at, line)
    {
      hide Chain, Proper, Nodes, Text, Last, LayoutOf, Opened, GapBytes, Splice, Overwrite, Lands, Put, PutLayout;
      ghost var s, l := buffer.Contents(), LayoutOf(buffer.spine);
      buffer.Insert(at, |line| + 2);
      GapOpenedFacts(s, l, buffer.Contents(), LayoutOf(buffer.spine), at, |line| + 2);
      GapFacts(s, buffer.Contents(), at, |line| + 2);
      buffer.SetData(at, line);
      PutLineEnd(buffer, at + |line|);
    }

    /** Puts a header line in front of the current token. */
    method AddHeader(buffer: Buffer, header: seq<byte>)
      requires buffer.Valid() && 0 <= token <= buffer.size
      modifies this`token, this`nextToken, this`bufferOffset, this`misplaced, buffer, buffer.Repr
      ensures buffer.Valid() && fresh(buffer.Repr - old(buffer.Repr))
      ensures token == old(token) + |header| + 2 && nextToken == old(nextToken) + |header| + 2
      ensures bufferOffset == old(bufferOffset) + |header| + 2
      ensures buffer.Contents() == LineAdded(old(buffer.Contents()), old(LayoutOf(buffer.spine)), old(token), header)
      ensures LayoutOf(buffer.spine) == LineLayout(old(buffer.Contents()), old(LayoutOf(buffer.spine)), old(token),
                                                   header)
      ensures var was, l := old(buffer.Contents()), old(LayoutOf(buffer.spine));
        && (buffer.Contents() == LineMeant(was, old(token), header) <==> LineEndsWell(was, l, old(token), header))
        && (misplaced <==> old(misplaced) || !LineEndsWell(was, l, old(token), header))
      ensures buffer.Contents()[token..] == old(buffer.Contents())[old(token)..]
      ensures !misplaced ==> buffer.Contents()[..token] == old(buffer.Contents())[..old(token)] + (header + CRLF)
    {
      hide Chain, Proper, Nodes, Text, Last, LayoutOf, LineAdded, LineLayout, LineMeant, LineEndsWell;
      var len := |header|;
      LineExact(buffer.Contents(), LayoutOf(buffer.spine), token, header);
      LineBehind(buffer.Contents(), LayoutOf(buffer.spine), token, header);
      misplaced := misplaced || !LineEndsWell(buffer.Contents(), LayoutOf(buffer.spine), token, header);
      InsertLine(buffer, token, header);
      bufferOffset := bufferOffset + len + 2;
      token := token + len + 2;
      nextToken := nextToken + len + 2;
    }

    // ---- asking the delegate ------------------------------------------------------------------

    /** If what was told first was approved, and what was told since, then all of it was. */
    lemma ApprovesThrough(first: seq<Event>, second: seq<Event>)
      requires Approves(policy, first, second)
      ensures Approves(policy, second, history) ==> Approves(policy, first, history)
    {
      if Approves(policy, second, history) {
        ApprovesBoth(policy, first, second, history);
      }
    }

    /** The offsets are counted from the token on, and it waits. */
    method KeepToken(ghost text: seq<byte>, tail: seq<byte>)
      requires 0 <= token <= |text| && tail == text[token..]
      modifies this`pending, this`token, this`tokenEnd, this`field, this`fieldEnd, this`value, this`valueEnd
      ensures LookAt(pending) == Rebased(old(LookAt(text)))
    {
      pending := tail;
      tokenEnd, field, fieldEnd := tokenEnd - token, field - token, fieldEnd - token;
      value, valueEnd, token := value - token, valueEnd - token, 0;
    }

    /** Reports a token of the start line, behind which `sep` lies, and carries out the answer. */
    method AskToken(buffer: Buffer, kind: Kind, ghost sep: seq<byte>)
      requires buffer.Valid() && 0 <= token <= tokenEnd < buffer.size && !errored
      modifies this`tokenEnd, this`nextToken, this`bufferOffset, this`history, this`errored, buffer, buffer.Repr
      ensures buffer.Valid() && fresh(buffer.Repr - old(buffer.Repr))
      ensures errored ==> Refused(policy, history)
      ensures !errored ==> Approves(policy, old(history), history)
      ensures var tok := old(buffer.Contents())[token..old(tokenEnd)];
        !errored ==> TokenEdited(policy, old(Look(buffer)), Look(buffer).(token := tokenEnd + |sep|), kind, tok, sep)
      ensures !errored ==> token <= tokenEnd && nextToken - tokenEnd == old(nextToken - tokenEnd)
      ensures !errored ==> buffer.size - tokenEnd == old(buffer.size - tokenEnd)
      ensures !errored ==> buffer.size - bufferOffset == old(buffer.size - bufferOffset)
      ensures !errored ==>
        RopeOf(buffer) == TokenRope(policy, old(history), kind, old(RopeOf(buffer)), old(token), old(tokenEnd))
      ensures history == old(history) + [Token(kind, old(buffer.Contents())[token..old(tokenEnd)])]
      ensures errored <==> policy.token(history).RejectToken?
      ensures policy.token(history).KeepToken? ==> buffer.Contents() == old(buffer.Contents())
      ensures policy.token(history).ReplaceToken? ==>
        buffer.Contents() ==
          old(buffer.Contents())[..token] + policy.token(history).text + old(buffer.Contents())[old(tokenEnd)..]
    {
      hide Refused, Approves, Chain, Proper, Nodes, Text, Last, LayoutOf, Resized;
      var text := CurrentToken(buffer);
      Told(policy, history, Token(kind, text));
      history := history + [Token(kind, text)];
      match policy.token(history) {
        case KeepToken =>
          assert buffer.Contents() == Replace(buffer.Contents(), token, tokenEnd, text);
        case ReplaceToken(t) =>
          RewriteCurrentToken(buffer, t);
        case RejectToken =>
          errored := true;
      }
    }

    method TellHeader(buffer: Buffer)
      requires buffer.Valid() && 0 <= token == field <= fieldEnd <= value <= valueEnd == tokenEnd < buffer.size
      modifies this`history
      ensures var h := SeenHeader(Look(buffer));
        history == old(history) + [Pair(h.Line(), h.name, h.value)] && h.Line() == buffer.Contents()[token..tokenEnd]
      ensures if policy.header(history) == RejectHeader then Refused(policy, history)
        else Approves(policy, old(history), history)
    {
      SeenLine(Look(buffer));
      var line := CurrentToken(buffer);
      var name, val := CurrentHeader(buffer);
      Told(policy, history, Pair(line, name, val));
      history := history + [Pair(line, name, val)];
    }

    method EditHeaderLine(buffer: Buffer, action: HeaderAction, ghost h: Header)
      requires buffer.Valid() && 0 <= token <= tokenEnd && action != RejectHeader
      requires nextToken == tokenEnd + 2 <= buffer.size && buffer.Contents()[tokenEnd..tokenEnd + 2] == CRLF
      requires h.Line() == buffer.Contents()[token..tokenEnd]
      requires NeverShortens(policy) ==> |NewLine(action, h.Line())| >= |h.Line()| + 2
      modifies this`tokenEnd, this`nextToken, this`bufferOffset, buffer, buffer.Repr
      ensures buffer.Valid() && fresh(buffer.Repr - old(buffer.Repr))
      ensures buffer.Contents() == Replace(old(buffer.Contents()), token, token + |h.Line()| + 2,
                                           NewLine(action, h.Line()))
      ensures nextToken == token + |NewLine(action, h.Line())|
      ensures buffer.size - nextToken == old(buffer.size - nextToken)
      ensures buffer.size - bufferOffset == old(buffer.size - bufferOffset)
      ensures LayoutOf(buffer.spine) ==
        LineResized(old(LayoutOf(buffer.spine)), old(buffer.Contents()), old(token), old(tokenEnd), action)
      ensures old(nextToken < buffer.size && Firm(policy, LayoutOf(buffer.spine), buffer.size - token)) ==>
        Firm(policy, LayoutOf(buffer.spine), buffer.size - nextToken)
    {
      hide Chain, Proper, Nodes, Text, Last, LayoutOf, Firm, NeverShortens, Resized, Shrunk, KeepsFirm;
      ghost var was, l := buffer.Contents(), LayoutOf(buffer.spine);
      LayoutLen(buffer.spine);
      LineFirm(policy, l, was, token, tokenEnd, action);
      if action.ReplaceHeader? {
        KeepLine(was, token, tokenEnd, action.line);
        RewriteCurrentToken(buffer, action.line);
      } else if action.DeleteHeader? {
        DeleteCurrentHeader(buffer);
      } else {
        KeepLine(was, token, tokenEnd, h.Line());
      }
    }

    /** Reports a header line and carries out the answer. */
    method AskHeader(buffer: Buffer)
      requires buffer.Valid() && 0 <= token == field <= fieldEnd <= value <= valueEnd == tokenEnd && !errored
      requires nextToken == tokenEnd + 2 <= buffer.size && buffer.Contents()[tokenEnd..tokenEnd + 2] == CRLF
      modifies this`tokenEnd, this`nextToken, this`bufferOffset, this`history, this`errored, buffer, buffer.Repr
      ensures buffer.Valid() && fresh(buffer.Repr - old(buffer.Repr))
      ensures errored ==> Refused(policy, history)
      ensures !errored ==> Approves(policy, old(history), history)
      ensures !errored ==>
        var v := old(Look(buffer));
        HeaderEdited(policy, v, Look(buffer).(token := nextToken), SeenHeader(v))
      ensures !errored ==> token <= nextToken && buffer.size - nextToken == old(buffer.size - nextToken)
      ensures !errored ==> buffer.size - bufferOffset == old(buffer.size - bufferOffset)
      ensures !errored ==>
        var v := old(Look(buffer));
        RopeOf(buffer) == HeaderRope(policy, v.history, old(RopeOf(buffer)), v.token, SeenHeader(v))
      ensures !errored && old(nextToken < buffer.size && Firm(policy, LayoutOf(buffer.spine), buffer.size - token)) ==>
        Firm(policy, LayoutOf(buffer.spine), buffer.size - nextToken)
      ensures var v, now, answer := old(Look(buffer)), buffer.Contents(), policy.header(history);
        && history == v.history
             + [Pair(v.text[v.token..v.tokenEnd], v.text[v.field..v.fieldEnd], v.text[v.value..v.valueEnd])]
        && (errored <==> answer == RejectHeader)
        && (answer == KeepHeader ==> now == v.text)
        && (answer == DeleteHeader ==> now == v.text[..v.token] + v.text[v.tokenEnd + 2..])
        && (answer.ReplaceHeader? ==>
            now == v.text[..v.token] + answer.line + [13, 10] + v.text[v.tokenEnd + 2..])
    {
      hide LineResized, Replace, NewLine, Refused, Approves, Chain, Proper, Nodes, Text, Last, LayoutOf, Firm;
      hide NeverShortens;
      TellHeader(buffer);
      NotShorter(policy, history);
      LinePut(buffer.Contents(), token, tokenEnd, policy.header(history));
      if policy.header(history) == RejectHeader {
        errored := true;
      } else {
        EditHeaderLine(buffer, policy.header(history), old(SeenHeader(Look(buffer))));
      }
    }

    /** One more line; if there is room for it, it comes out right, and there is room for the next. */
    method AddNext(buffer: Buffer, line: seq<byte>, ghost m: int, ghost level: bool)
      requires buffer.Valid() && 0 <= token <= buffer.size && m == buffer.size - token
      modifies this`token, this`nextToken, this`bufferOffset, this`misplaced, buffer, buffer.Repr
      ensures buffer.Valid() && fresh(buffer.Repr - old(buffer.Repr))
      ensures token == old(token) + |line| + 2 && bufferOffset == old(bufferOffset) + |line| + 2
      ensures |buffer.Contents()| == |old(buffer.Contents())| + |line| + 2
      ensures buffer.Contents()[token..] == old(buffer.Contents())[old(token)..]
      ensures RopeOf(buffer) == WithLine(old(RopeOf(buffer)), old(token), line)
      ensures old(misplaced) ==> misplaced
      ensures !misplaced ==> buffer.Contents()[..token] == old(buffer.Contents())[..old(token)] + (line + CRLF)
      ensures old(Room(LayoutOf(buffer.spine), m, level)) ==>
        misplaced == old(misplaced) && Room(LayoutOf(buffer.spine), m, level)
    {
      hide Chain, Proper, Nodes, Text, Last, LayoutOf, LineAdded, LineLayout, LineMeant, LineEndsWell, Room;
      ghost var was, l, at := buffer.Contents(), LayoutOf(buffer.spine), token;
      LayoutLen(buffer.spine);
      LineBehind(was, l, at, line);
      if Room(l, m, level) {
        RoomForLine(was, l, at, line, level);
      }
      AddHeader(buffer, line);
    }

    method AddAll(buffer: Buffer, lines: seq<seq<byte>>)
      requires buffer.Valid() && 0 <= token <= buffer.size && (AddsNothing(policy) ==> lines == [])
      modifies this`token, this`nextToken, this`bufferOffset, this`misplaced, buffer, buffer.Repr
      ensures buffer.Valid() && fresh(buffer.Repr - old(buffer.Repr))
      ensures var n := |AddedLines(lines)|;
        && token == old(token) + n && bufferOffset == old(bufferOffset) + n
        && |buffer.Contents()| == |old(buffer.Contents())| + n
      ensures buffer.Contents()[token..] == old(buffer.Contents())[old(token)..]
      ensures RopeOf(buffer) == WithLines(old(RopeOf(buffer)), old(token), lines)
      ensures old(misplaced) ==> misplaced
      ensures !misplaced ==> buffer.Contents()[..token] == old(buffer.Contents())[..old(token)] + AddedLines(lines)
      ensures old(token < buffer.size && Firm(policy, LayoutOf(buffer.spine), buffer.size - token)) ==>
        misplaced == old(misplaced) && Firm(policy, LayoutOf(buffer.spine), buffer.size - token - 1)
    {
      hide WithLine, WithLines, Chain, Proper, Nodes, Text, Last, LayoutOf, LineAdded, LineLayout, LineMeant;
      hide LineEndsWell, Room, NeverShortens, AddsNothing;
      ghost var was, start := buffer.Contents()[..token], buffer.Contents()[token..];
      ghost var rope, at := RopeOf(buffer), token;
      ghost var m, level := buffer.size - token, NeverShortens(policy);
      ghost var firm := m > 0 && !AddsNothing(policy) && Firm(policy, LayoutOf(buffer.spine), m);
      if firm {
        FirmRoom(policy, LayoutOf(buffer.spine), m);
      }
      WithNone(rope, at);
      var i := 0;
      while i < |lines|
        invariant i <= |lines| && buffer.Valid() && fresh(buffer.Repr - old(buffer.Repr))
        invariant token == old(token) + |AddedLines(lines[..i])|
        invariant bufferOffset == old(bufferOffset) + |AddedLines(lines[..i])|
        invariant 0 <= token <= |buffer.Contents()| == |old(buffer.Contents())| + |AddedLines(lines[..i])|
        invariant buffer.Contents()[token..] == start
        invariant RopeOf(buffer) == WithLines(rope, at, lines[..i])
        invariant old(misplaced) ==> misplaced
        invariant !misplaced ==> buffer.Contents()[..token] == was + AddedLines(lines[..i])
        invariant firm ==> misplaced == old(misplaced) && Room(LayoutOf(buffer.spine), m, level)
        invariant AddsNothing(policy) ==> misplaced == old(misplaced)
      {
        AddedPush(lines, i);
        WithPush(rope, at, lines, i);
        Assoc(was, AddedLines(lines[..i]), lines[i] + CRLF);
        AddNext(buffer, lines[i], m, level);
        i := i + 1;
      }
      assert lines[..i] == lines;
      if firm {
        RoomFirm(policy, LayoutOf(buffer.spine), m);
      }
    }

    /** Reports the end of the header lines and carries out the answer. */
    method AskDone(buffer: Buffer)
      requires buffer.Valid() && 0 <= token <= buffer.size && !errored
      modifies this`token, this`nextToken, this`bufferOffset, this`misplaced, this`history, this`errored
      modifies buffer, buffer.Repr
      ensures buffer.Valid() && fresh(buffer.Repr - old(buffer.Repr))
      ensures errored ==> Refused(policy, history)
      ensures !errored ==> Approves(policy, old(history), history)
      ensures !errored ==> DoneEdited(policy, old(Look(buffer)), Look(buffer), old(misplaced), misplaced)
      ensures !errored ==> token >= old(token)
      ensures !errored ==> buffer.size - token == old(buffer.size - token)
      ensures !errored ==> buffer.size - bufferOffset == old(buffer.size - bufferOffset)
      ensures !errored ==>
        RopeOf(buffer) == DoneRope(policy, old(history), old(RopeOf(buffer)), old(token))
      ensures history == old(history) + [HeadersDone] && (errored <==> policy.done(history).RejectHeaders?)
      ensures old(token < buffer.size && Firm(policy, LayoutOf(buffer.spine), buffer.size - token)) ==>
        misplaced == old(misplaced) && (!errored ==> Firm(policy, LayoutOf(buffer.spine), buffer.size - token - 1))
    {
      hide WithLines, Refused, Approves, Chain, Proper, Nodes, Text, Last, LayoutOf, NeverShortens, AddsNothing;
      Told(policy, history, HeadersDone);
      AddsNone(policy, history + [HeadersDone]);
      history := history + [HeadersDone];
      match policy.done(history) {
        case AddHeaders(lines) =>
          AddAll(buffer, lines);
        case RejectHeaders =>
          errored := true;
      }
    }

    // ---- parser callbacks ---------------------------------------------------------------------

    method OnMessageBegin()
      requires state == Init
      modifies this`state, this`setToken, this`stepBack
      ensures state == (if isRequest then InMethod else InVersion) && setToken && stepBack
    {
      state := if isRequest then InMethod else InVersion;
      setToken := true;
      stepBack := true;
    }

    /** The second token of the start line begins at `start`, so the first one is complete. */
    method BeginSecond(buffer: Buffer, kind: Kind, start: nat, len: nat, next: State)
      requires buffer.Valid() && !errored && 0 <= token < start < buffer.size
      modifies this`token, this`tokenEnd, this`nextToken, this`bufferOffset, this`state, this`history, this`errored
      modifies buffer, buffer.Repr
      ensures buffer.Valid() && fresh(buffer.Repr - old(buffer.Repr))
      ensures errored ==> Refused(policy, history)
      ensures !errored ==> Approves(policy, old(history), history)
      ensures !errored ==> buffer.size - bufferOffset == old(buffer.size - bufferOffset)
      ensures !errored ==>
        RopeOf(buffer) == TokenRope(policy, old(history), kind, old(RopeOf(buffer)), old(token), start - 1)
      ensures !errored ==>
        var v, w := old(Look(buffer)), Look(buffer);
        && TokenEdited(policy, v, w, kind, v.text[v.token..start - 1], SP)
        && w.tokenEnd == w.token + len && w.state == next
    {
      hide TextEdited, Refused, Approves, Chain, Proper, Nodes, Text, Last, LayoutOf, RopeOf, TokenRope;
      nextToken := start;
      tokenEnd := start - 1;
      AskToken(buffer, kind, SP);
      if !errored {
        token := nextToken;
        tokenEnd := token + len;
        state := next;
      }
    }

    method OnUrl(buffer: Buffer, location: nat, len: nat)
      requires buffer.Valid() && !errored
      requires state == InUrl || (state == InMethod && 0 <= token < location < buffer.size)
      modifies this`token, this`tokenEnd, this`nextToken, this`bufferOffset, this`state, this`history, this`errored
      modifies buffer, buffer.Repr
      ensures buffer.Valid() && fresh(buffer.Repr - old(buffer.Repr))
      ensures errored ==> Refused(policy, history)
      ensures !errored ==> Approves(policy, old(history), history)
      ensures !errored ==> buffer.size - bufferOffset == old(buffer.size - bufferOffset)
      ensures old(state) == InUrl ==>
        && !errored && Look(buffer) == old(Look(buffer)).(tokenEnd := old(tokenEnd) + len)
        && RopeOf(buffer) == old(RopeOf(buffer))
      ensures old(state) == InMethod && !errored ==>
        var v, w := old(Look(buffer)), Look(buffer);
        && TokenEdited(policy, v, w, Method, v.text[v.token..location - 1], SP)
        && w.tokenEnd == w.token + len && w.state == InUrl
        && RopeOf(buffer) == TokenRope(policy, v.history, Method, old(RopeOf(buffer)), v.token, location - 1)
    {
      hide Chain, Proper, Nodes, Text, Last, LayoutOf, RopeOf, TokenRope, Refused, Approves, TextEdited;
      ApprovesNone(policy, history);
      match state {
        case InUrl =>
          tokenEnd := tokenEnd + len;
        case InMethod =>
          BeginSecond(buffer, Method, location, len, InUrl);
      }
    }

    /** The status code, its three digits and the space, is passed before the reason phrase is reported. */
    method OnStatus(buffer: Buffer, location: nat, len: nat)
      requires buffer.Valid() && !errored
      requires state == InStatus || (state == InVersion && 0 <= token && token + 5 <= location < buffer.size)
      modifies this`token, this`tokenEnd, this`nextToken, this`bufferOffset, this`state, this`history, this`errored
      modifies buffer, buffer.Repr
      ensures buffer.Valid() && fresh(buffer.Repr - old(buffer.Repr))
      ensures errored ==> Refused(policy, history)
      ensures !errored ==> Approves(policy, old(history), history)
      ensures !errored ==> buffer.size - bufferOffset == old(buffer.size - bufferOffset)
      ensures old(state) == InStatus ==>
        && !errored && Look(buffer) == old(Look(buffer)).(tokenEnd := old(tokenEnd) + len)
        && RopeOf(buffer) == old(RopeOf(buffer))
      ensures old(state) == InVersion && !errored ==>
        var v, w := old(Look(buffer)), Look(buffer);
        && TokenEdited(policy, v, w, Version, v.text[v.token..location - 5], SP)
        && w.tokenEnd == w.token + 4 + len && w.state == InStatus
        && RopeOf(buffer) == TokenRope(policy, v.history, Version, old(RopeOf(buffer)), v.token, location - 5)
    {
      hide Chain, Proper, Nodes, Text, Last, LayoutOf, RopeOf, TokenRope, Refused, Approves, TextEdited;
      ApprovesNone(policy, history);
      match state {
        case InStatus =>
          tokenEnd := tokenEnd + len;
        case InVersion =>
          BeginSecond(buffer, Version, location - 4, len + 4, InStatus);
      }
    }

    /** A further piece of a header name. */
    method OnHeaderFieldGoesOn(len: nat)
      requires state == InHeaderField
      modifies this`tokenEnd, this`fieldEnd
      ensures tokenEnd == old(tokenEnd) + len && fieldEnd == old(fieldEnd) + len
    {
      tokenEnd := tokenEnd + len;
      fieldEnd := fieldEnd + len;
    }

    method BeginField(len: nat)
      modifies this`token, this`tokenEnd, this`field, this`fieldEnd, this`state
      ensures token == nextToken && tokenEnd == token + len && field == token && fieldEnd == tokenEnd
      ensures state == InHeaderField
    {
      token := nextToken;
      tokenEnd := token + len;
      field := token;
      fieldEnd := tokenEnd;
      state := InHeaderField;
    }

    /** The start line is complete: its last token ends in front of the line end before `nextToken`. */
    method EndStartLine(buffer: Buffer, kind: Kind, len: nat)
      requires buffer.Valid() && !errored && 0 <= token <= tokenEnd && nextToken == tokenEnd + 2 < buffer.size
      modifies this`token, this`tokenEnd, this`field, this`fieldEnd, this`nextToken, this`bufferOffset, this`state
      modifies this`history, this`errored
      modifies buffer, buffer.Repr
      ensures buffer.Valid() && fresh(buffer.Repr - old(buffer.Repr))
      ensures errored ==> Refused(policy, history)
      ensures !errored ==> Approves(policy, old(history), history)
      ensures !errored ==> buffer.size - bufferOffset == old(buffer.size - bufferOffset)
      ensures !errored ==>
        RopeOf(buffer) == TokenRope(policy, old(history), kind, old(RopeOf(buffer)), old(token), old(tokenEnd))
      ensures !errored ==>
        var v, w := old(Look(buffer)), Look(buffer);
        TokenEdited(policy, v, w, kind, v.text[v.token..v.tokenEnd], CRLF) && StartsField(w, w, len)
    {
      hide TextEdited, Refused, Approves, Chain, Proper, Nodes, Text, Last, LayoutOf, RopeOf, TokenRope;
      AskToken(buffer, kind, CRLF);
      if !errored {
        BeginField(len);
      }
    }

    method OnHeaderFieldAfterStatus(buffer: Buffer, location: nat, len: nat)
      requires buffer.Valid() && !errored && state == InStatus
      requires 0 <= token <= tokenEnd && location == tokenEnd + 2 && location < buffer.size
      modifies this`token, this`tokenEnd, this`field, this`fieldEnd, this`nextToken, this`bufferOffset, this`state
      modifies this`history, this`errored
      modifies buffer, buffer.Repr
      ensures buffer.Valid() && fresh(buffer.Repr - old(buffer.Repr))
      ensures errored ==> Refused(policy, history)
      ensures !errored ==> Approves(policy, old(history), history)
      ensures !errored ==> buffer.size - bufferOffset == old(buffer.size - bufferOffset)
      ensures !errored ==>
        RopeOf(buffer) == TokenRope(policy, old(history), Status, old(RopeOf(buffer)), old(token), old(tokenEnd))
      ensures !errored ==>
        var v, w := old(Look(buffer)), Look(buffer);
        TokenEdited(policy, v, w, Status, v.text[v.token..v.tokenEnd], CRLF) && StartsField(w, w, len)
    {
      hide TextEdited, Chain, Proper, Nodes, Text, Last, LayoutOf, RopeOf, TokenRope;
      nextToken := location;
      EndStartLine(buffer, Status, len);
    }

    /** The URL is complete, and the version begins. */
    method ReportUrl(buffer: Buffer)
      requires buffer.Valid() && !errored && 0 <= token <= tokenEnd < buffer.size
      modifies this`token, this`tokenEnd, this`nextToken, this`bufferOffset, this`history, this`errored
      modifies buffer, buffer.Repr
      ensures buffer.Valid() && fresh(buffer.Repr - old(buffer.Repr))
      ensures errored ==> Refused(policy, history)
      ensures !errored ==> Approves(policy, old(history), history)
      ensures !errored ==> buffer.size - bufferOffset == old(buffer.size - bufferOffset)
      ensures !errored ==>
        RopeOf(buffer) == TokenRope(policy, old(history), Url, old(RopeOf(buffer)), old(token), old(tokenEnd))
      ensures !errored ==>
        var v := old(Look(buffer));
        TokenEdited(policy, v, Look(buffer), Url, v.text[v.token..v.tokenEnd], SP)
      ensures !errored ==> 0 < token == tokenEnd + 1 && nextToken - tokenEnd == old(nextToken - tokenEnd)
      ensures !errored ==> buffer.size - tokenEnd == old(buffer.size - tokenEnd)
    {
      hide TextEdited, Chain, Proper, Nodes, Text, Last, LayoutOf, RopeOf, TokenRope;
      AskToken(buffer, Url, SP);
      if !errored {
        token := tokenEnd + 1;
      }
    }

    /** The first piece of the first header name of a request; `u` is what is seen between the two reports. */
    method OnHeaderFieldAfterUrl(buffer: Buffer, location: nat, len: nat) returns (ghost u: View)
      requires buffer.Valid() && !errored && state == InUrl
      requires 0 <= token <= tokenEnd && tokenEnd + 3 <= location < buffer.size
      modifies this`token, this`tokenEnd, this`field, this`fieldEnd, this`nextToken, this`bufferOffset, this`state
      modifies this`history, this`errored
      modifies buffer, buffer.Repr
      ensures buffer.Valid() && fresh(buffer.Repr - old(buffer.Repr))
      ensures errored ==> Refused(policy, history)
      ensures !errored ==> Approves(policy, old(history), history)
      ensures !errored ==> buffer.size - bufferOffset == old(buffer.size - bufferOffset)
      ensures !errored ==>
        var v, w := old(Look(buffer)), Look(buffer);
        && TokenEdited(policy, v, u, Url, v.text[v.token..v.tokenEnd], SP)
        && 0 <= u.token <= u.token + (location - v.tokenEnd - 3) <= |u.text|
        && TokenEdited(policy, u, w, Version, u.text[u.token..u.token + (location - v.tokenEnd - 3)], CRLF)
        && StartsField(w, w, len)
        && RopeOf(buffer) ==
          TokenRope(policy, u.history, Version,
                    TokenRope(policy, v.history, Url, old(RopeOf(buffer)), v.token, v.tokenEnd),
                    u.token, u.token + (location - v.tokenEnd - 3))
    {
      hide TextEdited, Refused, Approves, Chain, Proper, Nodes, Text, Last, LayoutOf, RopeOf, TokenRope;
      nextToken := location;
      ReportUrl(buffer);
      u := Look(buffer);
      if !errored {
        tokenEnd := nextToken - 2;
        EndStartLine(buffer, Version, len);
        ApprovesThrough(old(history), u.history);
      }
    }

    /** The first piece of a further header name. */
    method OnHeaderFieldAfterValue(buffer: Buffer, location: nat, len: nat)
      requires buffer.Valid() && !errored && state == InHeaderValue && location == tokenEnd + 2
      requires location < buffer.size
      requires 0 <= token == field <= fieldEnd <= value <= valueEnd == tokenEnd
      requires buffer.Contents()[tokenEnd..tokenEnd + 2] == CRLF
      modifies this`token, this`tokenEnd, this`field, this`fieldEnd, this`valueEnd, this`nextToken, this`bufferOffset
      modifies this`state, this`history, this`errored
      modifies buffer, buffer.Repr
      ensures buffer.Valid() && fresh(buffer.Repr - old(buffer.Repr))
      ensures errored ==> Refused(policy, history)
      ensures !errored ==> Approves(policy, old(history), history)
      ensures !errored ==> buffer.size - bufferOffset == old(buffer.size - bufferOffset)
      ensures !errored && old(Firm(policy, LayoutOf(buffer.spine), buffer.size - token)) ==>
        Firm(policy, LayoutOf(buffer.spine), buffer.size - token)
      ensures !errored ==>
        var v, w := old(Look(buffer)), Look(buffer);
        && HeaderEdited(policy, v, w, SeenHeader(v))
        && StartsField(w, w, len)
        && RopeOf(buffer) == HeaderRope(policy, v.history, old(RopeOf(buffer)), v.token, SeenHeader(v))
    {
      hide LineEdited, Refused, Approves, Chain, Proper, Nodes, Text, Last, LayoutOf, RopeOf, HeaderRope, Firm;
      nextToken := location;
      valueEnd := tokenEnd;
      AskHeader(buffer);
      if !errored {
        BeginField(len);
      }
    }

    /** A piece of a header value; `len` is 0 when the value is empty, and is then reported behind the line. */
    method OnHeaderValue(location: nat, len: nat)
      requires state == InHeaderValue || state == InHeaderField
      modifies this`value, this`valueEnd, this`tokenEnd, this`state
      ensures state == InHeaderValue
      ensures old(state) == InHeaderValue ==>
        value == old(value) && valueEnd == old(valueEnd) + len && tokenEnd == old(tokenEnd) + len
      ensures old(state) == InHeaderField ==>
        value == (if len == 0 then location - 2 else location) && valueEnd == tokenEnd == value + len
    {
      match state {
        case InHeaderValue =>
          tokenEnd := tokenEnd + len;
          valueEnd := valueEnd + len;
        case InHeaderField =>
          if len > 0 {
            value := location;
            valueEnd := location + len;
            tokenEnd := valueEnd;
          } else {
            value := location - 2;
            valueEnd := location - 2;
            tokenEnd := location - 2;
          }
          state := InHeaderValue;
      }
    }

    method ReportLast(buffer: Buffer)
      requires buffer.Valid() && !errored && nextToken == tokenEnd + 2 < buffer.size
      requires 0 <= token == field <= fieldEnd <= value <= valueEnd == tokenEnd
      requires buffer.Contents()[tokenEnd..tokenEnd + 2] == CRLF
      modifies this`token, this`tokenEnd, this`nextToken, this`bufferOffset, this`history, this`errored
      modifies buffer, buffer.Repr
      ensures buffer.Valid() && fresh(buffer.Repr - old(buffer.Repr))
      ensures errored ==> Refused(policy, history)
      ensures !errored ==> Approves(policy, old(history), history)
      ensures !errored ==> buffer.size - bufferOffset == old(buffer.size - bufferOffset)
      ensures !errored ==>
        var v := old(Look(buffer));
        RopeOf(buffer) == HeaderRope(policy, v.history, old(RopeOf(buffer)), v.token, SeenHeader(v))
      ensures !errored && old(Firm(policy, LayoutOf(buffer.spine), buffer.size - token)) ==>
        Firm(policy, LayoutOf(buffer.spine), buffer.size - token)
      ensures !errored ==> 0 <= token < buffer.size && buffer.size - token == old(buffer.size - nextToken)
      ensures !errored ==> var v := old(Look(buffer)); HeaderEdited(policy, v, Look(buffer), SeenHeader(v))
    {
      hide RopeOf, HeaderRope, LineEdited, Refused, Approves, Chain, Proper, Nodes, Text, Last, LayoutOf, Firm;
      AskHeader(buffer);
      token := nextToken;
    }

    method ReportDone(buffer: Buffer)
      requires buffer.Valid() && 0 <= token <= buffer.size && !errored
      modifies this`token, this`nextToken, this`bufferOffset, this`state, this`misplaced, this`history, this`errored
      modifies buffer, buffer.Repr
      ensures buffer.Valid() && fresh(buffer.Repr - old(buffer.Repr))
      ensures errored ==> Refused(policy, history)
      ensures !errored ==> Approves(policy, old(history), history)
      ensures !errored ==>
        DoneEdited(policy, old(Look(buffer)), Look(buffer), old(misplaced), misplaced) && state == InBody
      ensures !errored ==> buffer.size - token == old(buffer.size - token)
      ensures !errored ==> buffer.size - bufferOffset == old(buffer.size - bufferOffset)
      ensures !errored ==>
        RopeOf(buffer) == DoneRope(policy, old(history), old(RopeOf(buffer)), old(token))
      ensures old(token < buffer.size && Firm(policy, LayoutOf(buffer.spine), buffer.size - token)) ==>
        misplaced == old(misplaced) && (!errored ==> Firm(policy, LayoutOf(buffer.spine), buffer.size - token - 1))
    {
      hide RopeOf, DoneRope, Chain, Proper, Nodes, Text, Last, LayoutOf, Firm, Refused, Approves;
      AskDone(buffer);
      state := InBody;
    }

    /** The header lines are complete; `w` is what is seen between the two reports. */
    method OnHeadersComplete(buffer: Buffer) returns (ghost w: View, ghost q: Rope)
      requires buffer.Valid() && !errored && state == InHeaderValue && tokenEnd + 2 < buffer.size
      requires 0 <= token == field <= fieldEnd <= value <= valueEnd == tokenEnd
      requires buffer.Contents()[tokenEnd..tokenEnd + 2] == CRLF
      modifies this`token, this`tokenEnd, this`nextToken, this`bufferOffset, this`state, this`history, this`errored
      modifies this`misplaced
      modifies buffer, buffer.Repr
      ensures buffer.Valid() && fresh(buffer.Repr - old(buffer.Repr))
      ensures errored ==> Refused(policy, history)
      ensures !errored ==> Approves(policy, old(history), history)
      ensures !errored ==> buffer.size - bufferOffset == old(buffer.size - bufferOffset)
      ensures !errored ==>
        var v, x := old(Look(buffer)), Look(buffer);
        && HeaderEdited(policy, v, w, SeenHeader(v)) && DoneEdited(policy, w, x, old(misplaced), misplaced)
        && x.state == InBody
      ensures !errored ==>
        && q == HeaderRope(policy, old(history), old(RopeOf(buffer)), old(token), SeenHeader(old(Look(buffer))))
        && RopeOf(buffer) == DoneRope(policy, w.history, q, w.token) && q.text == w.text
      ensures old(Firm(policy, LayoutOf(buffer.spine), buffer.size - token)) ==>
        misplaced == old(misplaced) && (!errored ==> Firm(policy, LayoutOf(buffer.spine), buffer.size - token - 1))
    {
      hide Buffer.Linked, HeaderRope, DoneRope, LineEdited, DoneEdited, Refused, Approves, Chain, Proper, Nodes;
      hide Text, Last, LayoutOf, Firm;
      nextToken := tokenEnd + 2;
      ReportLast(buffer);
      w, q := Look(buffer), RopeOf(buffer);
      if !errored {
        ReportDone(buffer);
        ApprovesThrough(old(history), w.history);
      }
    }

    /** A message without header lines is dealt with once the parser has returned. */
    method OnHeadersCompleteBare()
      requires state == InUrl || state == InStatus
      modifies this`headerComplete
      ensures headerComplete
    {
      headerComplete := true;
    }

    method OnBody()
      modifies this`setToken
      ensures setToken
    {
      setToken := true;
    }

    method OnMessageComplete()
      requires state == InBody
      modifies this`state, this`setToken, this`messageComplete
      ensures state == Init && setToken && messageComplete
    {
      state := Init;
      setToken := true;
      messageComplete := true;
    }

    // ---- what the parser does with the next bytes ---------------------------------------------
    //
    // Each step takes `k` of the `avail` bytes at offset `here`, or is refused.

    /** Bytes that no callback reports. */
    method StepQuiet(ghost text: seq<byte>, here: nat, avail: nat) returns (k: nat, q: Pos)
      requires Tied(LookAt(text), parser, here, emitted, misplaced) && 0 < avail && here + avail <= |text|
      requires Quiet(parser)
      ensures 0 < k <= avail && k <= Fire(policy, parser).left && q == Eat(policy, parser, k)
      ensures Tied(LookAt(text), q, here + k, emitted, misplaced)
    {
      QuietLeft(policy, LookAt(text), parser, here, emitted, misplaced);
      k := Min(avail, Fire(policy, parser).left);
      QuietStep(policy, LookAt(text), parser, here, emitted, misplaced, k);
      q := Eat(policy, parser, k);
    }

    method ReportFirst(buffer: Buffer, here: nat, len: nat, s: StartLine)
      requires buffer.Valid() && !errored && here < buffer.size && 0 <= token && s.First() != []
      requires here == token + |s.First()| + 1 + s.Unreported() && s.Unreported() == (if s.RequestLine? then 0 else 4)
      requires buffer.Contents()[token..token + |s.First()|] == s.First()
      requires state == if s.RequestLine? then InMethod else InVersion
      modifies this`token, this`tokenEnd, this`nextToken, this`bufferOffset, this`state, this`history, this`errored
      modifies buffer, buffer.Repr
      ensures buffer.Valid() && fresh(buffer.Repr - old(buffer.Repr))
      ensures errored ==> Refused(policy, history)
      ensures !errored ==> Approves(policy, old(history), history)
      ensures !errored ==> buffer.size - bufferOffset == old(buffer.size - bufferOffset)
      ensures !errored ==>
        var w := Look(buffer);
        && TokenEdited(policy, old(Look(buffer)), w, FirstKind(s), s.First(), SP)
        && w.tokenEnd == w.token + s.Unreported() + len
        && w.state == (if s.RequestLine? then InUrl else InStatus)
        && RopeOf(buffer) ==
          TokenRope(policy, old(history), FirstKind(s), old(RopeOf(buffer)), old(token), old(token) + |s.First()|)
    {
      hide LayoutOf, RopeOf, TokenRope, Refused, Approves, TextEdited, Chain, Proper, Nodes, Text, Last;
      if s.RequestLine? {
        OnUrl(buffer, here, len);
      } else {
        OnStatus(buffer, here, len);
      }
    }

    /** The second token of the start line begins. */
    method StepFirst(buffer: Buffer, here: nat, avail: nat) returns (k: nat, q: Pos)
      requires Tracks(buffer, here) && 0 < avail && here + avail <= buffer.size && !errored
      requires parser.at.First? && parser.left == 0
      modifies this`token, this`tokenEnd, this`nextToken, this`bufferOffset, this`state, this`history, this`errored
      modifies buffer, buffer.Repr
      ensures buffer.Valid() && fresh(buffer.Repr - old(buffer.Repr))
      ensures errored ==> Refused(policy, history)
      ensures !errored ==> Approves(policy, old(history), history)
      ensures !errored ==> buffer.size - bufferOffset == old(buffer.size - bufferOffset)
      ensures !errored ==> 0 < k <= avail && k <= Fire(policy, parser).left && q == Eat(policy, parser, k)
      ensures !errored ==> Tied(Look(buffer), q, here + k + (bufferOffset - old(bufferOffset)), emitted, misplaced)
      ensures !errored && old(Held(buffer, parser, here)) ==>
        Held(buffer, q, here + k + (bufferOffset - old(bufferOffset)))
      ensures !errored ==>
        Goal(buffer, q, here + k + (bufferOffset - old(bufferOffset))) == old(Goal(buffer, parser, here))
    {
      hide RopeRun, FireRope, TokenRope, Tied, Fire, Eat, Hold, Firm, KeepsFirm, LayoutOf, TextEdited, Refused;
      hide Approves, Chain, Proper, Nodes;
      hide Text, Last;
      q := parser;
      ghost var v, p, l, m := Look(buffer), parser, LayoutOf(buffer.spine), buffer.size - here;
      ghost var r := RopeOf(buffer);
      HoldNow(p, here, token);
      LayoutLen(buffer.spine);
      FirstText(policy, v, p, here, emitted, misplaced);
      var empty := parser.at.m.start.Reported() == [];
      k := if empty then 1 else Min(avail, Fire(policy, parser).left);
      ReportFirst(buffer, here, if empty then 0 else k, parser.at.m.start);
      if !errored {
        FirstStep(policy, v, Look(buffer), p, here, emitted, misplaced, k);
        FirstRope(policy, v, p, here, emitted, misplaced, r, m, k);
        TokenKeeps(policy, v.history, FirstKind(p.at.m.start), r, v.token, v.token + |p.at.m.start.First()|, m + 1);
        ReportedFirm(policy, p, k, l, LayoutOf(buffer.spine), m, buffer.size,
                     here + k + (bufferOffset - old(bufferOffset)), token);
        q := Eat(policy, parser, k);
      }
    }

    method TellSecond(buffer: Buffer, here: nat, len: nat)
      requires buffer.Valid() && !errored && parser.at.Second? && InStartLine(Look(buffer), parser.at.m)
      modifies this`token, this`tokenEnd, this`nextToken, this`bufferOffset, this`state, this`history, this`errored
      modifies buffer, buffer.Repr
      ensures buffer.Valid() && fresh(buffer.Repr - old(buffer.Repr)) && !errored
      ensures Look(buffer) == old(Look(buffer)).(tokenEnd := old(tokenEnd) + len)
      ensures RopeOf(buffer) == old(RopeOf(buffer))
      ensures buffer.size - bufferOffset == old(buffer.size - bufferOffset)
    {
      hide RopeOf, TokenRope, LayoutOf, TextEdited, Refused, Approves, Chain, Proper, Nodes, Text, Last;
      if parser.at.m.start.RequestLine? {
        OnUrl(buffer, here, len);
      } else {
        OnStatus(buffer, here, len);
      }
    }

    /** A further piece of the second token of the start line. */
    method StepSecond(buffer: Buffer, here: nat, avail: nat) returns (k: nat, q: Pos)
      requires Tracks(buffer, here) && 0 < avail && here + avail <= buffer.size && !errored
      requires parser.at.Second? && parser.left > 0
      modifies this`token, this`tokenEnd, this`nextToken, this`bufferOffset, this`state, this`history, this`errored
      modifies buffer, buffer.Repr
      ensures buffer.Valid() && fresh(buffer.Repr - old(buffer.Repr))
      ensures errored ==> Refused(policy, history)
      ensures !errored ==> Approves(policy, old(history), history)
      ensures !errored ==> buffer.size - bufferOffset == old(buffer.size - bufferOffset)
      ensures !errored ==> 0 < k <= avail && k <= Fire(policy, parser).left && q == Eat(policy, parser, k)
      ensures !errored ==> Tied(Look(buffer), q, here + k + (bufferOffset - old(bufferOffset)), emitted, misplaced)
      ensures !errored && old(Held(buffer, parser, here)) ==>
        Held(buffer, q, here + k + (bufferOffset - old(bufferOffset)))
      ensures !errored
      ensures !errored ==>
        Goal(buffer, q, here + k + (bufferOffset - old(bufferOffset))) == old(Goal(buffer, parser, here))
    {
      hide Buffer.Linked, RopeRun, FireRope, Tied, Eat, Hold, Firm, KeepsFirm, LayoutOf, TextEdited, Refused;
      hide Approves, Chain, Proper;
      hide Nodes, Text, Last;
      ghost var v, p, l, m := Look(buffer), parser, LayoutOf(buffer.spine), buffer.size - here;
      HoldNow(p, here, token);
      SecondFacts(v, p, here, emitted, misplaced);
      k := Min(avail, parser.left);
      TellSecond(buffer, here, k);
      ApprovesNone(policy, history);
      KeepsSame(policy, l, m + 1);
      SecondRope(policy, p, RopeOf(buffer), m, k);
      PieceStep(policy, v, Look(buffer), p, here, emitted, misplaced, k);
      ReportedFirm(policy, p, k, l, LayoutOf(buffer.spine), m, buffer.size, here + k, token);
      q := Eat(policy, parser, k);
    }

    /** A further piece of a header name. */
    method StepField(ghost text: seq<byte>, here: nat, avail: nat) returns (k: nat, q: Pos)
      requires Tied(LookAt(text), parser, here, emitted, misplaced) && 0 < avail && here + avail <= |text|
      requires parser.at.Field? && parser.left > 0
      modifies this`tokenEnd, this`fieldEnd
      ensures 0 < k <= avail && k <= Fire(policy, parser).left && q == Eat(policy, parser, k)
      ensures Tied(LookAt(text), q, here + k, emitted, misplaced)
    {
      ghost var v, p := LookAt(text), parser;
      k := Min(avail, parser.left);
      OnHeaderFieldGoesOn(k);
      PieceStep(policy, v, LookAt(text), p, here, emitted, misplaced, k);
      q := Eat(policy, parser, k);
    }

    /** A further piece of a header value. */
    method StepValue(ghost text: seq<byte>, here: nat, avail: nat) returns (k: nat, q: Pos)
      requires Tied(LookAt(text), parser, here, emitted, misplaced) && 0 < avail && here + avail <= |text|
      requires parser.at.Value? && parser.left > 0
      modifies this`value, this`valueEnd, this`tokenEnd, this`state
      ensures 0 < k <= avail && k <= Fire(policy, parser).left && q == Eat(policy, parser, k)
      ensures Tied(LookAt(text), q, here + k, emitted, misplaced)
    {
      ghost var v, p := LookAt(text), parser;
      k := Min(avail, parser.left);
      OnHeaderValue(here, k);
      PieceStep(policy, v, LookAt(text), p, here, emitted, misplaced, k);
      q := Eat(policy, parser, k);
    }

    /** A header value begins. */
    method StepGap(ghost text: seq<byte>, here: nat, avail: nat) returns (k: nat, q: Pos)
      requires Tied(LookAt(text), parser, here, emitted, misplaced) && 0 < avail && here + avail <= |text|
      requires parser.at.Gap? && parser.left == 0 && parser.at.h.value != []
      modifies this`value, this`valueEnd, this`tokenEnd, this`state
      ensures 0 < k <= avail && k <= Fire(policy, parser).left && q == Eat(policy, parser, k)
      ensures Tied(LookAt(text), q, here + k, emitted, misplaced)
    {
      ghost var v, p := LookAt(text), parser;
      k := Min(avail, |parser.at.h.value|);
      OnHeaderValue(here, k);
      ValueStep(policy, v, LookAt(text), p, here, emitted, misplaced, k);
      q := Eat(policy, parser, k);
    }

    /** The start line is settled and the first `n` bytes of a header name have been reported. */
    ghost predicate LineReported(w: View, n: nat)
      requires parser.at.Third?
      reads this
    {
      var m := parser.at.m;
      && StartsField(w, w, n)
      && Settled(w, EditRest(policy, parser.acc, m.start), RawHead(m.headers, m.body) + RawAll(parser.at.ms), emitted,
                 misplaced)
    }

    method ReportRequestLine(buffer: Buffer, here: nat, len: nat)
      requires Tracks(buffer, here) && here < buffer.size && !errored
      requires parser.at.Third? && parser.left == 0 && parser.at.m.start.RequestLine?
      modifies this`token, this`tokenEnd, this`field, this`fieldEnd, this`nextToken, this`bufferOffset, this`state
      modifies this`history
      modifies this`errored, buffer, buffer.Repr
      ensures buffer.Valid() && fresh(buffer.Repr - old(buffer.Repr))
      ensures errored ==> Refused(policy, history)
      ensures !errored ==> Approves(policy, old(history), history)
      ensures !errored ==> buffer.size - bufferOffset == old(buffer.size - bufferOffset)
      ensures !errored ==>
        RopeOf(buffer) == RestRope(policy, old(history), old(RopeOf(buffer)), old(token), parser.at.m.start)
      ensures !errored ==> LineReported(Look(buffer), len) && buffer.size - token == old(buffer.size) - here
    {
      hide LayoutOf, RopeOf, TokenRope, RestRope, Tied, TextEdited, Settled, Refused, Approves, EditRest, RawHead;
      hide RawAll, Chain;
      hide Proper, Nodes, Text, Last;
      ghost var v, p, r := Look(buffer), parser, RopeOf(buffer);
      LayoutLen(buffer.spine);
      RopeFacts(buffer);
      StartLineText(v, p, here, emitted, misplaced);
      var u := OnHeaderFieldAfterUrl(buffer, here, len);
      if !errored {
        VersionText(policy, v, u, p, here, emitted, misplaced);
        LineRope(policy, v, u, p, here, emitted, misplaced, r);
        RequestLineStep(policy, v, u, Look(buffer), p, here, emitted, misplaced);
      }
    }

    method ReportStatusLine(buffer: Buffer, here: nat, len: nat)
      requires Tracks(buffer, here) && here < buffer.size && !errored
      requires parser.at.Third? && parser.left == 0 && parser.at.m.start.StatusLine?
      modifies this`token, this`tokenEnd, this`field, this`fieldEnd, this`nextToken, this`bufferOffset, this`state
      modifies this`history
      modifies this`errored, buffer, buffer.Repr
      ensures buffer.Valid() && fresh(buffer.Repr - old(buffer.Repr))
      ensures errored ==> Refused(policy, history)
      ensures !errored ==> Approves(policy, old(history), history)
      ensures !errored ==> buffer.size - bufferOffset == old(buffer.size - bufferOffset)
      ensures !errored ==>
        RopeOf(buffer) == RestRope(policy, old(history), old(RopeOf(buffer)), old(token), parser.at.m.start)
      ensures !errored ==> LineReported(Look(buffer), len) && buffer.size - token == old(buffer.size) - here
    {
      hide LayoutOf, RopeOf, TokenRope, RestRope, Tied, TextEdited, Settled, Refused, Approves, EditRest, RawHead;
      hide RawAll, Chain;
      hide Proper, Nodes, Text, Last;
      ghost var v, p, r := Look(buffer), parser, RopeOf(buffer);
      StartLineText(v, p, here, emitted, misplaced);
      OnHeaderFieldAfterStatus(buffer, here, len);
      if !errored {
        StatusRope(policy, v.history, r, v.token, p.at.m.start);
        StatusLineStep(policy, v, Look(buffer), p, here, emitted, misplaced);
      }
    }

    method ReportStartLine(buffer: Buffer, here: nat, len: nat)
      requires Tracks(buffer, here) && here < buffer.size && !errored && parser.at.Third? && parser.left == 0
      modifies this`token, this`tokenEnd, this`field, this`fieldEnd, this`nextToken, this`bufferOffset, this`state
      modifies this`history
      modifies this`errored, buffer, buffer.Repr
      ensures buffer.Valid() && fresh(buffer.Repr - old(buffer.Repr))
      ensures errored ==> Refused(policy, history)
      ensures !errored ==> Approves(policy, old(history), history)
      ensures !errored ==> buffer.size - bufferOffset == old(buffer.size - bufferOffset)
      ensures !errored ==>
        RopeOf(buffer) == RestRope(policy, old(history), old(RopeOf(buffer)), old(token), parser.at.m.start)
      ensures !errored && old(Firm(policy, LayoutOf(buffer.spine), buffer.size - here)) ==>
        Firm(policy, LayoutOf(buffer.spine), old(buffer.size - here))
      ensures !errored ==> LineReported(Look(buffer), len) && buffer.size - token == old(buffer.size) - here
    {
      hide LayoutOf, Firm, TokenRope, RestRope, Tied, LineReported, Refused, Approves, Chain, Proper, Nodes, Text, Last;
      RopeFacts(buffer);
      StartLineText(Look(buffer), parser, here, emitted, misplaced);
      RestFirm(policy, history, RopeOf(buffer), token, parser.at.m.start, buffer.size - here);
      if parser.at.m.start.RequestLine? {
        ReportRequestLine(buffer, here, len);
      } else {
        ReportStatusLine(buffer, here, len);
      }
    }

    /** The first header name begins. */
    method StepThird(buffer: Buffer, here: nat, avail: nat) returns (k: nat, q: Pos)
      requires Tracks(buffer, here) && 0 < avail && here + avail <= buffer.size && !errored
      requires parser.at.Third? && parser.left == 0 && parser.at.m.headers != []
      modifies this`token, this`tokenEnd, this`field, this`fieldEnd, this`valueEnd, this`nextToken, this`bufferOffset
      modifies this`state, this`history
      modifies this`errored, buffer, buffer.Repr
      ensures buffer.Valid() && fresh(buffer.Repr - old(buffer.Repr))
      ensures errored ==> Refused(policy, history)
      ensures !errored ==> Approves(policy, old(history), history)
      ensures !errored ==> buffer.size - bufferOffset == old(buffer.size - bufferOffset)
      ensures !errored ==> 0 < k <= avail && k <= Fire(policy, parser).left && q == Eat(policy, parser, k)
      ensures !errored ==> Tied(Look(buffer), q, here + k + (bufferOffset - old(bufferOffset)), emitted, misplaced)
      ensures !errored && old(Held(buffer, parser, here)) ==>
        Held(buffer, q, here + k + (bufferOffset - old(bufferOffset)))
      ensures !errored ==>
        Goal(buffer, q, here + k + (bufferOffset - old(bufferOffset))) == old(Goal(buffer, parser, here))
    {
      hide RopeRun, RestRope, LayoutOf, Hold, Firm, Tied, Fire, Eat, Settled, Refused, Approves, Chain, Proper, Nodes;
      hide Text;
      hide Last;
      q := parser;
      ghost var v, p, m := Look(buffer), parser, buffer.size - here;
      ghost var r := RopeOf(buffer);
      HoldNow(p, here, token);
      ThirdFacts(policy, v, p, here, emitted, misplaced);
      k := Min(avail, |parser.at.m.headers[0].name|);
      ReportStartLine(buffer, here, k);
      if !errored {
        ThirdStep(policy, v, Look(buffer), p, here, emitted, misplaced, r, k);
        q := Eat(policy, parser, k);
      }
    }

    method TellEmptyValue(ghost text: seq<byte>, here: nat)
      requires Tied(LookAt(text), parser, here, emitted, misplaced) && parser.at.Eol? && parser.left == 0
      modifies this`value, this`valueEnd, this`tokenEnd, this`state
      ensures var v := old(LookAt(text)); LookAt(text) == if parser.at.h.value == [] then WithEmptyValue(v, here) else v
    {
      if parser.at.h.value == [] {
        OnHeaderValue(here, 0);
      }
    }

    method ReportHeader(buffer: Buffer, here: nat, len: nat)
      requires Tracks(buffer, here) && here < buffer.size && !errored && parser.at.Eol? && parser.left == 0
      modifies this`token, this`tokenEnd, this`field, this`fieldEnd, this`value, this`valueEnd, this`nextToken
      modifies this`bufferOffset
      modifies this`state, this`history, this`errored, buffer, buffer.Repr
      ensures buffer.Valid() && fresh(buffer.Repr - old(buffer.Repr))
      ensures errored ==> Refused(policy, history)
      ensures !errored ==> Approves(policy, old(history), history)
      ensures !errored ==> buffer.size - bufferOffset == old(buffer.size - bufferOffset)
      ensures !errored && old(Firm(policy, LayoutOf(buffer.spine), buffer.size - token)) ==>
        Firm(policy, LayoutOf(buffer.spine), buffer.size - token)
      ensures !errored ==>
        HeaderEdited(policy, old(Look(buffer)), Look(buffer), parser.at.h)
          && StartsField(Look(buffer), Look(buffer), len)
      ensures !errored ==>
        RopeOf(buffer) == HeaderRope(policy, old(history), old(RopeOf(buffer)), old(token), parser.at.h)
    {
      hide LayoutOf, RopeOf, HeaderRope, Firm, LineEdited, Tied, Refused, Approves, Chain, Proper, Nodes, Text, Last;
      ghost var v := Look(buffer);
      TellEmptyValue(buffer.Contents(), here);
      EolText(v, Look(buffer), parser, here, emitted, misplaced);
      OnHeaderFieldAfterValue(buffer, here, len);
    }

    /** A further header name begins. */
    method StepEol(buffer: Buffer, here: nat, avail: nat) returns (k: nat, q: Pos)
      requires Tracks(buffer, here) && 0 < avail && here + avail <= buffer.size && !errored
      requires parser.at.Eol? && parser.left == 0 && parser.at.hs != []
      modifies this`token, this`tokenEnd, this`field, this`fieldEnd, this`value, this`valueEnd, this`nextToken
      modifies this`bufferOffset, this`state, this`history
      modifies this`errored, buffer, buffer.Repr
      ensures buffer.Valid() && fresh(buffer.Repr - old(buffer.Repr))
      ensures errored ==> Refused(policy, history)
      ensures !errored ==> Approves(policy, old(history), history)
      ensures !errored ==> buffer.size - bufferOffset == old(buffer.size - bufferOffset)
      ensures !errored ==> 0 < k <= avail && k <= Fire(policy, parser).left && q == Eat(policy, parser, k)
      ensures !errored ==> Tied(Look(buffer), q, here + k + (bufferOffset - old(bufferOffset)), emitted, misplaced)
      ensures !errored && old(Held(buffer, parser, here)) ==>
        Held(buffer, q, here + k + (bufferOffset - old(bufferOffset)))
      ensures !errored ==>
        Goal(buffer, q, here + k + (bufferOffset - old(bufferOffset))) == old(Goal(buffer, parser, here))
    {
      hide RopeRun, HeaderRope, LayoutOf, Hold, Firm, Tied, Fire, Eat, LineEdited, Refused, Approves, Chain, Proper;
      hide Nodes, Text, Last;
      q := parser;
      ghost var v, p, r, m := Look(buffer), parser, RopeOf(buffer), buffer.size - here;
      HoldNow(p, here, token);
      EolFacts(policy, v, p, here, emitted, misplaced);
      k := Min(avail, |parser.at.hs[0].name|);
      ReportHeader(buffer, here, k);
      if !errored {
        NextFieldStep(policy, v, Look(buffer), Look(buffer), p, here, emitted, misplaced, k);
        HoldReported(policy, p, k, here + k + (bufferOffset - old(bufferOffset)), token);
        EolRope(policy, v, p, here, emitted, misplaced, r, m, k);
        q := Eat(policy, parser, k);
      }
    }

    /** The empty line begins behind a header with an empty value. */
    method StepEmptyValue(ghost text: seq<byte>, here: nat, avail: nat) returns (k: nat, q: Pos)
      requires Tied(LookAt(text), parser, here, emitted, misplaced) && 0 < avail && here + avail <= |text|
      requires parser.at.Eol? && parser.left == 0 && parser.at.hs == [] && parser.at.h.value == []
      modifies this`value, this`valueEnd, this`tokenEnd, this`state
      ensures 0 < k <= avail && k <= Fire(policy, parser).left && q == Eat(policy, parser, k)
      ensures Tied(LookAt(text), q, here + k, emitted, misplaced)
    {
      ghost var v := LookAt(text);
      TellEmptyValue(text, here);
      EmptyValueStep(policy, v, parser, here, emitted, misplaced);
      k := 1;
      q := Eat(policy, parser, 1);
    }

    /** The header lines are complete. The last line feed is not taken yet. */
    method StepLastCr(buffer: Buffer, here: nat) returns (q: Pos)
      requires Tracks(buffer, here) && here < buffer.size && !errored && parser.at.LastCr? && parser.left == 0
      modifies this`token, this`tokenEnd, this`nextToken, this`bufferOffset, this`state, this`history, this`errored
      modifies this`misplaced
      modifies buffer, buffer.Repr
      ensures buffer.Valid() && fresh(buffer.Repr - old(buffer.Repr))
      ensures errored ==> Refused(policy, history)
      ensures !errored ==> Approves(policy, old(history), history)
      ensures !errored ==> buffer.size - bufferOffset == old(buffer.size - bufferOffset)
      ensures !errored ==> q == Fire(policy, parser) && q.Ok() && q.left > 0 && q.at.LastLf?
      ensures !errored ==> Tied(Look(buffer), q, here + (bufferOffset - old(bufferOffset)), emitted, misplaced)
      ensures !errored ==> Goal(buffer, q, here + (bufferOffset - old(bufferOffset))) == old(Goal(buffer, parser, here))
      ensures old(Held(buffer, parser, here)) ==>
        misplaced == old(misplaced) && (!errored ==> Held(buffer, q, here + (bufferOffset - old(bufferOffset))))
    {
      hide Buffer.Linked, RopeRun, FireRope, HeaderRope, DoneRope, Tied, Fire, LineEdited, DoneEdited, Refused;
      hide Approves;
      hide Chain, Proper, Nodes, Text, Last, LayoutOf, Hold, Firm;
      q := parser;
      ghost var v, was, r := Look(buffer), misplaced, RopeOf(buffer);
      LastCrText(v, parser, here, emitted, misplaced);
      HoldNow(parser, here, token);
      var w, u := OnHeadersComplete(buffer);
      if !errored {
        LastHeaderStep(policy, v, w, Look(buffer), parser, here, emitted, was, misplaced);
        EndedFirm(policy, Fire(policy, parser), LayoutOf(buffer.spine), buffer.size, token + 1, token);
        LastRope(policy, v, w, parser, here, emitted, was, r, u);
        q := Fire(policy, parser);
      }
    }

    // ---- steps whose effect on the token waits until the parser has returned -------------------

    /** What is seen once the pending work is done; the parser has taken everything in front of `here`. */
    ghost function Due(text: seq<byte>, here: int): View
      reads this
    {
      LookAt(text).(
        token := if !setToken then token else if stepBack then here - 1 else here,
        history := if messageComplete then history + [MessageDone] else history)
    }

    method StepStart(ghost text: seq<byte>, here: nat, avail: nat) returns (k: nat, q: Pos)
      requires Tied(LookAt(text), parser, here, emitted, misplaced) && 0 < avail && here + avail <= |text|
      requires parser.at.Start? && !messageComplete && MessagesOfKind(parser.at.ms, isRequest)
      modifies this`state, this`setToken, this`stepBack
      ensures setToken && stepBack && q.at.Live()
      ensures 0 < k <= avail && k <= Fire(policy, parser).left && q == Eat(policy, parser, k)
      ensures Tied(Due(text, here + k), q, here + k, emitted, misplaced)
    {
      hide Tied, Eat, Fire;
      ghost var v := LookAt(text);
      StartFacts(policy, v, parser, here, emitted, misplaced);
      OnMessageBegin();
      BeginStep(policy, v, Due(text, here + 1), parser, here, emitted, misplaced);
      k := 1;
      q := Eat(policy, parser, 1);
    }

    method TellBody(ghost text: seq<byte>, end: nat, last: bool)
      requires state == InBody && !messageComplete && !stepBack
      modifies this`state, this`setToken, this`messageComplete
      ensures setToken && messageComplete == last
      ensures var v := old(LookAt(text));
        Due(text, end) == if !last then v.(token := end)
          else v.(token := end, state := Init, history := v.history + [MessageDone])
    {
      OnBody();
      if last {
        OnMessageComplete();
      }
    }

    method StepBody(ghost text: seq<byte>, here: nat, avail: nat) returns (k: nat, q: Pos)
      requires Tied(LookAt(text), parser, here, emitted, misplaced) && 0 < avail && here + avail <= |text|
      requires parser.at.Body? || (parser.at.LastLf? && parser.left == 0)
      requires !messageComplete && !stepBack
      modifies this`state, this`setToken, this`messageComplete
      ensures 0 < k <= avail && k <= Fire(policy, parser).left && q == Eat(policy, parser, k)
      ensures Tied(Due(text, here + k), q, here + k, emitted, misplaced)
      ensures setToken && (messageComplete <==> q.at.Start?) && (k < avail ==> messageComplete)
    {
      ghost var v := LookAt(text);
      PassFacts(v, parser, here, emitted, misplaced);
      hide Tied, Eat, Fire;
      var left := BodyLeft(parser);
      k := Min(avail, left);
      TellBody(text, here + k, k == left);
      PassStep(policy, v, Due(text, here + k), parser, here, emitted, misplaced, k);
      q := Eat(policy, parser, k);
    }

    method StepEnd(ghost text: seq<byte>, here: nat, avail: nat) returns (k: nat, q: Pos)
      requires Tied(LookAt(text), parser, here, emitted, misplaced) && 0 < avail && here + avail <= |text|
      requires parser.at.LastLf? && parser.left == 1 && parser.at.body == []
      requires !messageComplete && !stepBack
      modifies this`state, this`setToken, this`messageComplete
      ensures 0 < k <= avail && k <= Fire(policy, parser).left && q == Eat(policy, parser, k)
      ensures Tied(Due(text, here + k), q, here + k, emitted, misplaced)
      ensures setToken && messageComplete && q.at.Start?
    {
      ghost var v, p := LookAt(text), parser;
      k := 1;
      OnMessageComplete();
      EndStep(policy, v, Due(text, here + 1), p, here, emitted, misplaced);
      q := Eat(policy, parser, 1);
    }

    // ---- the parser's loop over a chunk --------------------------------------------------------

    method StepInText(ghost text: seq<byte>, here: nat, avail: nat) returns (k: nat, q: Pos)
      requires Tied(LookAt(text), parser, here, emitted, misplaced) && 0 < avail && here + avail <= |text|
      requires TextStep(parser)
      modifies this`value, this`valueEnd, this`tokenEnd, this`fieldEnd, this`state
      ensures 0 < k <= avail && k <= Fire(policy, parser).left && q == Eat(policy, parser, k)
      ensures Tied(LookAt(text), q, here + k, emitted, misplaced)
    {
      hide Tied, Fire, Eat;
      if Quiet(parser) {
        k, q := StepQuiet(text, here, avail);
      } else if parser.at.Field? {
        k, q := StepField(text, here, avail);
      } else if parser.at.Value? {
        k, q := StepValue(text, here, avail);
      } else if parser.at.Gap? {
        k, q := StepGap(text, here, avail);
      } else {
        k, q := StepEmptyValue(text, here, avail);
      }
    }

    method StepWithEdit(buffer: Buffer, here: nat, avail: nat) returns (k: nat, q: Pos)
      requires Tracks(buffer, here) && 0 < avail && here + avail <= buffer.size && !errored
      requires EditStep(parser)
      modifies this`token, this`tokenEnd, this`field, this`fieldEnd, this`value, this`valueEnd, this`nextToken
      modifies this`bufferOffset
      modifies this`state, this`history, this`errored, buffer, buffer.Repr
      ensures buffer.Valid() && fresh(buffer.Repr - old(buffer.Repr))
      ensures errored ==> Refused(policy, history)
      ensures !errored ==> Approves(policy, old(history), history)
      ensures !errored ==> buffer.size - bufferOffset == old(buffer.size - bufferOffset)
      ensures !errored ==> 0 < k <= avail && k <= Fire(policy, parser).left && q == Eat(policy, parser, k)
      ensures !errored ==> Tied(Look(buffer), q, here + k + (bufferOffset - old(bufferOffset)), emitted, misplaced)
      ensures !errored && old(Held(buffer, parser, here)) ==>
        Held(buffer, q, here + k + (bufferOffset - old(bufferOffset)))
      ensures !errored ==>
        Goal(buffer, q, here + k + (bufferOffset - old(bufferOffset))) == old(Goal(buffer, parser, here))
    {
      hide Goal, Held, Tied, Fire, Eat, Refused, Approves, Chain, Proper, Nodes, Text, Last;
      if parser.at.First? {
        k, q := StepFirst(buffer, here, avail);
      } else if parser.at.Second? {
        k, q := StepSecond(buffer, here, avail);
      } else if parser.at.Third? {
        k, q := StepThird(buffer, here, avail);
      } else {
        k, q := StepEol(buffer, here, avail);
      }
    }

    method StepFree(ghost text: seq<byte>, here: nat, avail: nat) returns (k: nat, q: Pos)
      requires Tied(LookAt(text), parser, here, emitted, misplaced) && 0 < avail && here + avail <= |text|
      requires FreeStep(parser) && !setToken && !stepBack && !messageComplete && MessagesOfKind(parser.at.ms, isRequest)
      modifies this`state, this`setToken, this`stepBack, this`messageComplete
      ensures 0 < k <= avail && k <= Fire(policy, parser).left && q == Eat(policy, parser, k)
      ensures Tied(Due(text, here + k), q, here + k, emitted, misplaced)
      ensures setToken && (k < avail ==> stepBack || messageComplete)
      ensures (messageComplete ==> q.at.Start?) && (stepBack ==> q.at.Live()) && !InLines(q.at)
    {
      hide Tied, Fire, Eat;
      TiedOk(LookAt(text), parser, here, emitted, misplaced);
      if parser.at.Start? {
        k, q := StepStart(text, here, avail);
      } else if parser.at.Body? || parser.left == 0 {
        k, q := StepBody(text, here, avail);
      } else {
        k, q := StepEnd(text, here, avail);
      }
      HoldGrows(policy, parser, k, here, token);
    }

    /** Nothing waits for the parser to return. */
    ghost predicate Tidy()
      reads this
    {
      !errored && !setToken && !stepBack && !headerComplete && !messageComplete
    }

    /** A parser at `p` has taken `n` bytes since it was at `from`, and what is seen is tied to where it stands. */
    ghost predicate Standing(p: Pos, d: View, here: int, from: Pos, n: nat)
      reads `emitted, `misplaced
    {
      && from.Ok() && p.Ok() && Tied(d, p, here, emitted, misplaced) && MessagesOfKind(p.at.ms, isRequest)
      && Reached(policy, from, n, p, here < |d.text|)
      && (p.at.Live() && here == |d.text| ==> p.Depth() > 0)
      && (n > 0 && !p.at.Live() ==> d.token == here > 0)
    }

    /** What the flags say of the work that waits. */
    ghost predicate Flagged(more: bool)
      reads this
    {
      && (headerComplete ==> parser.at.BareCr? && parser.left == 0 && more && !setToken && !messageComplete)
      && (stepBack ==> setToken) && (messageComplete ==> parser.at.Start?) && (setToken ==> !InLines(parser.at))
    }

    /** The parser has taken `n` bytes since it was at `from`, and everything in front of offset `here` of the text. */
    ghost predicate Running(text: seq<byte>, here: int, from: Pos, n: nat)
      reads this
    {
      Standing(parser, Due(text, here), here, from, n) && Flagged(here < |text|)
    }

    // The kinds of step, each keeping the parser running.

    method Arrive(ghost text: seq<byte>, ghost here: int, q: Pos, ghost from: Pos, ghost n: nat, ghost k: nat)
      requires Tidy() && Tied(LookAt(text), q, here, emitted, misplaced) && from.Ok() && parser.Ok()
      requires Reached(policy, from, n, parser, true) && MessagesOfKind(parser.at.ms, isRequest)
      requires 0 < k <= Fire(policy, parser).left && q == Eat(policy, parser, k) && q.at.Live()
      modifies this`parser
      ensures Running(text, here, from, n + k) && parser == q
    {
      hide Tied, Eat, Fire, Reached;
      EatOn(policy, from, n, parser, k, isRequest, here < |text|);
      parser := q;
    }

    method TakeInText(ghost text: seq<byte>, here: nat, avail: nat, ghost from: Pos, ghost n: nat) returns (k: nat)
      requires Tidy() && Running(text, here, from, n) && 0 < avail && here + avail <= |text|
      requires TextStep(parser)
      modifies this`value, this`valueEnd, this`tokenEnd, this`fieldEnd, this`state, this`parser
      ensures 0 < k <= avail && Running(text, here + k, from, n + k)
      ensures Hold(parser, here + k, token) >= old(Hold(parser, here, token))
      ensures Passes(policy, old(parser), parser, k)
    {
      hide TextStep, Tied, Fire, Eat, Hold, Reached;
      var q;
      k, q := StepInText(text, here, avail);
      TokenGoesOn(policy, parser, k);
      HoldGrows(policy, parser, k, here, token);
      Arrive(text, here + k, q, from, n, k);
    }

    method TakeFree(ghost text: seq<byte>, here: nat, avail: nat, ghost from: Pos, ghost n: nat) returns (k: nat)
      requires Tidy() && Running(text, here, from, n) && 0 < avail && here + avail <= |text|
      requires FreeStep(parser)
      modifies this`state, this`setToken, this`stepBack, this`messageComplete, this`parser
      ensures 0 < k <= avail && Running(text, here + k, from, n + k)
      ensures k < avail ==> stepBack || messageComplete
      ensures Hold(parser, here + k, token) >= old(Hold(parser, here, token))
      ensures Passes(policy, old(parser), parser, k)
    {
      ghost var p := parser;
      hide FreeStep, Tied, Fire, Eat, Hold, Reached;
      var q;
      k, q := StepFree(text, here, avail);
      HoldGrows(policy, p, k, here, token);
      EatOn(policy, from, n, p, k, isRequest, here + k < |text|);
      parser := q;
    }

    method TakeWithEdit(buffer: Buffer, here: nat, avail: nat, ghost from: Pos, ghost n: nat) returns (k: nat)
      requires buffer.Valid() && Tidy() && Running(buffer.Contents(), here, from, n)
      requires 0 < avail && here + avail <= buffer.size
      requires EditStep(parser)
      modifies this`token, this`tokenEnd, this`field, this`fieldEnd, this`value, this`valueEnd, this`nextToken
      modifies this`bufferOffset
      modifies this`state, this`history, this`errored, this`parser, buffer, buffer.Repr
      ensures buffer.Valid() && fresh(buffer.Repr - old(buffer.Repr))
      ensures errored ==> Refused(policy, history) && parser == old(parser)
      ensures !errored ==> Approves(policy, old(history), history)
      ensures !errored ==> buffer.size - bufferOffset == old(buffer.size - bufferOffset)
      ensures !errored ==> 0 < k <= avail
      ensures !errored ==> Running(buffer.Contents(), here + k + (bufferOffset - old(bufferOffset)), from, n + k)
      ensures !errored ==>
        Goal(buffer, parser, here + k + (bufferOffset - old(bufferOffset))) == old(Goal(buffer, parser, here))
      ensures !errored && old(Held(buffer, parser, here)) ==>
        Held(buffer, parser, here + k + (bufferOffset - old(bufferOffset)))
    {
      hide Goal, Held, LayoutOf, Firm, Hold, Tied, Fire, Eat, Reached, Refused, Approves, Chain, Proper, Nodes, Text;
      hide Last;
      var q;
      k, q := StepWithEdit(buffer, here, avail);
      if !errored {
        TokenGoesOn(policy, parser, k);
        Arrive(buffer.Contents(), here + k + (bufferOffset - old(bufferOffset)), q, from, n, k);
      }
    }

    method EndBareHead(ghost text: seq<byte>, here: nat, ghost from: Pos, ghost n: nat)
      requires Tidy() && Running(text, here, from, n) && here < |text| && parser.at.BareCr? && parser.left == 0
      modifies this`headerComplete
      ensures Running(text, here, from, n) && headerComplete
    {
      OnHeadersCompleteBare();
    }

    /** What running means while nothing waits. */
    lemma TidyFacts(text: seq<byte>, here: int, from: Pos, n: nat)
      requires Tidy() && Running(text, here, from, n) && here < |text|
      ensures parser.Ok() && from.Ok() && Tied(LookAt(text), parser, here, emitted, misplaced)
      ensures Reached(policy, from, n, parser, true) && MessagesOfKind(parser.at.ms, isRequest)
    {
    }

    /** The parser enters the next region, and takes no byte yet. */
    method Enter(ghost text: seq<byte>, ghost here: int, q: Pos, ghost from: Pos, ghost n: nat)
      requires Tidy() && Tied(LookAt(text), q, here, emitted, misplaced) && from.Ok() && parser.Ok() && here < |text|
      requires Reached(policy, from, n, parser, true) && MessagesOfKind(parser.at.ms, isRequest)
      requires q == Fire(policy, parser) && q.left > 0 && q.at.LastLf?
      modifies this`parser
      ensures Running(text, here, from, n) && parser == q
    {
      hide Tied, Fire, Reached;
      TiedOk(LookAt(text), q, here, emitted, misplaced);
      FireOn(policy, from, n, parser, isRequest);
      parser := q;
    }

    method EndHead(buffer: Buffer, here: nat, ghost from: Pos, ghost n: nat)
      requires buffer.Valid() && Tidy() && Running(buffer.Contents(), here, from, n) && here < buffer.size
      requires parser.at.LastCr? && parser.left == 0
      modifies this`token, this`tokenEnd, this`nextToken, this`bufferOffset, this`state, this`history, this`errored
      modifies this`misplaced
      modifies this`parser, buffer, buffer.Repr
      ensures buffer.Valid() && fresh(buffer.Repr - old(buffer.Repr))
      ensures errored ==> Refused(policy, history) && parser == old(parser)
      ensures !errored ==> Approves(policy, old(history), history)
      ensures !errored ==> buffer.size - bufferOffset == old(buffer.size - bufferOffset)
      ensures !errored ==> Running(buffer.Contents(), here + (bufferOffset - old(bufferOffset)), from, n)
      ensures !errored ==> !EndsHead(parser)
      ensures !errored ==>
        Goal(buffer, parser, here + (bufferOffset - old(bufferOffset))) == old(Goal(buffer, parser, here))
      ensures old(Held(buffer, parser, here)) ==>
        misplaced == old(misplaced) && (!errored ==> Held(buffer, parser, here + (bufferOffset - old(bufferOffset))))
    {
      hide Running, Goal, Held, Tied, Fire, Reached, Refused, Approves, Chain, Proper, Nodes, Text, Last, LayoutOf;
      hide Firm;
      hide Hold;
      TidyFacts(buffer.Contents(), here, from, n);
      var q := StepLastCr(buffer, here);
      if !errored {
        Enter(buffer.Contents(), here + (bufferOffset - old(bufferOffset)), q, from, n);
      }
    }

    lemma NextStep(text: seq<byte>, here: int, from: Pos, n: nat)
      requires Running(text, here, from, n)
      ensures parser.Ok() && (TextStep(parser) || EditStep(parser) || FreeStep(parser) || EndsHead(parser))
    {
      EveryStep(parser);
    }

    method StepWithoutEdit(ghost text: seq<byte>, here: nat, avail: nat, ghost from: Pos, ghost n: nat)
      returns (k: nat, paused: bool)
      requires Tidy() && Running(text, here, from, n) && 0 < avail && here + avail <= |text|
      requires !EditStep(parser) && !(parser.at.LastCr? && parser.left == 0)
      modifies this`value, this`valueEnd, this`tokenEnd, this`fieldEnd, this`state, this`setToken, this`stepBack
      modifies this`messageComplete, this`headerComplete, this`parser
      ensures k <= avail && Running(text, here + k, from, n + k)
      ensures !paused ==> k > 0 && (k == avail || Tidy())
      ensures k == 0 ==> EndsHead(old(parser)) && headerComplete
      ensures Passes(policy, old(parser), parser, k)
      ensures !errored && Hold(parser, here + k, token) >= old(Hold(parser, here, token))
    {
      hide Eat, Fire, Hold, Running, Quiet, Tied, TextStep, FreeStep, EditStep;
      NextStep(text, here, from, n);
      if TextStep(parser) {
        k := TakeInText(text, here, avail, from, n);
        paused := false;
      } else if FreeStep(parser) {
        k := TakeFree(text, here, avail, from, n);
        paused := stepBack || messageComplete;
      } else {
        EndBareHead(text, here, from, n);
        k, paused := 0, true;
      }
    }

    lemma FirmStays(buffer: Buffer, m: int, here: int)
      requires buffer.size - Hold(parser, here, token) <= m
      ensures Firm(policy, LayoutOf(buffer.spine), m) ==> Held(buffer, parser, here)
    {
      if Firm(policy, LayoutOf(buffer.spine), m) {
        FirmLess(policy, LayoutOf(buffer.spine), m, buffer.size - Hold(parser, here, token));
      }
    }

    lemma PassGoal(buffer: Buffer, p: Pos, k: nat, here: int)
      requires Passes(policy, p, parser, k) && here + k <= buffer.size
      ensures Goal(buffer, p, here) == Goal(buffer, parser, here + k)
    {
      hide RopeRun, Passes;
      PassOk(policy, p, parser, k);
      PassRun(policy, p, parser, k, RopeOf(buffer), buffer.size - here);
    }

    /** The parser takes `k` bytes, or reports the end of the header lines and takes none. */
    method Step(buffer: Buffer, here: nat, avail: nat, ghost from: Pos, ghost n: nat) returns (k: nat, paused: bool)
      requires buffer.Valid() && Tidy() && Running(buffer.Contents(), here, from, n)
      requires 0 < avail && here + avail <= buffer.size
      modifies this, buffer, buffer.Repr
      ensures buffer.Valid() && fresh(buffer.Repr - old(buffer.Repr))
      ensures errored ==> Refused(policy, history) && !AfterReturn(parser)
      ensures !errored ==> Approves(policy, old(history), history)
      ensures !errored ==> buffer.size - bufferOffset == old(buffer.size - bufferOffset)
      ensures emitted == old(emitted) && pending == old(pending)
      ensures !errored ==>
        k <= avail && Running(buffer.Contents(), here + k + (bufferOffset - old(bufferOffset)), from, n + k)
      ensures !errored && !paused ==> k > 0
      ensures !errored && (!paused || EditStep(old(parser))) ==> k == avail || Tidy()
      ensures !errored && k == 0 ==> EndsHead(old(parser)) && (headerComplete || !EndsHead(parser))
      ensures !errored ==>
        Goal(buffer, parser, here + k + (bufferOffset - old(bufferOffset))) == old(Goal(buffer, parser, here))
      ensures old(Held(buffer, parser, here)) ==>
        misplaced == old(misplaced)
          && (!errored ==> Held(buffer, parser, here + k + (bufferOffset - old(bufferOffset))))
    {
      hide Goal, Passes, Running, Refused, Approves, Chain, Proper, Nodes, Text, Last, LayoutOf, Firm, Hold;
      ApprovesNone(policy, history);
      if EditStep(parser) {
        paused := !parser.at.Second?;
        k := TakeWithEdit(buffer, here, avail, from, n);
      } else if parser.at.LastCr? && parser.left == 0 {
        k, paused := 0, true;
        EndHead(buffer, here, from, n);
      } else {
        ghost var m, p := buffer.size - Hold(parser, here, token), parser;
        k, paused := StepWithoutEdit(buffer.Contents(), here, avail, from, n);
        PassGoal(buffer, p, k, here);
        FirmStays(buffer, m, here + k);
      }
    }

    method TakeNext(buffer: Buffer, here: nat, ghost from: Pos, ghost n: nat) returns (k: nat)
      requires buffer.Valid() && Tidy() && Running(buffer.Contents(), here, from, n) && here < buffer.size
      requires TextStep(parser)
      modifies this`value, this`valueEnd, this`tokenEnd, this`fieldEnd, this`state, this`parser
      ensures k == 1 && Running(buffer.Contents(), here + 1, from, n + 1)
      ensures old(Held(buffer, parser, here)) ==> Held(buffer, parser, here + 1)
      ensures Goal(buffer, parser, here + 1) == old(Goal(buffer, parser, here))
    {
      hide Goal, Passes, Running, TextStep, Chain, Proper, Nodes, Text, Last, LayoutOf, Firm, Hold;
      ghost var m, p := buffer.size - Hold(parser, here, token), parser;
      k := TakeInText(buffer.Contents(), here, 1, from, n);
      PassGoal(buffer, p, 1, here);
      FirmStays(buffer, m, here + 1);
    }

    lemma RunningBounds(text: seq<byte>, here: int, from: Pos, n: nat)
      requires Running(text, here, from, n)
      ensures 0 <= here <= |text|
    {
    }

    /** The parser is given the `n` bytes at `bufferOffset`, a chunk, and stops behind them or where a callback
        pauses it. */
    method Execute(buffer: Buffer, n: nat, ghost from: Pos, ghost c: nat) returns (parsed: nat)
      requires buffer.Valid() && Tidy() && Running(buffer.Contents(), bufferOffset, from, c)
      requires 0 < n && bufferOffset + n <= buffer.size
      modifies this, buffer, buffer.Repr
      ensures buffer.Valid() && fresh(buffer.Repr - old(buffer.Repr))
      ensures errored ==> Refused(policy, history) && !AfterReturn(parser)
      ensures !errored ==> Approves(policy, old(history), history)
      ensures !errored ==> buffer.size - bufferOffset == old(buffer.size - bufferOffset)
      ensures emitted == old(emitted) && pending == old(pending)
      ensures !errored ==> parsed <= n && Running(buffer.Contents(), bufferOffset + parsed, from, c + parsed)
      ensures !errored && parsed == 0 ==> EndsHead(old(parser)) && (headerComplete || !EndsHead(parser))
      ensures !errored ==> Goal(buffer, parser, bufferOffset + parsed) == old(Goal(buffer, parser, bufferOffset))
      ensures old(Held(buffer, parser, bufferOffset)) ==>
        misplaced == old(misplaced) && (!errored ==> Held(buffer, parser, bufferOffset + parsed))
    {
      hide Goal, Held, Running, Refused, Approves, TextStep, EditStep, EndsHead, Chain, Proper, Nodes, Text, Last;
      var paused, reported, behind := false, false, false;
      parsed := 0;
      ApprovesNone(policy, history);
      while parsed < n && !paused && !errored
        invariant buffer.Valid() && fresh(buffer.Repr - old(buffer.Repr)) && (!errored ==> parsed <= n)
        invariant emitted == old(emitted) && pending == old(pending)
        invariant errored ==> Refused(policy, history) && !AfterReturn(parser)
        invariant !errored ==> buffer.size - bufferOffset == old(buffer.size - bufferOffset)
        invariant !errored ==> Approves(policy, old(history), history)
        invariant !errored ==> Goal(buffer, parser, bufferOffset + parsed) == old(Goal(buffer, parser, bufferOffset))
        invariant old(Held(buffer, parser, bufferOffset)) ==>
          misplaced == old(misplaced) && (!errored ==> Held(buffer, parser, bufferOffset + parsed))
        invariant !errored ==> Running(buffer.Contents(), bufferOffset + parsed, from, c + parsed)
        invariant !errored && (!paused || reported) ==> parsed == n || Tidy()
        invariant !errored && parsed == 0 ==>
          if paused then EndsHead(old(parser)) && (headerComplete || !EndsHead(parser)) else parser == old(parser)
        decreases if paused || errored then 0 else 1, n - parsed
      {
        reported := EditStep(parser);
        behind := !(parser.at.First? && parser.at.m.start.Reported() == []);
        var k;
        RunningBounds(buffer.Contents(), bufferOffset + parsed, from, c + parsed);
        ghost var told := history;
        k, paused := Step(buffer, bufferOffset + parsed, n - parsed, from, c + parsed);
        ApprovesThrough(old(history), told);
        parsed := parsed + k;
      }
      if !errored && paused && reported && behind && parsed < n && TextStep(parser) {
        // The parser reports a piece when it sees the byte behind it, and has then taken that byte.
        RunningBounds(buffer.Contents(), bufferOffset + parsed, from, c + parsed);
        var k := TakeNext(buffer, bufferOffset + parsed, from, c + parsed);
        parsed := parsed + k;
      }
    }

    // ---- behind the parser's return ------------------------------------------------------------

    /** Reports the end of a message, if there was one. */
    method SettleDone()
      requires !errored
      modifies this`history, this`messageComplete, this`errored
      ensures errored ==> old(messageComplete) && Refused(policy, history)
      ensures !errored ==> Approves(policy, old(history), history) && !messageComplete
      ensures !errored ==> history == if old(messageComplete) then old(history) + [MessageDone] else old(history)
    {
      Told(policy, history, MessageDone);
      ApprovesNone(policy, history);
      if messageComplete {
        history := history + [MessageDone];
        if !policy.finish(history) {
          errored := true;
          return;
        }
        messageComplete := false;
      }
    }

    /** The next token begins where the parser stands, or one byte in front. */
    method BeginToken(ghost text: seq<byte>, ghost from: Pos, ghost n: nat)
      requires setToken && !messageComplete && Running(text, bufferOffset, from, n)
      modifies this`token, this`setToken, this`stepBack
      ensures Running(text, bufferOffset, from, n) && !setToken && !stepBack
      ensures Hold(parser, bufferOffset, token) == Hold(parser, bufferOffset, old(token))
    {
      hide Standing, Hold;
      HoldOutside(parser, bufferOffset, token, if stepBack then bufferOffset - 1 else bufferOffset);
      token := if stepBack then bufferOffset - 1 else bufferOffset;
      setToken, stepBack := false, false;
    }

    method SettleToken(ghost text: seq<byte>, parsed: nat, ghost from: Pos, ghost n: nat)
      requires !errored && Running(text, bufferOffset + parsed, from, n)
      modifies this`bufferOffset, this`history, this`messageComplete, this`token, this`setToken, this`stepBack
      modifies this`errored
      ensures errored ==> Refused(policy, history) && AfterReturn(parser)
      ensures !errored ==> Approves(policy, old(history), history)
      ensures !errored ==> bufferOffset == old(bufferOffset) + parsed && Running(text, bufferOffset, from, n)
      ensures !errored ==> !setToken && !stepBack && !messageComplete
      ensures !errored ==> Hold(parser, bufferOffset, token) == old(Hold(parser, bufferOffset + parsed, token))
    {
      hide Standing, Hold, Refused, Approves;
      bufferOffset := bufferOffset + parsed;
      SettleDone();
      if !errored && setToken {
        BeginToken(text, from, n);
      }
    }

    ghost function BareRest(): seq<byte>
      requires parser.at.BareCr?
      reads this
    {
      RawHead(parser.at.m.headers, parser.at.m.body) + RawAll(parser.at.ms)
    }

    /** The first of the two reports on a request line with no header lines behind it; the version is delimited then. */
    method ReportBareUrl(buffer: Buffer)
      requires buffer.Valid() && !errored && parser.Ok() && parser.at.BareCr? && parser.left == 0
      requires parser.at.m.start.RequestLine?
      requires 0 <= bufferOffset < buffer.size && Tied(Look(buffer), parser, bufferOffset, emitted, misplaced)
      modifies this`token, this`tokenEnd, this`nextToken, this`bufferOffset, this`history, this`errored
      modifies buffer, buffer.Repr
      ensures buffer.Valid() && fresh(buffer.Repr - old(buffer.Repr))
      ensures errored ==> Refused(policy, history)
      ensures !errored ==> Approves(policy, old(history), history)
      ensures !errored ==> buffer.size - bufferOffset == old(buffer.size - bufferOffset)
      ensures !errored ==>
        RopeOf(buffer) ==
          TokenRope(policy, old(history), Url, old(RopeOf(buffer)), old(token), old(token) + |parser.at.m.start.url|)
      ensures !errored ==> TokenEdited(policy, old(Look(buffer)), Look(buffer), Url, parser.at.m.start.url, SP)
      ensures !errored ==> 0 <= token <= bufferOffset - 3 && bufferOffset < buffer.size
      ensures !errored ==> buffer.Contents()[token..bufferOffset - 3] == parser.at.m.start.version
      ensures !errored ==> bufferOffset - 3 - token == |parser.at.m.start.version|
    {
      hide LayoutOf, RopeOf, TokenRope, Tied, TextEdited, Refused, Approves, RawHead, RawAll, Chain, Proper, Nodes;
      hide Text, Last;
      ghost var v, here := Look(buffer), bufferOffset;
      StartLineText(v, parser, here, emitted, misplaced);
      ReportUrl(buffer);
      if !errored {
        VersionText(policy, v, Look(buffer), parser, here, emitted, misplaced);
      }
    }

    method ReportBareVersion(buffer: Buffer)
      requires buffer.Valid() && !errored && 0 <= token <= bufferOffset - 3 && bufferOffset < buffer.size
      modifies this`token, this`tokenEnd, this`nextToken, this`bufferOffset, this`history, this`errored
      modifies buffer, buffer.Repr
      ensures buffer.Valid() && fresh(buffer.Repr - old(buffer.Repr))
      ensures errored ==> Refused(policy, history)
      ensures !errored ==> Approves(policy, old(history), history)
      ensures !errored ==> buffer.size - bufferOffset == old(buffer.size - bufferOffset)
      ensures !errored ==>
        RopeOf(buffer) ==
          TokenRope(policy, old(history), Version, old(RopeOf(buffer)), old(token), old(bufferOffset) - 3)
      ensures !errored ==> 0 <= token == bufferOffset - 1
      ensures !errored ==>
        var v := old(Look(buffer));
        TokenEdited(policy, v, Look(buffer), Version, v.text[v.token..old(bufferOffset) - 3], CRLF)
    {
      hide LayoutOf, RopeOf, TokenRope, TextEdited, Refused, Approves, Chain, Proper, Nodes, Text, Last;
      tokenEnd := bufferOffset - 3;
      AskToken(buffer, Version, CRLF);
      if !errored {
        token := bufferOffset - 1;
      }
    }

    method ReportBareRequest(buffer: Buffer)
      requires buffer.Valid() && !errored && parser.Ok() && parser.at.BareCr? && parser.left == 0
      requires parser.at.m.start.RequestLine?
      requires 0 <= bufferOffset < buffer.size && Tied(Look(buffer), parser, bufferOffset, emitted, misplaced)
      modifies this`token, this`tokenEnd, this`nextToken, this`bufferOffset, this`history, this`errored
      modifies buffer, buffer.Repr
      ensures buffer.Valid() && fresh(buffer.Repr - old(buffer.Repr))
      ensures errored ==> Refused(policy, history)
      ensures !errored ==> Approves(policy, old(history), history)
      ensures !errored ==> buffer.size - bufferOffset == old(buffer.size - bufferOffset)
      ensures !errored ==>
        RopeOf(buffer) == RestRope(policy, old(history), old(RopeOf(buffer)), old(token), parser.at.m.start)
      ensures !errored ==> 0 <= token == bufferOffset - 1
      ensures !errored ==>
        Settled(Look(buffer), EditRest(policy, parser.acc, parser.at.m.start), BareRest(), emitted, misplaced)
    {
      hide LayoutOf, RopeOf, TokenRope, RestRope, Tied, TextEdited, Settled, Refused, Approves, EditRest, RawHead;
      hide RawAll, Chain;
      hide Proper, Nodes, Text, Last;
      ghost var v, here, r := Look(buffer), bufferOffset, RopeOf(buffer);
      RopeFacts(buffer);
      ReportBareUrl(buffer);
      ghost var u := Look(buffer);
      if !errored {
        ReportBareVersion(buffer);
        ApprovesThrough(old(history), u.history);
        if !errored {
          LineRope(policy, v, u, parser, here, emitted, misplaced, r);
          RequestLineStep(policy, v, u, Look(buffer), parser, here, emitted, misplaced);
        }
      }
    }

    method ReportBareStatus(buffer: Buffer)
      requires buffer.Valid() && !errored && parser.Ok() && parser.at.BareCr? && parser.left == 0
      requires parser.at.m.start.StatusLine?
      requires 0 <= bufferOffset < buffer.size && Tied(Look(buffer), parser, bufferOffset, emitted, misplaced)
      modifies this`token, this`tokenEnd, this`nextToken, this`bufferOffset, this`history, this`errored
      modifies buffer, buffer.Repr
      ensures buffer.Valid() && fresh(buffer.Repr - old(buffer.Repr))
      ensures errored ==> Refused(policy, history)
      ensures !errored ==> Approves(policy, old(history), history)
      ensures !errored ==> buffer.size - bufferOffset == old(buffer.size - bufferOffset)
      ensures !errored ==>
        RopeOf(buffer) == RestRope(policy, old(history), old(RopeOf(buffer)), old(token), parser.at.m.start)
      ensures !errored ==> 0 <= token == bufferOffset - 1
      ensures !errored ==>
        Settled(Look(buffer), EditRest(policy, parser.acc, parser.at.m.start), BareRest(), emitted, misplaced)
    {
      hide LayoutOf, RopeOf, TokenRope, RestRope, Tied, TextEdited, Settled, Refused, Approves, EditRest, RawHead;
      hide RawAll, Chain;
      hide Proper, Nodes, Text, Last;
      ghost var v, here, r := Look(buffer), bufferOffset, RopeOf(buffer);
      StartLineText(v, parser, here, emitted, misplaced);
      AskToken(buffer, Status, CRLF);
      if !errored {
        token := bufferOffset - 1;
        StatusRope(policy, v.history, r, v.token, parser.at.m.start);
        StatusLineStep(policy, v, Look(buffer), parser, here, emitted, misplaced);
      }
    }

    /** The start line of a message without header lines. */
    method ReportBareLine(buffer: Buffer)
      requires buffer.Valid() && !errored && parser.Ok() && parser.at.BareCr? && parser.left == 0
      requires 0 <= bufferOffset < buffer.size && Tied(Look(buffer), parser, bufferOffset, emitted, misplaced)
      modifies this`token, this`tokenEnd, this`nextToken, this`bufferOffset, this`history, this`errored
      modifies buffer, buffer.Repr
      ensures buffer.Valid() && fresh(buffer.Repr - old(buffer.Repr))
      ensures errored ==> Refused(policy, history)
      ensures !errored ==> Approves(policy, old(history), history)
      ensures !errored ==> buffer.size - bufferOffset == old(buffer.size - bufferOffset)
      ensures !errored ==>
        RopeOf(buffer) == RestRope(policy, old(history), old(RopeOf(buffer)), old(token), parser.at.m.start)
      ensures !errored && old(Firm(policy, LayoutOf(buffer.spine), buffer.size - bufferOffset + 1)) ==>
        Firm(policy, LayoutOf(buffer.spine), old(buffer.size - bufferOffset + 1))
      ensures !errored ==> 0 <= token == bufferOffset - 1
      ensures !errored ==>
        Settled(Look(buffer), EditRest(policy, parser.acc, parser.at.m.start), BareRest(), emitted, misplaced)
    {
      hide LayoutOf, Firm, RestRope, Tied, Settled, Refused, Approves, Chain, Proper, Nodes, Text, Last;
      RopeFacts(buffer);
      StartLineText(Look(buffer), parser, bufferOffset, emitted, misplaced);
      RestFirm(policy, history, RopeOf(buffer), token, parser.at.m.start, buffer.size - bufferOffset + 1);
      if parser.at.m.start.RequestLine? {
        ReportBareRequest(buffer);
      } else {
        ReportBareStatus(buffer);
      }
    }

    lemma SettledHistory(w: View, was: bool)
      requires parser.at.BareCr?
      requires Settled(w, EditRest(policy, parser.acc, parser.at.m.start), BareRest(), emitted, was)
      ensures EditRest(policy, parser.acc, parser.at.m.start).hist == w.history
    {
    }

    method ReportBareHead(buffer: Buffer) returns (ghost w: View)
      requires buffer.Valid() && !errored && parser.Ok() && parser.at.BareCr? && parser.left == 0
      requires 0 <= bufferOffset < buffer.size && Tied(Look(buffer), parser, bufferOffset, emitted, misplaced)
      modifies this`token, this`tokenEnd, this`nextToken, this`bufferOffset, this`history, this`errored
      modifies this`misplaced, buffer, buffer.Repr
      ensures buffer.Valid() && fresh(buffer.Repr - old(buffer.Repr))
      ensures errored ==> Refused(policy, history)
      ensures !errored ==> Approves(policy, old(history), history)
      ensures !errored ==> buffer.size - bufferOffset == old(buffer.size - bufferOffset)
      ensures !errored ==> 0 <= token == bufferOffset - 1
      ensures !errored ==>
        Settled(w, EditRest(policy, parser.acc, parser.at.m.start), BareRest(), emitted, old(misplaced))
      ensures !errored ==>
        Goal(buffer, Fire(policy, parser), bufferOffset) == old(Goal(buffer, parser, bufferOffset))
      ensures !errored ==> DoneEdited(policy, w, Look(buffer), old(misplaced), misplaced)
      ensures old(Firm(policy, LayoutOf(buffer.spine), buffer.size - bufferOffset + 1)) ==>
        misplaced == old(misplaced) && (!errored ==> Firm(policy, LayoutOf(buffer.spine), buffer.size - token - 1))
    {
      hide RopeRun, FireRope, RestRope, DoneRope, EditRest, Fire, Tied, Refused, Approves, Settled, DoneEdited, Chain;
      hide Proper, Nodes, Text, Last;
      hide LayoutOf, Firm;
      ghost var v, here, was, r := Look(buffer), bufferOffset, misplaced, RopeOf(buffer);
      ReportBareLine(buffer);
      w := Look(buffer);
      ghost var q := RopeOf(buffer);
      if !errored {
        SettledHistory(w, was);
        AskDone(buffer);
        BareRope(policy, v, w, parser, here, emitted, was, r, q);
        ApprovesThrough(old(history), w.history);
      }
    }

    lemma BareFacts(text: seq<byte>, from: Pos, n: nat)
      requires headerComplete && Running(text, bufferOffset, from, n) && !setToken && !stepBack && !messageComplete
      ensures parser.Ok() && parser.at.BareCr? && parser.left == 0 && 0 <= bufferOffset < |text|
      ensures Tied(LookAt(text), parser, bufferOffset, emitted, misplaced)
      ensures from.Ok() && Reached(policy, from, n, parser, true) && MessagesOfKind(parser.at.ms, isRequest)
    {
    }

    lemma BareStanding(x: View, w: View, was: bool, from: Pos, n: nat)
      requires parser.Ok() && parser.at.BareCr? && parser.left == 0 && 0 <= x.token < |x.text| - 1
      requires Settled(w, EditRest(policy, parser.acc, parser.at.m.start), BareRest(), emitted, was)
      requires DoneEdited(policy, w, x, was, misplaced)
      requires from.Ok() && Reached(policy, from, n, parser, true) && MessagesOfKind(parser.at.ms, isRequest)
      ensures Standing(Fire(policy, parser), x.(token := x.token + 1, state := InBody), x.token + 1, from, n)
    {
      hide Tied, Settled, DoneEdited, Reached, EditRest, Fire;
      BareFire(policy, parser);
      BareStep(policy, w, x, x.(token := x.token + 1, state := InBody), parser, emitted, was, misplaced);
      FireOn(policy, from, n, parser, isRequest);
    }

    /** Moves the token behind the header block. */
    method FinishBareHead(ghost text: seq<byte>, ghost w: View, ghost was: bool, ghost from: Pos, ghost n: nat)
      requires !errored && !setToken && !stepBack && !messageComplete
      requires parser.Ok() && parser.at.BareCr? && parser.left == 0 && 0 <= token == bufferOffset - 1
      requires bufferOffset < |text|
      requires Settled(w, EditRest(policy, parser.acc, parser.at.m.start), BareRest(), emitted, was)
      requires DoneEdited(policy, w, LookAt(text), was, misplaced)
      requires from.Ok() && Reached(policy, from, n, parser, true) && MessagesOfKind(parser.at.ms, isRequest)
      modifies this`token, this`state, this`headerComplete, this`parser
      ensures Tidy() && Running(text, bufferOffset, from, n) && !EndsHead(parser)
      ensures parser == Fire(policy, old(parser))
      ensures Hold(parser, bufferOffset, token) == bufferOffset + 1
    {
      hide Settled, DoneEdited, Reached, EditRest, Fire, Standing;
      BareFire(policy, parser);
      BareStanding(LookAt(text), w, was, from, n);
      headerComplete := false;
      token, state, parser := bufferOffset, InBody, Fire(policy, parser);
    }

    /** A message without header lines: its start line, and the end of its header block. */
    method SettleBareHead(buffer: Buffer, ghost from: Pos, ghost n: nat)
      requires buffer.Valid() && !errored && headerComplete && Running(buffer.Contents(), bufferOffset, from, n)
      requires !setToken && !stepBack && !messageComplete
      modifies this`token, this`tokenEnd, this`nextToken, this`bufferOffset, this`state, this`history, this`errored
      modifies this`misplaced
      modifies this`headerComplete, this`parser, buffer, buffer.Repr
      ensures buffer.Valid() && fresh(buffer.Repr - old(buffer.Repr))
      ensures errored ==> Refused(policy, history) && AfterReturn(parser)
      ensures !errored ==> Approves(policy, old(history), history)
      ensures !errored ==> buffer.size - bufferOffset == old(buffer.size - bufferOffset)
      ensures !errored ==> Tidy() && Running(buffer.Contents(), bufferOffset, from, n) && !EndsHead(parser)
      ensures !errored ==> Goal(buffer, parser, bufferOffset) == old(Goal(buffer, parser, bufferOffset))
      ensures old(Held(buffer, parser, bufferOffset)) ==>
        misplaced == old(misplaced) && (!errored ==> Held(buffer, parser, bufferOffset))
    {
      hide Goal, EditRest, Running, Tied, Refused, Approves, Settled, DoneEdited, Fire, Reached, Chain, Proper, Nodes;
      hide Text, Last;
      hide LayoutOf, Firm;
      BareFacts(buffer.Contents(), from, n);
      ghost var was := misplaced;
      var w := ReportBareHead(buffer);
      if !errored {
        ghost var m := buffer.size - token - 1;
        FinishBareHead(buffer.Contents(), w, was, from, n);
        FirmStays(buffer, m, bufferOffset);
      }
    }

    /** The work that waited for the parser to return. */
    method Settle(buffer: Buffer, parsed: nat, ghost from: Pos, ghost n: nat)
      requires buffer.Valid() && !errored && Running(buffer.Contents(), bufferOffset + parsed, from, n)
      modifies this, buffer, buffer.Repr
      ensures buffer.Valid() && fresh(buffer.Repr - old(buffer.Repr))
      ensures errored ==> Refused(policy, history) && AfterReturn(parser)
      ensures !errored ==> Approves(policy, old(history), history)
      ensures emitted == old(emitted) && pending == old(pending)
      ensures !errored ==> buffer.size - bufferOffset == old(buffer.size - bufferOffset) - parsed
      ensures !errored ==> Tidy() && Running(buffer.Contents(), bufferOffset, from, n)
      ensures !errored && old(headerComplete) ==> !EndsHead(parser)
      ensures !errored && !old(headerComplete) ==> parser == old(parser)
      ensures !errored ==> Goal(buffer, parser, bufferOffset) == old(Goal(buffer, parser, bufferOffset + parsed))
      ensures old(Held(buffer, parser, bufferOffset + parsed)) ==>
        misplaced == old(misplaced) && (!errored ==> Held(buffer, parser, bufferOffset))
    {
      hide Goal, Running, Refused, Approves, EndsHead, Chain, Proper, Nodes, Text, Last, LayoutOf, Firm, Hold;
      SettleToken(buffer.Contents(), parsed, from, n);
      if !errored && headerComplete {
        ghost var told := history;
        SettleBareHead(buffer, from, n);
        ApprovesThrough(old(history), told);
      }
    }

    // ---- a call -------------------------------------------------------------------------------

    /** Between two calls, none of which failed. With nothing waiting the token offset is stale once text has been
        handed over. */
    ghost predicate Ready()
      reads this
    {
      && Tidy() && parser.Ok() && MessagesOfKind(parser.at.ms, isRequest)
      && Tied(LookAt(pending), parser, |pending|, emitted, misplaced)
      && (if parser.at.Live() then token == 0 && pending != [] else pending == [] && (token > 0 <==> emitted != []))
    }

    constructor (policy: Policy, isRequest: bool, stream: seq<Message>)
      requires MessagesOk(stream) && MessagesOfKind(stream, isRequest)
      ensures Ready() && this.policy == policy && this.isRequest == isRequest && emitted == [] && !misplaced
      ensures parser == Pos(HttpStream.Start(stream), 0, Acc([], []))
    {
      hide Tied;
      this.policy, this.isRequest := policy, isRequest;
      bufferOffset, token, tokenEnd, field, fieldEnd, value, valueEnd, nextToken := 0, 0, 0, 0, 0, 0, 0, 0;
      state, setToken, stepBack, headerComplete, messageComplete, errored := Init, false, false, false, false, false;
      history, parser, emitted, pending, misplaced := [], Pos(HttpStream.Start(stream), 0, Acc([], [])), [], [], false;
      new;
      StartTied(parser, View([], 0, 0, 0, 0, 0, 0, Init, []));
    }

    static method Prepend(buffer: Buffer, text: seq<byte>)
      requires buffer.Valid() && text != []
      modifies buffer, buffer.Repr
      ensures buffer.Valid() && fresh(buffer.Repr - old(buffer.Repr))
      ensures buffer.Contents() == text + old(buffer.Contents())
      ensures LayoutOf(buffer.spine) == Opened(old(LayoutOf(buffer.spine)), old(buffer.Contents()), 0, |text|)
    {
      hide Gapped, GapOpened, Overwrite, Chain, Proper, Nodes, Text, Last, LayoutOf, Opened;
      ghost var s, l := buffer.Contents(), LayoutOf(buffer.spine);
      buffer.InsertFront(|text|);
      GapOpenedFacts(s, l, buffer.Contents(), LayoutOf(buffer.spine), 0, |text|);
      PrependFacts(s, buffer.Contents(), text);
      buffer.SetData(0, text);
    }

    /** Puts what is waiting in front of the buffer. */
    method Refill(buffer: Buffer)
      requires buffer.Valid()
      modifies this`bufferOffset, this`pending, buffer, buffer.Repr
      ensures buffer.Valid() && fresh(buffer.Repr - old(buffer.Repr))
      ensures buffer.Contents() == old(pending) + old(buffer.Contents())
      ensures LayoutOf(buffer.spine) == Opened(old(LayoutOf(buffer.spine)), old(buffer.Contents()), 0, |old(pending)|)
      ensures bufferOffset == |old(pending)| && pending == []
    {
      hide Chain, Proper, Nodes, Text, Last, LayoutOf;
      bufferOffset := |pending|;
      if pending != [] {
        Prepend(buffer, pending);
        pending := [];
      }
    }

    /** Between two calls everything is tied to what waits, with the next bytes behind it. */
    ghost predicate Waiting(waiting: seq<byte>, text: seq<byte>)
      reads this
    {
      Tidy() && Standing(parser, LookAt(text), |waiting|, parser, 0)
    }

    lemma ReadyDepth()
      requires Ready()
      ensures if parser.at.Live() then parser.Depth() > 0 else pending == []
    {
    }

    /** What waits is the part of the current token that has been parsed. */
    lemma ReadyLen()
      requires Ready()
      ensures parser.Ok() && |pending| == WaitingLen(parser)
    {
    }

    lemma BeginFacts(more: seq<byte>)
      requires Ready() && more <= Coming(parser)
      ensures Tidy() && parser.Ok() && Waiting(pending, pending + more) && (parser.at.Live() || pending == [])
    {
      RefillStep(LookAt(pending), parser, more, emitted, misplaced);
      AdvanceNothing(policy, parser);
      ReadyDepth();
      hide Tied, Coming, Advance;
    }

    lemma BeginRunning(waiting: seq<byte>, text: seq<byte>)
      requires Waiting(waiting, text)
      ensures Running(text, |waiting|, parser, 0)
    {
    }

    method Begin(buffer: Buffer)
      requires Ready() && buffer.Valid() && buffer.Contents() <= Coming(parser)
      modifies this`bufferOffset, this`pending, buffer, buffer.Repr
      ensures buffer.Valid() && fresh(buffer.Repr - old(buffer.Repr)) && pending == [] && Tidy()
      ensures buffer.size == |old(pending)| + old(buffer.size) && bufferOffset == |old(pending)| && parser.Ok()
      ensures parser.at.Live() || old(pending) == []
      ensures Safe(policy, old(LayoutOf(buffer.spine)), parser) ==> Held(buffer, parser, bufferOffset)
      ensures Running(buffer.Contents(), bufferOffset, parser, 0)
      ensures Goal(buffer, parser, bufferOffset) ==
        RopeRun(policy, parser, Refilled(old(pending), old(RopeOf(buffer))), old(buffer.size))
    {
      hide Ready, Running, Standing, Coming, Advance, Chain, Proper, Nodes, Text, Last, LayoutOf, Opened, Hold, Firm;
      hide Safe, RopeRun;
      LayoutLen(buffer.spine);
      BeginFacts(buffer.Contents());
      if Safe(policy, LayoutOf(buffer.spine), parser) {
        SafeFirm(policy, LayoutOf(buffer.spine), buffer.Contents(), |pending|, parser, token);
      }
      ghost var waiting := pending;
      Refill(buffer);
      BeginRunning(waiting, buffer.Contents());
    }

    static method NextChunk(buffer: Buffer, from: nat) returns (n: nat)
      requires buffer.Valid() && from < buffer.size
      ensures 0 < n && from + n <= buffer.size
    {
      var visited := buffer.WalkInternalChunk(from, _ => false);
      ConcatPush([], visited[0]);
      assert visited == [visited[0]] && [] + [visited[0]] == visited;
      n := |visited[0]|;
    }

    /** One round: a chunk for the parser, and what waited for its return. */
    method Round(buffer: Buffer, ghost from: Pos, ghost n: nat) returns (parsed: nat, inParser: bool)
      requires buffer.Valid() && Tidy() && bufferOffset < buffer.size
      requires Running(buffer.Contents(), bufferOffset, from, n)
      modifies this, buffer, buffer.Repr
      ensures buffer.Valid() && fresh(buffer.Repr - old(buffer.Repr))
      ensures errored ==> Refused(policy, history) && (inParser <==> !AfterReturn(parser))
      ensures !errored ==> Approves(policy, old(history), history)
      ensures emitted == old(emitted) && pending == old(pending)
      ensures !errored ==> Tidy() && Running(buffer.Contents(), bufferOffset, from, n + parsed)
      ensures !errored ==> buffer.size - bufferOffset == old(buffer.size - bufferOffset) - parsed
      ensures !errored && parsed == 0 ==> EndsHead(old(parser)) && !EndsHead(parser)
      ensures !errored ==> Goal(buffer, parser, bufferOffset) == old(Goal(buffer, parser, bufferOffset))
      ensures old(Held(buffer, parser, bufferOffset)) ==>
        misplaced == old(misplaced) && (!errored ==> Held(buffer, parser, bufferOffset))
    {
      hide Goal, Held, Running, Refused, Approves, EndsHead, Chain, Proper, Nodes, Text, Last;
      RunningBounds(buffer.Contents(), bufferOffset, from, n);
      var chunk := NextChunk(buffer, bufferOffset);
      parsed := Execute(buffer, chunk, from, n);
      inParser := errored;
      if !errored {
        ghost var told := history;
        Settle(buffer, parsed, from, n + parsed);
        ApprovesThrough(old(history), told);
      }
    }

    static method DetachBack(buffer: Buffer, at: nat) returns (tail: seq<byte>)
      requires buffer.Valid() && at < buffer.size
      modifies buffer, buffer.Repr
      ensures buffer.Valid() && fresh(buffer.Repr - old(buffer.Repr))
      ensures buffer.Contents() == old(buffer.Contents())[..at] && tail == old(buffer.Contents())[at..]
    {
      tail := buffer.GetData(at, buffer.size - at);
      buffer.ShrinkBack(buffer.size - at);
    }

    method RetainToken(buffer: Buffer)
      requires buffer.Valid() && 0 <= token <= buffer.size && pending == []
      modifies this`pending, this`token, this`tokenEnd, this`field, this`fieldEnd, this`value, this`valueEnd
      modifies this`emitted
      modifies buffer, buffer.Repr
      ensures buffer.Valid() && fresh(buffer.Repr - old(buffer.Repr))
      ensures emitted == old(emitted) + buffer.Contents() && emitted + pending == old(emitted + buffer.Contents())
      ensures buffer.Contents() == old(buffer.Contents()[..token])
      ensures buffer.Contents() + pending == old(buffer.Contents())
      ensures if old(token) < old(buffer.size) then LookAt(pending) == Rebased(old(Look(buffer)))
        else pending == [] && LookAt([]) == old(LookAt([]))
    {
      hide Chain, Proper, Nodes, Text, Last, LayoutOf;
      ghost var was, text := emitted, buffer.Contents();
      if token != buffer.size {
        var tail := DetachBack(buffer, token);
        Assoc(was, text[..token], tail);
        KeepToken(text, tail);
      }
      emitted := was + buffer.Contents();
    }

    lemma ReadyAgain()
      requires Tidy() && parser.Ok() && MessagesOfKind(parser.at.ms, isRequest)
      requires Tied(LookAt(pending), parser, |pending|, emitted, misplaced)
      requires if parser.at.Live() then token == 0 && pending != [] else pending == [] && (token > 0 <==> emitted != [])
      ensures Ready()
    {
    }

    lemma RetainFacts(text: seq<byte>, from: Pos, n: nat)
      requires Tidy() && Running(text, |text|, from, n)
      ensures parser.Ok() && MessagesOfKind(parser.at.ms, isRequest) && 0 <= token && history == parser.acc.hist
      ensures parser.at.Live() ==>
        && token < |text| && |text| - token == parser.Depth()
        && Tied(Rebased(LookAt(text)), parser, |text| - token, emitted + text[..token], misplaced)
      ensures !parser.at.Live() ==>
        && (token == |text| || (n == 0 && text == [])) && (n > 0 ==> text != [])
        && Tied(LookAt([]), parser, 0, emitted + text, misplaced)
      ensures misplaced || emitted + text == Output(parser)
    {
      if parser.at.Live() {
        RebaseStep(LookAt(text), parser, emitted, misplaced);
      } else {
        HandoverStep(LookAt(text), parser, emitted, misplaced);
      }
    }

    /** Keeps an unfinished token for the next call. */
    method Retain(buffer: Buffer, ghost from: Pos, ghost n: nat) returns (r: Outcome)
      requires buffer.Valid() && Tidy() && pending == [] && Running(buffer.Contents(), buffer.size, from, n)
      requires n == 0 && !parser.at.Live() ==> buffer.size == 0 && (token > 0 <==> emitted != [])
      modifies this`pending, this`token, this`tokenEnd, this`field, this`fieldEnd, this`value, this`valueEnd
      modifies this`emitted
      modifies buffer, buffer.Repr
      ensures buffer.Valid() && fresh(buffer.Repr - old(buffer.Repr)) && parser.Ok()
      ensures r == if TooLong(old(token), old(buffer.size)) then BlockTooLong else Done
      ensures r == BlockTooLong <==>
        if parser.at.Live() then parser.Depth() > MAX_PENDING else n == 0 && old(emitted) != []
      ensures r == Done && !parser.at.Live() ==> token == buffer.size && (buffer.size > 0 <==> n > 0)
      ensures r == Done ==> Ready() && emitted == old(emitted) + buffer.Contents()
      ensures r == Done && !misplaced ==> emitted + pending == Output(parser)
      ensures r == Done ==> buffer.Contents() + pending == old(buffer.Contents())
      ensures history == parser.acc.hist
    {
      hide Running, Tied, Output, Ready, MessagesOfKind, Rebased, Chain, Proper, Nodes, Text, Last;
      RetainFacts(buffer.Contents(), from, n);
      r := if TooLong(token, buffer.size) then BlockTooLong else Done;
      if r == Done {
        RetainToken(buffer);
        ReadyAgain();
      }
    }

    lemma GoalReached(buffer: Buffer)
      ensures Goal(buffer, parser, buffer.size) == RopeOf(buffer)
    {
    }

    /** Gives the parser one chunk after another until the buffer is used up. */
    method Rounds(buffer: Buffer) returns (inParser: bool)
      requires buffer.Valid() && Tidy() && pending == [] && parser.Ok()
      requires Running(buffer.Contents(), bufferOffset, parser, 0)
      modifies this, buffer, buffer.Repr
      ensures buffer.Valid() && fresh(buffer.Repr - old(buffer.Repr))
      ensures emitted == old(emitted) && pending == []
      ensures errored ==> Refused(policy, history) && (inParser <==> !AfterReturn(parser))
      ensures !errored ==> Approves(policy, old(history), history)
      ensures !errored ==>
        Tidy() && Running(buffer.Contents(), buffer.size, old(parser), old(buffer.size - bufferOffset))
      ensures old(bufferOffset == buffer.size) ==> !errored && token == old(token) && buffer.size == old(buffer.size)
      ensures !errored ==> RopeOf(buffer) == old(Goal(buffer, parser, bufferOffset))
      ensures old(Held(buffer, parser, bufferOffset)) ==> misplaced == old(misplaced)
    {
      hide Goal, Held, Running, Refused, Approves, EndsHead, Chain, Proper, Nodes, Text, Last;
      ghost var from, n := parser, 0;
      RunningBounds(buffer.Contents(), bufferOffset, from, n);
      ApprovesNone(policy, history);
      ghost var total := buffer.size - bufferOffset;
      inParser := false;
      while bufferOffset != buffer.size && !errored
        invariant buffer.Valid() && fresh(buffer.Repr - old(buffer.Repr))
        invariant emitted == old(emitted) && pending == []
        invariant errored ==> Refused(policy, history) && (inParser <==> !AfterReturn(parser))
        invariant !errored ==> Tidy() && Running(buffer.Contents(), bufferOffset, from, n)
        invariant !errored ==> Approves(policy, old(history), history)
        invariant !errored ==> Goal(buffer, parser, bufferOffset) == old(Goal(buffer, parser, bufferOffset))
        invariant old(Held(buffer, parser, bufferOffset)) ==>
          misplaced == old(misplaced) && (!errored ==> Held(buffer, parser, bufferOffset))
        invariant !errored ==> buffer.size - bufferOffset == total - n
        invariant total == 0 ==> !errored && token == old(token) && buffer.size == old(buffer.size) == bufferOffset
        decreases if errored then 0 else 1, buffer.size - bufferOffset, if EndsHead(parser) then 1 else 0
      {
        RunningBounds(buffer.Contents(), bufferOffset, from, n);
        var parsed;
        ghost var told := history;
        parsed, inParser := Round(buffer, from, n);
        ApprovesThrough(old(history), told);
        n := n + parsed;
      }
      GoalReached(buffer);
    }

    lemma ReadyToken()
      requires Ready()
      ensures !parser.at.Live() ==> pending == [] && (token > 0 <==> emitted != [])
    {
    }

    lemma RunningEnds(text: seq<byte>, from: Pos, n: nat)
      requires Running(text, |text|, from, n)
      ensures parser == Advance(policy, from, n) && (n == 0 ==> parser == from)
    {
      AdvanceNothing(policy, from);
    }

    /** Rewrites the next part of the stream in place. */
    method RewriteBuffer(buffer: Buffer) returns (r: Outcome)
      requires Ready() && buffer.Valid() && buffer.Contents() <= Coming(parser)
      modifies this, buffer, buffer.Repr
      ensures buffer.Valid() && fresh(buffer.Repr - old(buffer.Repr))
      ensures (r == UserError || r == ParserError <==> errored) && (old(buffer.size) == 0 ==> !errored)
      ensures errored ==> Refused(policy, history) && (r == UserError <==> AfterReturn(parser))
      ensures !errored ==> Approves(policy, old(history), history)
      ensures !errored ==> parser.Ok() && parser == Advance(policy, old(parser), |old(buffer.Contents())|)
      ensures r == Done ==> Ready() && emitted == old(emitted) + buffer.Contents()
      ensures r == Done && !misplaced ==> emitted + pending == Output(parser)
      ensures r == Done ==>
        buffer.Contents() + pending ==
          RopeRun(policy, old(parser), Refilled(old(pending), old(RopeOf(buffer))), old(buffer.size)).text
      ensures r == Done ==> history == parser.acc.hist
      ensures !errored ==> (r == BlockTooLong <==>
        if parser.at.Live() then parser.Depth() > 8192 else old(buffer.size) == 0 && old(emitted) != [])
      ensures r == Done && !parser.at.Live() ==> token == buffer.size && (buffer.size > 0 <==> old(buffer.size) > 0)
      ensures old(Safe(policy, LayoutOf(buffer.spine), parser)) ==> misplaced == old(misplaced)
    {
      hide Running, Refused, Approves, Output, Advance, Coming, Ready, Chain, Proper, Nodes, Text, Last, LayoutOf;
      hide Held, Safe, Goal, RopeRun, Refilled;
      ghost var from, total := parser, buffer.size;
      ReadyToken();
      Begin(buffer);
      var inParser := Rounds(buffer);
      if errored {
        r := if inParser then ParserError else UserError;
      } else {
        RunningEnds(buffer.Contents(), from, total);
        r := Retain(buffer, from, total);
      }
    }
  }
}
