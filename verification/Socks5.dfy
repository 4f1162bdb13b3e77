/** The SOCKS5 negotiation (RFC 1928): the client's request, the server's decoder, and the replies. */
module Socks5 {
  import opened Buffers
  import opened Bytes
  import opened StreamReaders

  const BUFFER_SIZE := 128

  datatype Target =
    | HostTarget(name: seq<byte>, port: nat)
    | V4Target(address: seq<byte>, port: nat)
    | V6Target(address: seq<byte>, port: nat)
  {
    predicate Ok() {
      port < 0x10000 &&
      match this
      case HostTarget(_, _) => true
      case V4Target(a, _) => |a| == 4
      case V6Target(a, _) => |a| == 16
    }
  }

  datatype ErrorCode = UnsupportedVersion | IllegalRequest | UnsupportedAuthenticationMethod | UnsupportedCommand

  /** What the server makes of the bytes it has collected; `Wait` reads on. */
  datatype Verdict = Wait | Greeted | Accepted(target: Target) | Rejected(error: ErrorCode)

  // ---- the wire format ------------------------------------------------------------------------

  function PortBytes(port: nat): seq<byte>
    requires port < 0x10000
  {
    [(port / 0x100) as byte, (port % 0x100) as byte]
  }

  function PortOf(hi: byte, lo: byte): (port: nat)
    ensures port < 0x10000
  {
    hi as nat * 0x100 + lo as nat
  }

  lemma PortBack(port: nat)
    requires port < 0x10000
    ensures PortOf(PortBytes(port)[0], PortBytes(port)[1]) == port
  {
  }

  /** The request for a target (section 4); the length of a name is cut to a byte. */
  function Request(t: Target): seq<byte>
    requires t.Ok()
  {
    match t
    case HostTarget(name, port) => [5, 1, 0, 3, (|name| % 0x100) as byte] + name + PortBytes(port)
    case V4Target(a, port) => [5, 1, 0, 1] + a + PortBytes(port)
    case V6Target(a, port) => [5, 1, 0, 4] + a + PortBytes(port)
  }

  /** The targets whose request the server can take. */
  predicate Fits(t: Target)
  {
    t.HostTarget? ==> 3 <= |t.name| <= 121
  }

  /** What the server says to a greeting (section 3). */
  function JudgeGreeting(p: seq<byte>): Verdict
  {
    if |p| < 3 then Wait
    else if p[0] != 5 then Rejected(UnsupportedVersion)
    else if |p| < p[1] as nat + 2 then Wait
    else if |p| > p[1] as nat + 2 then Rejected(IllegalRequest)
    else if 0 in p[2..] then Greeted
    else Rejected(UnsupportedAuthenticationMethod)
  }

  function JudgeHost(p: seq<byte>): Verdict
    requires |p| >= 10
  {
    var n := 4 + 1 + p[4] as nat;
    if |p| < n + 2 then Wait
    else if |p| > n + 2 then Rejected(IllegalRequest)
    else Accepted(HostTarget(p[5..n], PortOf(p[n], p[n + 1])))
  }

  /** What the server says to a request. */
  function JudgeRequest(p: seq<byte>): Verdict
  {
    if |p| < 10 then Wait
    else if p[0] != 5 then Rejected(UnsupportedVersion)
    else if p[1] != 1 then Rejected(UnsupportedCommand)
    else if p[2] != 0 then Rejected(IllegalRequest)
    else if p[3] == 1 then
      if |p| != 10 then Rejected(IllegalRequest) else Accepted(V4Target(p[4..8], PortOf(p[8], p[9])))
    else if p[3] == 3 then JudgeHost(p)
    else if p[3] == 4 then
      if |p| < 22 then Wait
      else if |p| > 22 then Rejected(IllegalRequest)
      else Accepted(V6Target(p[4..20], PortOf(p[20], p[21])))
    else Rejected(IllegalRequest)
  }

  /** What a greeting that lists some methods gets. */
  lemma GreetingVerdict(version: byte, n: byte, methods: seq<byte>)
    requires methods != []
    ensures var v := JudgeGreeting([version, n] + methods);
      if version != 5 then v == Rejected(UnsupportedVersion)
      else if |methods| < n as nat then v == Wait
      else if |methods| > n as nat then v == Rejected(IllegalRequest)
      else if exists i :: 0 <= i < |methods| && methods[i] == 0 then v == Greeted
      else v == Rejected(UnsupportedAuthenticationMethod)
  {
    assert ([version, n] + methods)[2..] == methods;
  }

  /** The three kinds of request, written out: the high byte of the port comes first. */
  lemma V4Taken(a: byte, b: byte, c: byte, d: byte, hi: byte, lo: byte)
    ensures JudgeRequest([5, 1, 0, 1, a, b, c, d, hi, lo]) ==
      Accepted(V4Target([a, b, c, d], hi as nat * 256 + lo as nat))
  {
    assert [5, 1, 0, 1, a, b, c, d, hi, lo][4..8] == [a, b, c, d];
  }

  lemma V6Taken(a: seq<byte>, hi: byte, lo: byte)
    requires |a| == 16
    ensures JudgeRequest([5, 1, 0, 4] + a + [hi, lo]) == Accepted(V6Target(a, hi as nat * 256 + lo as nat))
  {
    var p := [5, 1, 0, 4] + a + [hi, lo];
    assert p[4..20] == a && p[20] == hi && p[21] == lo;
  }

  lemma HostTaken(name: seq<byte>, hi: byte, lo: byte)
    requires 3 <= |name| < 256
    ensures JudgeRequest([5, 1, 0, 3, |name| as byte] + name + [hi, lo]) ==
      Accepted(HostTarget(name, hi as nat * 256 + lo as nat))
  {
    var p, n := [5, 1, 0, 3, |name| as byte] + name + [hi, lo], 5 + |name|;
    assert p[5..n] == name && p[n] == hi && p[n + 1] == lo;
  }

  lemma PortParts(hi: byte, lo: byte)
    ensures (PortOf(hi, lo) / 256) as byte == hi && (PortOf(hi, lo) % 256) as byte == lo
  {
  }

  /** Nothing else is accepted. */
  lemma TakenOnly(p: seq<byte>)
    requires JudgeRequest(p).Accepted?
    ensures var t := JudgeRequest(p).target;
      t.Ok() &&
      var port := [(t.port / 256) as byte, (t.port % 256) as byte];
      match t
      case HostTarget(name, _) => 3 <= |name| < 256 && p == [5, 1, 0, 3, |name| as byte] + name + port
      case V4Target(a, _) => p == [5, 1, 0, 1] + a + port
      case V6Target(a, _) => p == [5, 1, 0, 4] + a + port
  {
    var n := |p| - 2;
    PortParts(p[n], p[n + 1]);
    hide PortOf;
    assert p == p[..4] + p[4..n] + p[n..] && p[..4] == [5, 1, 0, p[3]];
    assert p[3] == 3 ==> p[4..n] == [p[4]] + p[5..n];
  }

  lemma VerdictKinds(p: seq<byte>)
    ensures !JudgeGreeting(p).Accepted? && JudgeRequest(p) != Greeted
  {
  }

  // ---- the decoder undoes the encoder ---------------------------------------------------------

  lemma WholeRequest(t: Target)
    requires t.Ok() && Fits(t)
    ensures JudgeRequest(Request(t)) == Accepted(t)
  {
    var p := Request(t);
    PortBack(t.port);
    match t
    case HostTarget(name, port) =>
      assert p[5..5 + |name|] == name;
      assert p[5 + |name|..] == PortBytes(port);
      assert p[5 + |name|] == PortBytes(port)[0] && p[6 + |name|] == PortBytes(port)[1];
    case V4Target(a, port) =>
      assert p[4..8] == a && p[8] == PortBytes(port)[0] && p[9] == PortBytes(port)[1];
    case V6Target(a, port) =>
      assert p[4..20] == a && p[20] == PortBytes(port)[0] && p[21] == PortBytes(port)[1];
  }

  /** The server never decides before the request is whole. */
  lemma PartialRequest(t: Target, n: nat)
    requires t.Ok() && Fits(t) && n < |Request(t)|
    ensures JudgeRequest(Request(t)[..n]) == Wait
  {
    var p := Request(t)[..n];
    if n >= 10 {
      assert p[..5] == Request(t)[..5];
    }
  }

  /** What the server accepts is never longer than its buffer allows, and no name it accepts is too short. */
  lemma AcceptedFits(p: seq<byte>)
    requires |p| <= BUFFER_SIZE && JudgeRequest(p).Accepted?
    ensures Fits(JudgeRequest(p).target)
  {
  }

  /** The server over the pieces of a request; it stops at the first verdict. */
  function Serve(pieces: seq<seq<byte>>): Verdict
  {
    if pieces == [] then Wait
    else
      var v := Serve(pieces[..|pieces| - 1]);
      if v != Wait then v
      else if |Concat(pieces)| > BUFFER_SIZE then Rejected(IllegalRequest)
      else JudgeRequest(Concat(pieces))
  }

  lemma {:induction false} ServeWhole(t: Target, pieces: seq<seq<byte>>)
    requires t.Ok() && Fits(t) && Concat(pieces) <= Request(t)
    ensures Serve(pieces) == if Concat(pieces) == Request(t) then Accepted(t) else Wait
  {
    if pieces == [] {
    } else {
      var front := pieces[..|pieces| - 1];
      assert Concat(pieces) == Concat(front) + pieces[|pieces| - 1];
      ServeWhole(t, front);
      if Concat(pieces) == Request(t) {
        WholeRequest(t);
      } else {
        PartialRequest(t, |Concat(pieces)|);
        assert Concat(pieces) == Request(t)[..|Concat(pieces)|];
      }
    }
  }

  lemma {:induction false} ServeFits(pieces: seq<seq<byte>>)
    requires Serve(pieces).Accepted?
    ensures Fits(Serve(pieces).target)
  {
    if Serve(pieces[..|pieces| - 1]) == Wait {
      AcceptedFits(Concat(pieces));
    } else {
      ServeFits(pieces[..|pieces| - 1]);
    }
  }

  /** However the request is split, the server decodes it to the same target if and only if the target is an
      address or a name of 3 to 121 bytes. */
  lemma RoundTrip(t: Target, pieces: seq<seq<byte>>)
    requires t.Ok() && Concat(pieces) == Request(t)
    ensures Serve(pieces) == Accepted(t) <==> Fits(t)
    ensures Serve(pieces) == Accepted(t) <==> (t.HostTarget? ==> 3 <= |t.name| <= 121)
  {
    if Fits(t) {
      ServeWhole(t, pieces);
    } else if Serve(pieces) == Accepted(t) {
      ServeFits(pieces);
    }
  }

  /** A name of less than three bytes leaves the server waiting. */
  lemma {:induction false} ShortName(pieces: seq<seq<byte>>)
    requires |Concat(pieces)| < 10
    ensures Serve(pieces) == Wait
  {
    if pieces == [] {
    } else {
      ShortName(pieces[..|pieces| - 1]);
    }
  }

  /** The server decides on the first of two pieces, if that is enough for it. */
  lemma FirstDecides(first: seq<byte>, second: seq<byte>)
    requires |first| <= BUFFER_SIZE && JudgeRequest(first) != Wait
    ensures Concat([first, second]) == first + second && Serve([first, second]) == JudgeRequest(first)
  {
    hide JudgeRequest;
    ConcatPush([], first);
    ConcatPush([first], second);
    assert [] + [first] == [first] && [first] + [second] == [first, second];
    assert [first][..0] == [] && [first, second][..1] == [first];
    assert Serve([]) == Wait;
    assert Concat([first]) == [] + first == first;
    assert Serve([first]) == JudgeRequest(first);
  }

  /** The server takes a request for another target than the one sent. */
  ghost predicate Mistakes(t: Target, pieces: seq<seq<byte>>)
    requires t.Ok()
  {
    Concat(pieces) == Request(t) && Serve(pieces).Accepted? && Serve(pieces).target != t
  }

  /** The name does not fit the length byte, and what is left of its length is one the server takes. */
  predicate Mistakable(t: Target)
  {
    t.HostTarget? && |t.name| >= 0x100 && 3 <= |t.name| % 0x100 <= 121
  }

  /** What the server accepts of a request for a name has as many bytes of the name as the length byte says. */
  lemma AcceptedStart(t: Target, p: seq<byte>)
    requires t.Ok() && t.HostTarget? && p <= Request(t) && |p| <= BUFFER_SIZE && JudgeRequest(p).Accepted?
    ensures var k := |t.name| % 0x100;
      && 3 <= k <= 121 && |p| == k + 7
      && JudgeRequest(p).target.HostTarget? && |JudgeRequest(p).target.name| == k
  {
    assert p[..5] == Request(t)[..5];
    assert p[3] == 3 && p[4] as nat == |t.name| % 0x100;
  }

  /** So does what it accepts of a request that arrives in pieces. */
  lemma {:induction false} ServeStart(t: Target, pieces: seq<seq<byte>>)
    requires t.Ok() && t.HostTarget? && Concat(pieces) <= Request(t) && Serve(pieces).Accepted?
    ensures var k := |t.name| % 0x100;
      3 <= k <= 121 && Serve(pieces).target.HostTarget? && |Serve(pieces).target.name| == k
  {
    hide JudgeRequest, Request;
    var front := pieces[..|pieces| - 1];
    assert Concat(pieces) == Concat(front) + pieces[|pieces| - 1];
    if Serve(front) == Wait {
      AcceptedStart(t, Concat(pieces));
    } else {
      ServeStart(t, front);
    }
  }

  /** A mistakable name is taken for its first bytes if the request is split behind the two bytes after them. */
  lemma LongNameMistaken(t: Target)
    requires t.Ok() && Mistakable(t)
    ensures var p, k := Request(t), |t.name| % 0x100;
      var pieces := [p[..k + 7], p[k + 7..]];
      && Mistakes(t, pieces)
      && Serve(pieces) == Accepted(HostTarget(t.name[..k], PortOf(p[k + 5], p[k + 6])))
  {
    var p, k := Request(t), |t.name| % 0x100;
    hide Serve, Concat;
    var first := p[..k + 7];
    assert first[4] as nat == k && first[5..5 + k] == t.name[..k];
    assert JudgeRequest(first) == Accepted(HostTarget(first[5..5 + k], PortOf(first[k + 5], first[k + 6])));
    FirstDecides(first, p[k + 7..]);
    assert first + p[k + 7..] == p;
  }

  /** Some split of the request makes the server take another target exactly if the name is mistakable. */
  lemma MistakenExactly(t: Target)
    requires t.Ok()
    ensures (exists pieces :: Mistakes(t, pieces)) <==> Mistakable(t)
  {
    if Mistakable(t) {
      LongNameMistaken(t);
    }
    forall pieces | Mistakes(t, pieces)
      ensures Mistakable(t)
    {
      if Fits(t) {
        ServeWhole(t, pieces);
      } else {
        ServeStart(t, pieces);
      }
    }
  }

  // ---- the replies ----------------------------------------------------------------------------

  /** The reply to an accepted request (section 6); a name is answered like an address of the fourth version. */
  function ReplyTo(t: Target): seq<byte>
  {
    if t.V6Target? then [5, 0, 0, 4] + Zeros(18) else [5, 0, 0, 1] + Zeros(6)
  }

  /** Builds the reply in a new buffer. The loop stops four bytes early; a new chunk is all zeros, so they are right. */
  method Reply(t: Target) returns (r: seq<byte>)
    ensures r == ReplyTo(t)
    ensures |r| == (if t.V6Target? then 22 else 10) && r[..4] == [5, 0, 0, if t.V6Target? then 4 else 1]
    ensures forall i :: 4 <= i < |r| ==> r[i] == 0
  {
    var len := if t.V6Target? then 22 else 10;
    var type_: byte := if t.V6Target? then 4 else 1;
    r := Zeros(len)[0 := 5][1 := 0][2 := 0][3 := type_];
    var i := 4;
    while i < len - 4
      invariant 4 <= i <= len - 4 && |r| == len && r[..4] == [5, 0, 0, type_]
      invariant r[4..] == Zeros(len - 4)
    {
      r := r[i := 0];
      i := i + 1;
    }
  }

  datatype ClientError = ServerVersionNotSupported | AuthenticationNotSupported | ConnectionFailed | InvalidResponse

  /** What the client makes of the first five bytes of a reply: how many it reads behind them, or an error. */
  datatype Tail = Expects(length: nat) | Refuses(error: ClientError)

  function TailOf(head: seq<byte>): Tail
    requires |head| == 5
  {
    if head[0] != 5 then Refuses(ServerVersionNotSupported)
    else if head[1] != 0 then Refuses(ConnectionFailed)
    else if head[2] != 0 then Refuses(InvalidResponse)
    else if head[3] == 1 then Expects(5)
    else if head[3] == 3 then Expects(head[4] as nat + 2)
    else if head[3] == 4 then Expects(17)
    else Refuses(InvalidResponse)
  }

  /** A whole reply that reports success (section 6). */
  predicate Succeeds(s: seq<byte>)
  {
    |s| >= 5 && s[..3] == [5, 0, 0] &&
    ((s[3] == 1 && |s| == 10) || (s[3] == 3 && |s| == 7 + s[4] as nat) || (s[3] == 4 && |s| == 22))
  }

  /** The client takes the server's reply, all of it and nothing more. */
  lemma ReplyConsumed(r: seq<byte>, t: Target)
    requires r == ReplyTo(t)
    ensures Succeeds(r) && TailOf(r[..5]) == Expects(|r| - 5)
  {
    assert r[..5][..4] == r[..4] && r[..4][..3] == r[..3];
  }

  /** Of a reply of any kind the client reads exactly its length (section 6). */
  lemma AnyReplyConsumed(kind: byte, address: seq<byte>, port: nat)
    requires port < 0x10000
    requires (kind == 1 && |address| == 4) || (kind == 4 && |address| == 16)
      || (kind == 3 && 1 <= |address| <= 0x100 && address[0] as nat == |address| - 1)
    ensures var r := [5, 0, 0, kind] + address + PortBytes(port);
      Succeeds(r) && TailOf(r[..5]) == Expects(|r| - 5)
  {
    var r := [5, 0, 0, kind] + address + PortBytes(port);
    assert r[..3] == [5, 0, 0];
  }

  // ---- the method reply -----------------------------------------------------------------------

  /** The server answers a greeting with the first two bytes of its last read, the second one set to 0. */
  function MethodReply(lastRead: seq<byte>): (r: Option<seq<byte>>)
    ensures r.Some? ==> |r.value| == 2
  {
    if |lastRead| < 3 then None else Some(lastRead[..2][1 := 0])
  }

  /** It is right exactly if the last read has at least three bytes, as cutting it to two demands, and starts with a
      5. */
  lemma MethodReplyRight(lastRead: seq<byte>)
    ensures MethodReply(lastRead) == Some([5, 0]) <==> |lastRead| >= 3 && lastRead[0] == 5
    ensures MethodReply(lastRead) == if |lastRead| < 3 then None else Some([lastRead[0], 0])
  {
    if |lastRead| >= 3 {
      assert lastRead[..2][1 := 0] == [lastRead[0], 0];
    }
  }

  /** A greeting that arrives in one read is answered rightly. */
  lemma WholeGreeting(greeting: seq<byte>)
    requires JudgeGreeting(greeting) == Greeted
    ensures MethodReply(greeting) == Some([5, 0])
  {
    MethodReplyRight(greeting);
  }

  /** What the client sends first. */
  function Greeting(): seq<byte>
  {
    [5, 1, 0]
  }

  /** The client's own greeting is accepted, and only when it is whole. */
  lemma ClientGreeting(n: nat)
    requires n <= 3
    ensures JudgeGreeting(Greeting()[..n]) == if n == 3 then Greeted else Wait
  {
    if n == 3 {
      var p := Greeting();
      assert p[..3] == p && p[2..] == [0];
    }
  }

  /** So the client's greeting, of which the last read brings all but the first `n` bytes, is accepted with that read
      and not before, and is answered rightly if and only if it arrives in one read. */
  lemma ClientGreetingAnswered(n: nat)
    requires n < 3
    ensures JudgeGreeting(Greeting()[..n]) == Wait && JudgeGreeting(Greeting()[..n] + Greeting()[n..]) == Greeted
    ensures MethodReply(Greeting()[n..]) == Some([5, 0]) <==> n == 0
  {
    ClientGreeting(n);
    ClientGreeting(3);
    assert Greeting()[..n] + Greeting()[n..] == Greeting() == Greeting()[..3];
    MethodReplyRight(Greeting()[n..]);
  }

  // ---- the server -----------------------------------------------------------------------------

  datatype NegotiateState = ReadingVersion | ReadingRequest

  class Socks5Server {
    var pendingAuth: array?<byte>
    var pendingLength: nat
    var state: NegotiateState
    /** Where the session goes once the request has been accepted. */
    var target: Option<Target>

    ghost predicate Valid()
      reads this
    {
      if pendingAuth == null then pendingLength == 0
      else pendingAuth.Length == BUFFER_SIZE && pendingLength <= BUFFER_SIZE
    }

    /** The bytes collected so far. */
    ghost function Pending(): seq<byte>
      requires Valid()
      reads this, pendingAuth
    {
      if pendingAuth == null then [] else pendingAuth[..pendingLength]
    }

    constructor ()
      ensures Valid() && Pending() == [] && state == ReadingVersion && target == None && pendingAuth == null
    {
      pendingAuth, pendingLength, state, target := null, 0, ReadingVersion, None;
    }

    method EnsurePendingAuthBuffer()
      requires Valid()
      modifies this`pendingAuth
      ensures Valid() && pendingAuth != null && Pending() == old(Pending())
      ensures pendingAuth == old(pendingAuth) || fresh(pendingAuth)
    {
      if pendingAuth == null {
        pendingAuth := new byte[BUFFER_SIZE](_ => 0);
      }
    }

    method CopyChunk(chunk: seq<byte>)
      requires Valid() && pendingAuth != null && pendingLength + |chunk| <= BUFFER_SIZE
      modifies this`pendingLength, pendingAuth
      ensures Valid() && Pending() == old(Pending()) + chunk
    {
      var from := pendingLength;
      forall i | 0 <= i < |chunk| {
        pendingAuth[from + i] := chunk[i];
      }
      pendingLength := from + |chunk|;
    }

    /** Copies the chunks of a read behind what is pending. */
    method AppendToAuthBuffer(buffer: Buffer)
      requires Valid() && buffer.Valid() && pendingAuth != null && pendingLength + buffer.size <= BUFFER_SIZE
      modifies this`pendingLength, pendingAuth
      ensures Valid() && Pending() == old(Pending()) + buffer.Contents()
    {
      hide Chain, Proper, Nodes, Text;
      var chunks := buffer.WalkInternalChunk(0, _ => true);
      ghost var was, text := Pending(), buffer.Contents();
      assert text[0..] == text && Concat(chunks) == text;
      var i := 0;
      assert chunks[..0] == [] && was + [] == was;
      while i < |chunks|
        invariant i <= |chunks| && Valid() && pendingLength == |was| + |Concat(chunks[..i])|
        invariant Pending() == was + Concat(chunks[..i])
      {
        ConcatNext(chunks, i);
        Assoc(was, Concat(chunks[..i]), chunks[i]);
        CopyChunk(chunks[i]);
        i := i + 1;
      }
      assert chunks[..i] == chunks;
    }

    method ReadGreeting() returns (v: Verdict)
      requires Valid() && pendingAuth != null
      ensures v == JudgeGreeting(Pending())
    {
      if pendingLength < 3 {
        return Wait;
      }
      if pendingAuth[0] != 5 {
        return Rejected(UnsupportedVersion);
      }
      var len := pendingAuth[1] as nat;
      if pendingLength < len + 2 {
        return Wait;
      }
      if pendingLength > len + 2 {
        return Rejected(IllegalRequest);
      }
      var noauthPresent := false;
      var i := 0;
      while i < len && !noauthPresent
        invariant i <= len && (noauthPresent <==> 0 in pendingAuth[2..2 + i])
      {
        noauthPresent := pendingAuth[i + 2] == 0;
        i := i + 1;
        assert pendingAuth[2..2 + i] == pendingAuth[2..2 + (i - 1)] + [pendingAuth[2 + (i - 1)]];
      }
      assert pendingAuth[2..2 + i] <= Pending()[2..];
      assert !noauthPresent ==> pendingAuth[2..2 + i] == Pending()[2..];
      v := if noauthPresent then Greeted else Rejected(UnsupportedAuthenticationMethod);
    }

    /** The verdict on a greeting; one that is accepted is answered, by the bytes of the last read. */
    method TakeGreeting(buffer: Buffer) returns (v: Verdict, reply: Option<seq<byte>>)
      requires Valid() && pendingAuth != null && buffer.Valid()
      modifies this`pendingLength, this`state
      ensures Valid() && v == JudgeGreeting(old(Pending()))
        && reply == if v == Greeted then MethodReply(buffer.Contents()) else None
      ensures Pending() == if v == Greeted then [] else old(Pending())
      ensures state == if v == Greeted then ReadingRequest else old(state)
    {
      hide Chain, Proper, Nodes, Text, JudgeGreeting, MethodReply;
      reply := None;
      v := ReadGreeting();
      if v == Greeted {
        var last := TextOf(buffer);
        reply := MethodReply(last);
        pendingLength := 0;
        state := ReadingRequest;
      }
    }

    method ReadHost() returns (v: Verdict)
      requires Valid() && pendingAuth != null && pendingLength >= 10
      ensures v == JudgeHost(Pending())
    {
      var offset := 4;
      var len := pendingAuth[offset] as nat;
      if pendingLength < offset + 1 + len + 2 {
        return Wait;
      }
      if pendingLength > offset + 1 + len + 2 {
        return Rejected(IllegalRequest);
      }
      offset := offset + 1;
      var host := pendingAuth[offset..offset + len];
      offset := offset + len;
      v := Accepted(HostTarget(host, PortOf(pendingAuth[offset], pendingAuth[offset + 1])));
      assert Pending()[5..5 + len] == host;
    }

    method ReadRequest() returns (v: Verdict)
      requires Valid() && pendingAuth != null
      ensures v == JudgeRequest(Pending())
      ensures var p := Pending();
        if |p| < 10 then v == Wait
        else if p[0] != 5 then v == Rejected(UnsupportedVersion)
        else if p[1] != 1 then v == Rejected(UnsupportedCommand)
        else if p[2] != 0 || p[3] !in {1, 3, 4} then v == Rejected(IllegalRequest)
        else
          var n := if p[3] == 1 then 10 else if p[3] == 3 then 7 + p[4] as nat else 22;
          if |p| < n then v == Wait
          else if |p| > n then v == Rejected(IllegalRequest)
          else v.Accepted? && v.target.port == 256 * p[n - 2] as nat + p[n - 1] as nat
    {
      if pendingLength < 10 {
        return Wait;
      }
      if pendingAuth[0] != 5 {
        return Rejected(UnsupportedVersion);
      }
      if pendingAuth[1] != 1 {
        return Rejected(UnsupportedCommand);
      }
      if pendingAuth[2] != 0 {
        return Rejected(IllegalRequest);
      }
      var offset := 4;
      if pendingAuth[3] == 1 {
        if pendingLength != 10 {
          return Rejected(IllegalRequest);
        }
        var address := pendingAuth[offset..offset + 4];
        offset := offset + 4;
        v := Accepted(V4Target(address, PortOf(pendingAuth[offset], pendingAuth[offset + 1])));
        assert Pending()[4..8] == address;
      } else if pendingAuth[3] == 3 {
        v := ReadHost();
      } else if pendingAuth[3] == 4 {
        if pendingLength < 22 {
          return Wait;
        }
        if pendingLength > 22 {
          return Rejected(IllegalRequest);
        }
        var address := pendingAuth[offset..offset + 16];
        offset := offset + 16;
        v := Accepted(V6Target(address, PortOf(pendingAuth[offset], pendingAuth[offset + 1])));
        assert Pending()[4..20] == address;
      } else {
        v := Rejected(IllegalRequest);
      }
    }

    /** A read has completed. The verdict is that on all bytes collected; a greeting that is accepted is answered. */
    method OnRead(buffer: Buffer) returns (v: Verdict, reply: Option<seq<byte>>)
      requires Valid() && buffer.Valid()
      modifies this, pendingAuth
      ensures Valid() && (pendingAuth == old(pendingAuth) || fresh(pendingAuth))
      ensures var p := old(Pending()) + buffer.Contents();
        && v == (if |p| > 128 then Rejected(IllegalRequest)
                 else if old(state) == ReadingVersion then JudgeGreeting(p) else JudgeRequest(p))
        && (v == Wait ==> Pending() == p)
      ensures state == if v == Greeted then ReadingRequest else old(state)
      ensures v == Greeted ==> Pending() == [] && reply == MethodReply(buffer.Contents())
      ensures target == if v.Accepted? then Some(v.target) else old(target)
    {
      VerdictKinds(Pending() + buffer.Contents());
      hide Chain, Proper, Nodes, Text, JudgeGreeting, JudgeRequest, MethodReply;
      reply := None;
      EnsurePendingAuthBuffer();
      if pendingLength + buffer.size > BUFFER_SIZE {
        return Rejected(IllegalRequest), None;
      }
      AppendToAuthBuffer(buffer);
      match state {
        case ReadingVersion =>
          v, reply := TakeGreeting(buffer);
        case ReadingRequest =>
          v := ReadRequest();
          if v.Accepted? {
            target := Some(v.target);
          }
      }
    }
  }

  lemma {:induction false} VerdictStays(pieces: seq<seq<byte>>, i: nat)
    requires i <= |pieces| && (Serve(pieces[..i]) != Wait || i == |pieces|)
    ensures Serve(pieces) == Serve(pieces[..i])
    decreases |pieces|
  {
    if i == |pieces| {
      assert pieces[..i] == pieces;
    } else {
      var front := pieces[..|pieces| - 1];
      assert front[..i] == pieces[..i];
      VerdictStays(front, i);
    }
  }

  /** A server that has answered a greeting, fed a request in any pieces: it accepts the target sent if and only if
      that fits. */
  method ServeRequest(server: Socks5Server, t: Target, pieces: seq<seq<byte>>) returns (v: Verdict)
    requires server.Valid() && server.state == ReadingRequest && server.Pending() == []
    requires t.Ok() && Concat(pieces) == Request(t)
    modifies server, server.pendingAuth
    ensures v == Serve(pieces) && (v == Accepted(t) <==> (t.HostTarget? ==> 3 <= |t.name| <= 121))
    ensures v == Accepted(t) ==> server.target == Some(t)
  {
    hide JudgeRequest, Fits, Request;
    v := Wait;
    var i := 0;
    assert pieces[..0] == [];
    while i < |pieces| && v == Wait
      invariant i <= |pieces| && server.Valid() && server.state == ReadingRequest
      invariant server.pendingAuth == old(server.pendingAuth) || fresh(server.pendingAuth)
      invariant v == Serve(pieces[..i]) && (v == Wait ==> server.Pending() == Concat(pieces[..i]))
      invariant v.Accepted? ==> server.target == Some(v.target)
    {
      var buffer := BufferOf(pieces[i]);
      ConcatNext(pieces, i);
      assert pieces[..i + 1][..i] == pieces[..i];
      var reply;
      v, reply := server.OnRead(buffer);
      i := i + 1;
    }
    VerdictStays(pieces, i);
    RoundTrip(t, pieces);
  }

  // ---- the client -----------------------------------------------------------------------------

  lemma AddressBuilt(b: seq<byte>, kind: byte, address: seq<byte>, port: nat)
    requires port < 0x10000 && |b| == 4 + |address| + 2 && b[0] == 5 && b[1] == 1
    ensures Overwrite(Overwrite(b[3 := kind], 4, address)[2 := 0], 4 + |address|, PortBytes(port))
      == [5, 1, 0, kind] + address + PortBytes(port)
  {
    var c := Overwrite(b[3 := kind], 4, address)[2 := 0];
    assert c[..4] == [5, 1, 0, kind] && c[4..4 + |address|] == address;
    assert c[..4 + |address|] == [5, 1, 0, kind] + address;
  }

  lemma HostBuilt(b: seq<byte>, name: seq<byte>, port: nat)
    requires port < 0x10000 && |b| == 5 + |name| + 2 && b[0] == 5 && b[1] == 1
    ensures var l := (|name| % 0x100) as byte;
      Overwrite(Overwrite(b[3 := 3][4 := l], 5, name)[2 := 0], 5 + |name|, PortBytes(port))
        == [5, 1, 0, 3, l] + name + PortBytes(port)
  {
    var l := (|name| % 0x100) as byte;
    var c := Overwrite(b[3 := 3][4 := l], 5, name)[2 := 0];
    assert c[..5] == [5, 1, 0, 3, l] && c[5..5 + |name|] == name;
    assert c[..5 + |name|] == [5, 1, 0, 3, l] + name;
  }

  /** The request, field by field. */
  lemma RequestBytes(t: Target)
    requires t.Ok()
    ensures var q := Request(t);
      && |q| >= 6 && q[..3] == [5, 1, 0]
      && q[|q| - 2] as nat * 256 + q[|q| - 1] as nat == t.port
      && match t
         case HostTarget(name, _) =>
           |q| == |name| + 7 && q[3] == 3 && q[4] as nat == |name| % 256 && q[5..|q| - 2] == name
         case V4Target(a, _) => |q| == 10 && q[3] == 1 && q[4..|q| - 2] == a
         case V6Target(a, _) => |q| == 22 && q[3] == 4 && q[4..|q| - 2] == a
  {
    var q := Request(t);
    assert q[|q| - 2..] == PortBytes(t.port);
    assert q[|q| - 2] == PortBytes(t.port)[0] && q[|q| - 1] == PortBytes(t.port)[1];
  }

  datatype Result = Built(request: seq<byte>) | Failed(error: ClientError)

  /** Grows the two bytes of the method reply into the request; the bytes put in behind them can be anything. */
  method BuildRequest(head: seq<byte>, t: Target, grown: seq<byte>) returns (r: Result)
    requires |head| == 2 && t.Ok()
    requires |grown| ==
      match t
      case HostTarget(name, _) => 1 + 1 + 1 + |name| + 2
      case V4Target(_, _) => 1 + 1 + 4 + 2
      case V6Target(_, _) => 1 + 1 + 16 + 2
    ensures r == if head[0] != 5 then Failed(ServerVersionNotSupported)
      else if head[1] != 0 then Failed(AuthenticationNotSupported) else Built(Request(t))
    ensures r.Built? ==>
      var q := r.request;
      && |q| == |grown| + 2 && q[..3] == [5, 1, 0]
      && q[|q| - 2] as nat * 256 + q[|q| - 1] as nat == t.port
      && match t
         case HostTarget(name, _) => q[3] == 3 && q[4] as nat == |name| % 256 && q[5..|q| - 2] == name
         case V4Target(a, _) => q[3] == 1 && q[4..|q| - 2] == a
         case V6Target(a, _) => q[3] == 4 && q[4..|q| - 2] == a
  {
    RequestBytes(t);
    if head[0] != 5 {
      return Failed(ServerVersionNotSupported);
    }
    if head[1] != 0 {
      return Failed(AuthenticationNotSupported);
    }
    var buffer := head[1 := 1] + grown;
    var portOffset := 4;
    match t {
      case HostTarget(name, port) =>
        HostBuilt(buffer, name, port);
        buffer := buffer[3 := 3][4 := (|name| % 0x100) as byte];
        buffer := Overwrite(buffer, 5, name);
        portOffset := portOffset + 1 + |name|;
      case V4Target(address, port) =>
        AddressBuilt(buffer, 1, address, port);
        buffer := Overwrite(buffer[3 := 1], 4, address);
        portOffset := portOffset + 4;
      case V6Target(address, port) =>
        AddressBuilt(buffer, 4, address, port);
        buffer := Overwrite(buffer[3 := 4], 4, address);
        portOffset := portOffset + 16;
    }
    buffer := buffer[2 := 0];
    buffer := Overwrite(buffer, portOffset, PortBytes(t.port));
    r := Built(buffer);
  }

  /** How the client's reading of a reply ends; `Unfinished` when the flow has given too little. */
  datatype Ending = Connected | Unfinished | Refused(error: ClientError)

  /** Asks for a length of what the reader holds. */
  method BeginLength(reader: StreamReader, n: nat) returns (text: Option<seq<byte>>)
    requires reader.Valid() && n > 0
    modifies reader, reader.buffer, reader.buffer.Repr
    ensures reader.Valid() && fresh(reader.buffer.Repr - old(reader.buffer.Repr))
    ensures reader.lengthToRead == n && reader.received == old(reader.received)
    ensures text.Some? ==> |text.value| == n && reader.handedOut == old(reader.handedOut) + text.value
    ensures text.None? ==> reader.handedOut == old(reader.handedOut) && reader.buffer.size < n
  {
    hide Chain, Proper, Nodes, Text;
    var b := reader.ReadToLength(n);
    text := None;
    if b != null {
      var t := TextOf(b);
      text := Some(t);
    }
  }

  /** One more chunk for a request that needs it. */
  method ExtendLength(reader: StreamReader, n: nat, chunk: seq<byte>) returns (text: Option<seq<byte>>)
    requires reader.Valid() && reader.lengthToRead == n > 0
    modifies reader, reader.buffer, reader.buffer.Repr
    ensures reader.Valid() && fresh(reader.buffer.Repr - old(reader.buffer.Repr))
    ensures reader.lengthToRead == n && reader.received == old(reader.received) + chunk
    ensures text.Some? ==> |text.value| == n && reader.handedOut == old(reader.handedOut) + text.value
    ensures text.None? ==> reader.handedOut == old(reader.handedOut) && reader.buffer.size < n
  {
    hide Chain, Proper, Nodes, Text;
    var data := BufferOf(chunk);
    var b := reader.OnLengthData(data);
    text := None;
    if b != null {
      var t := TextOf(b);
      text := Some(t);
    }
  }

  /** Reads up to a length from the chunks behind the first `i`, and no chunk more than it takes. */
  method ReadLength(reader: StreamReader, n: nat, chunks: seq<seq<byte>>, i: nat)
    returns (text: Option<seq<byte>>, next: nat)
    requires reader.Valid() && n > 0 && i <= |chunks| && reader.received == Concat(chunks[..i])
    modifies reader, reader.buffer, reader.buffer.Repr
    ensures reader.Valid() && fresh(reader.buffer.Repr - old(reader.buffer.Repr))
    ensures i <= next <= |chunks| && reader.received == Concat(chunks[..next])
    ensures text.Some? ==> |text.value| == n && reader.handedOut == old(reader.handedOut) + text.value
    ensures text.None? ==> next == |chunks| && |reader.received| < |old(reader.handedOut)| + n
    ensures text.None? ==> reader.handedOut == old(reader.handedOut)
    ensures next == i || |Concat(chunks[..next - 1])| < |old(reader.handedOut)| + n
  {
    hide Chain, Proper, Nodes, Text, Concat;
    next := i;
    text := BeginLength(reader, n);
    while text.None? && next < |chunks|
      invariant i <= next <= |chunks| && reader.Valid() && reader.lengthToRead == n
      invariant fresh(reader.buffer.Repr - old(reader.buffer.Repr)) && reader.received == Concat(chunks[..next])
      invariant text.None? ==> reader.handedOut == old(reader.handedOut) && reader.buffer.size < n
      invariant text.Some? ==> |text.value| == n && reader.handedOut == old(reader.handedOut) + text.value
      invariant next == i || |Concat(chunks[..next - 1])| < |old(reader.handedOut)| + n
    {
      ConcatNext(chunks, next);
      text := ExtendLength(reader, n, chunks[next]);
      next := next + 1;
    }
  }

  /** What has been handed out begins the stream. */
  lemma HandedFirst(reader: StreamReader, chunks: seq<seq<byte>>, next: nat)
    requires reader.Valid() && next <= |chunks| && reader.received == Concat(chunks[..next])
    ensures reader.handedOut <= Concat(chunks) && |reader.received| <= |Concat(chunks)|
    ensures next == |chunks| ==> reader.received == Concat(chunks)
    ensures |reader.received| == |reader.handedOut| + reader.buffer.size
  {
    ConcatFrom(chunks, next);
    if next == |chunks| {
      assert chunks[..next] == chunks;
    }
  }

  lemma NoChunks(chunks: seq<seq<byte>>)
    ensures Concat(chunks[..0]) == []
  {
  }

  lemma ConcatWithin(chunks: seq<seq<byte>>, j: nat, k: nat)
    requires j <= k <= |chunks|
    ensures Concat(chunks[..j]) <= Concat(chunks[..k])
  {
    ConcatFrom(chunks[..k], j);
    assert chunks[..k][..j] == chunks[..j];
  }

  /** Some chunk ends at `n` exactly if the first one that reaches that far does. */
  lemma Completed(chunks: seq<seq<byte>>, next: nat, n: nat)
    requires next <= |chunks| && n <= |Concat(chunks[..next])|
    requires forall j :: 0 <= j < next ==> |Concat(chunks[..j])| < n
    ensures (exists i :: 0 <= i <= |chunks| && |Concat(chunks[..i])| == n) <==> |Concat(chunks[..next])| == n
    ensures |Concat(chunks)| == n ==> |Concat(chunks[..next])| == n
  {
    ConcatFrom(chunks, next);
    forall i | next <= i <= |chunks|
      ensures |Concat(chunks[..next])| <= |Concat(chunks[..i])|
    {
      ConcatWithin(chunks, next, i);
    }
  }

  /** The second reading starts behind the chunk that completed the first one, if it needs more. */
  lemma EarlyEnough(chunks: seq<seq<byte>>, i: nat, next: nat, m: nat, n: nat)
    requires i <= next <= |chunks| && m <= n
    requires i == 0 || |Concat(chunks[..i - 1])| < m
    requires next == i || |Concat(chunks[..next - 1])| < n
    ensures forall j :: 0 <= j < next ==> |Concat(chunks[..j])| < n
  {
    forall j | 0 <= j < next
      ensures |Concat(chunks[..j])| < n
    {
      ConcatWithin(chunks, j, next - 1);
    }
  }

  /** Reads the server's reply from a flow that gives it in any chunks: a complete reply is taken whole, with
      nothing left over. What follows it is seen if and only if it comes in the chunk that completes it. */
  method ReadReply(chunks: seq<seq<byte>>) returns (e: Ending)
    ensures Succeeds(Concat(chunks)) ==> e == Connected
    ensures var s := Concat(chunks);
      if |s| < 5 then e == Unfinished
      else if s[0] != 5 then e == Refused(ServerVersionNotSupported)
      else if s[1] != 0 then e == Refused(ConnectionFailed)
      else if s[2] != 0 || s[3] !in {1, 3, 4} then e == Refused(InvalidResponse)
      else
        var n := if s[3] == 1 then 10 else if s[3] == 3 then 7 + s[4] as nat else 22;
        if |s| < n then e == Unfinished
        else if exists i :: 0 <= i <= |chunks| && |Concat(chunks[..i])| == n then e == Connected
        else e == Refused(InvalidResponse)
  {
    hide Chain, Proper, Nodes, Text, Concat;
    var reader := new StreamReader();
    NoChunks(chunks);
    var head, i := ReadLength(reader, 5, chunks, 0);
    HandedFirst(reader, chunks, i);
    ghost var s := Concat(chunks);
    if head.None? {
      return Unfinished;
    }
    assert s[..5] == head.value;
    var tail := TailOf(head.value);
    if tail.Refuses? {
      return Refused(tail.error);
    }
    var rest, next := ReadLength(reader, tail.length, chunks, i);
    HandedFirst(reader, chunks, next);
    ghost var n := 5 + tail.length;
    EarlyEnough(chunks, i, next, 5, n);
    if rest.None? {
      return Unfinished;
    }
    var remain := reader.ConsumeRemainData();
    Completed(chunks, next, n);
    e := if remain.size > 0 then Refused(InvalidResponse) else Connected;
  }
}
