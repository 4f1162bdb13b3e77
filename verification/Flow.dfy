/** The half-closable flow: its guards and transitions, and what every legal sequence of calls keeps. */
module Flows {
  datatype FlowState = Init | Closed | Establishing | Established | Closing
  datatype FlowType = LocalFlow | RemoteFlow

  /** The value of a state machine. */
  datatype Flow = Flow(
    kind: FlowType, state: FlowState, reading: bool, writing: bool,
    readClosed: bool, writeClosing: bool, writeClosed: bool)
  {
    predicate Readable() {
      !reading &&
      ((kind == LocalFlow && state == Establishing) || state == Established || (state == Closing && !readClosed))
    }

    predicate Writable() {
      !writing &&
      ((kind == LocalFlow && state == Establishing) || state == Established
       || (state == Closing && !writeClosed && !writeClosing))
    }
  }

  datatype Call =
    | ConnectBegin | Connected | ReadBegin | ReadEnd | ReadClosed
    | WriteBegin | WriteEnd | WriteCloseBegin | WriteCloseEnd | AllClosed | Errored

  function NewFlow(kind: FlowType): Flow
  {
    Flow(kind, Init, false, false, false, false, false)
  }

  /** What the code asserts before a call. */
  predicate Legal(f: Flow, c: Call)
  {
    match c
    case ConnectBegin => f.state == Init
    case Connected => f.state == Establishing || f.state == Init
    case ReadBegin => f.Readable()
    case ReadEnd => f.reading
    case ReadClosed => (f.state == Established || f.state == Closing) && !f.readClosed
    case WriteBegin => f.Writable()
    case WriteEnd => f.writing
    case WriteCloseBegin => (f.state == Established || f.state == Closing) && !f.writeClosed && !f.writeClosing
    case WriteCloseEnd => f.writeClosing
    case AllClosed => true
    case Errored => true
  }

  function After(f: Flow, c: Call): Flow
  {
    match c
    case ConnectBegin => f.(state := Establishing)
    case Connected => f.(state := Established)
    case ReadBegin => f.(reading := true)
    case ReadEnd => f.(reading := false)
    case ReadClosed =>
      f.(readClosed := true, reading := false,
         state := if f.state == Established then Closing else if f.writeClosed then Closed else f.state)
    case WriteBegin => f.(writing := true)
    case WriteEnd => f.(writing := false)
    case WriteCloseBegin => f.(state := Closing, writing := false, writeClosing := true)
    case WriteCloseEnd =>
      f.(writeClosing := false, writeClosed := true, state := if f.readClosed then Closed else f.state)
    case AllClosed => Flow(f.kind, Closed, false, false, true, false, true)
    case Errored => Flow(f.kind, Closed, false, false, true, false, true)
  }

  /** What every reachable flow satisfies. */
  predicate Consistent(f: Flow)
  {
    && (f.state == Closed <==> f.readClosed && f.writeClosed)
    && (f.state == Closing <==> (f.readClosed || f.writeClosing || f.writeClosed) && !(f.readClosed && f.writeClosed))
    && (f.readClosed ==> !f.reading)
    && (f.writeClosed || f.writeClosing ==> !f.writing)
    && !(f.writeClosed && f.writeClosing)
    && (f.state == Init ==> !f.reading && !f.writing)
    && (f.state == Establishing && f.kind == RemoteFlow ==> !f.reading && !f.writing)
  }

  /** How far a flow has come. */
  function Rank(s: FlowState): nat
  {
    match s
    case Init => 0
    case Establishing => 1
    case Established => 2
    case Closing => 3
    case Closed => 4
  }

  /** Every call is legal when it is made. */
  predicate LegalRun(f: Flow, calls: seq<Call>)
    decreases |calls|
  {
    calls != [] ==> Legal(f, calls[0]) && LegalRun(After(f, calls[0]), calls[1..])
  }

  function AfterRun(f: Flow, calls: seq<Call>): Flow
    decreases |calls|
  {
    if calls == [] then f else AfterRun(After(f, calls[0]), calls[1..])
  }

  /** One legal call keeps a flow consistent, never moves its state back, and never makes a closed side active. */
  lemma CallFacts(f: Flow, c: Call)
    requires Consistent(f) && Legal(f, c)
    ensures var g := After(f, c);
      && Consistent(g) && g.kind == f.kind && Rank(f.state) <= Rank(g.state)
      && (f.readClosed ==> g.readClosed) && (f.writeClosed ==> g.writeClosed)
      && (f.writeClosing ==> g.writeClosing || g.writeClosed)
  {
  }

  /** The state moves only forward, and closed sides stay closed and idle, over every legal run. */
  lemma {:induction false} RunFacts(f: Flow, calls: seq<Call>)
    requires Consistent(f) && LegalRun(f, calls)
    ensures var g := AfterRun(f, calls);
      && Consistent(g) && Rank(f.state) <= Rank(g.state)
      && (f.readClosed ==> g.readClosed && !g.reading)
      && (f.writeClosed ==> g.writeClosed && !g.writing)
    decreases |calls|
  {
    if calls == [] {
    } else {
      CallFacts(f, calls[0]);
      RunFacts(After(f, calls[0]), calls[1..]);
    }
  }

  /** What holds of a flow after any legal calls: Closed means both sides, Closing means one side and not both. */
  lemma ReachableFacts(kind: FlowType, calls: seq<Call>)
    requires LegalRun(NewFlow(kind), calls)
    ensures var g := AfterRun(NewFlow(kind), calls);
      && (g.state == Closed <==> g.readClosed && g.writeClosed)
      && (g.state == Closing <==>
          (g.readClosed || g.writeClosing || g.writeClosed) && !(g.readClosed && g.writeClosed))
      && (g.readClosed ==> !g.reading) && (g.writeClosed ==> !g.writing)
  {
    RunFacts(NewFlow(kind), calls);
  }

  lemma {:induction false} AfterLast(f: Flow, calls: seq<Call>, c: Call)
    requires LegalRun(f, calls + [c])
    ensures LegalRun(f, calls) && Legal(AfterRun(f, calls), c)
    ensures AfterRun(f, calls + [c]) == After(AfterRun(f, calls), c)
    decreases |calls|
  {
    if calls == [] {
    } else {
      assert (calls + [c])[1..] == calls[1..] + [c];
      AfterLast(After(f, calls[0]), calls[1..], c);
    }
  }

  /** Some `begin` has had none of the `ends` behind it. */
  predicate Outstanding(calls: seq<Call>, begin: Call, ends: set<Call>)
    decreases |calls|
  {
    calls != [] &&
    var c := calls[|calls| - 1];
    c == begin || (c !in ends && Outstanding(calls[..|calls| - 1], begin, ends))
  }

  lemma OutstandingMore(front: seq<Call>, c: Call, begin: Call, ends: set<Call>)
    ensures Outstanding(front + [c], begin, ends) <==> c == begin || (c !in ends && Outstanding(front, begin, ends))
  {
    assert (front + [c])[..|front|] == front;
  }

  /** A flow is reading or writing exactly while a call that begins it has not been answered. */
  lemma {:induction false} RunActivity(kind: FlowType, calls: seq<Call>)
    requires LegalRun(NewFlow(kind), calls)
    ensures var g := AfterRun(NewFlow(kind), calls);
      && (g.reading <==> Outstanding(calls, ReadBegin, {ReadEnd, Call.ReadClosed, Call.AllClosed, Call.Errored}))
      && (g.writing <==> Outstanding(calls, WriteBegin, {WriteEnd, WriteCloseBegin, Call.AllClosed, Call.Errored}))
    decreases |calls|
  {
    if calls == [] {
    } else {
      var front, c := calls[..|calls| - 1], calls[|calls| - 1];
      assert calls == front + [c];
      AfterLast(NewFlow(kind), front, c);
      RunActivity(kind, front);
      OutstandingMore(front, c, ReadBegin, {ReadEnd, Call.ReadClosed, Call.AllClosed, Call.Errored});
      OutstandingMore(front, c, WriteBegin, {WriteEnd, WriteCloseBegin, Call.AllClosed, Call.Errored});
      hide Outstanding, AfterRun, LegalRun, Legal;
    }
  }

  /** Which sides are closed, and with them the state, is decided by which calls have been made. */
  predicate Told(g: Flow, calls: seq<Call>)
  {
    && (g.readClosed <==> Call.ReadClosed in calls || Call.AllClosed in calls || Call.Errored in calls)
    && (g.writeClosed <==> Call.WriteCloseEnd in calls || Call.AllClosed in calls || Call.Errored in calls)
    && (g.writeClosing <==> Call.WriteCloseBegin in calls && !g.writeClosed)
    && g.state ==
       (if g.readClosed && g.writeClosed then Closed
        else if g.readClosed || Call.WriteCloseBegin in calls then Closing
        else if Call.Connected in calls then Established
        else if Call.ConnectBegin in calls then Establishing else Init)
  }

  lemma MadeMore(front: seq<Call>, c: Call, x: Call)
    ensures x in front + [c] <==> x in front || x == c
  {
  }

  lemma ToldMore(g: Flow, front: seq<Call>, c: Call)
    requires Consistent(g) && Legal(g, c) && Told(g, front)
    ensures Told(After(g, c), front + [c])
  {
    MadeMore(front, c, Call.ReadClosed);
    MadeMore(front, c, Call.AllClosed);
    MadeMore(front, c, Call.Errored);
    MadeMore(front, c, Call.WriteCloseEnd);
    MadeMore(front, c, Call.WriteCloseBegin);
    MadeMore(front, c, Call.Connected);
    MadeMore(front, c, Call.ConnectBegin);
  }

  lemma {:induction false} RunTold(kind: FlowType, calls: seq<Call>)
    requires LegalRun(NewFlow(kind), calls)
    ensures Told(AfterRun(NewFlow(kind), calls), calls)
    decreases |calls|
  {
    if calls == [] {
    } else {
      var front, c := calls[..|calls| - 1], calls[|calls| - 1];
      assert calls == front + [c];
      AfterLast(NewFlow(kind), front, c);
      RunFacts(NewFlow(kind), front);
      RunTold(kind, front);
      hide Told, After;
      ToldMore(AfterRun(NewFlow(kind), front), front, c);
    }
  }

  /** What the fields of a flow mean after any legal calls: which calls have been made, and which are outstanding. */
  lemma RunHistory(kind: FlowType, calls: seq<Call>)
    requires LegalRun(NewFlow(kind), calls)
    ensures var g := AfterRun(NewFlow(kind), calls);
      && (g.readClosed <==> Call.ReadClosed in calls || Call.AllClosed in calls || Call.Errored in calls)
      && (g.writeClosed <==> Call.WriteCloseEnd in calls || Call.AllClosed in calls || Call.Errored in calls)
      && (g.writeClosing <==> Call.WriteCloseBegin in calls && !g.writeClosed)
      && (g.reading <==> Outstanding(calls, ReadBegin, {ReadEnd, Call.ReadClosed, Call.AllClosed, Call.Errored}))
      && (g.writing <==> Outstanding(calls, WriteBegin, {WriteEnd, WriteCloseBegin, Call.AllClosed, Call.Errored}))
      && g.state ==
         (if g.readClosed && g.writeClosed then Closed
          else if g.readClosed || Call.WriteCloseBegin in calls then Closing
          else if Call.Connected in calls then Established
          else if Call.ConnectBegin in calls then Establishing else Init)
  {
    hide AfterRun, LegalRun, Outstanding, After, Legal;
    RunTold(kind, calls);
    RunActivity(kind, calls);
  }

  /** A closed flow is dead: no call but another close is legal, and that changes nothing. */
  lemma ClosedIsFinal(f: Flow, c: Call)
    requires Consistent(f) && f.state == Closed
    ensures Legal(f, c) <==> c == AllClosed || c == Errored
    ensures Legal(f, c) ==> After(f, c) == f
  {
  }

  /** Once established, the guards say exactly that the side is open and has nothing outstanding; before, only a local
      flow that is being established may be active. */
  lemma GuardFacts(f: Flow)
    requires Consistent(f)
    ensures f.state == Established || f.state == Closing || f.state == Closed ==>
      && (f.Readable() <==> !f.reading && !f.readClosed)
      && (f.Writable() <==> !f.writing && !f.writeClosing && !f.writeClosed)
      && (f.Writable() ==> Legal(f, WriteCloseBegin))
    ensures f.state == Establishing ==>
      && (f.Readable() <==> f.kind == LocalFlow && !f.reading)
      && (f.Writable() <==> f.kind == LocalFlow && !f.writing)
    ensures f.state == Init ==> !f.Readable() && !f.Writable()
  {
  }

  /** A read that ends with the end of the stream keeps to the assertions unless it began while establishing. */
  lemma EndOfStreamLegal(f: Flow)
    requires Consistent(f) && Legal(f, ReadEnd)
    ensures Legal(After(f, ReadEnd), Call.ReadClosed) <==> f.state != Establishing
  {
  }

  class FlowStateMachine {
    const kind: FlowType
    var state: FlowState
    var reading: bool
    var writing: bool
    var readClosed: bool
    var writeClosing: bool
    var writeClosed: bool

    function Value(): Flow
      reads this
    {
      Flow(kind, state, reading, writing, readClosed, writeClosing, writeClosed)
    }

    constructor (kind: FlowType)
      ensures this.kind == kind && Value() == NewFlow(kind)
    {
      this.kind, state := kind, Init;
      reading, writing, readClosed, writeClosing, writeClosed := false, false, false, false, false;
    }

    method ConnectBegin()
      requires Legal(Value(), Call.ConnectBegin)
      modifies this
      ensures Value() == After(old(Value()), Call.ConnectBegin)
    {
      state := Establishing;
    }

    method Connected()
      requires Legal(Value(), Call.Connected)
      modifies this
      ensures Value() == After(old(Value()), Call.Connected)
    {
      state := Established;
    }

    method ReadBegin()
      requires Legal(Value(), Call.ReadBegin)
      modifies this
      ensures Value() == After(old(Value()), Call.ReadBegin)
    {
      reading := true;
    }

    method ReadEnd()
      requires Legal(Value(), Call.ReadEnd)
      modifies this
      ensures Value() == After(old(Value()), Call.ReadEnd)
    {
      reading := false;
    }

    method ReadClosed()
      requires Legal(Value(), Call.ReadClosed)
      modifies this
      ensures Value() == After(old(Value()), Call.ReadClosed)
      ensures readClosed && !reading && (Consistent(old(Value())) ==> state == if writeClosed then Closed else Closing)
    {
      if state == Established {
        readClosed := true;
        reading := false;
        state := Closing;
      } else {
        readClosed := true;
        reading := false;
        if writeClosed {
          state := Closed;
        }
      }
    }

    method WriteBegin()
      requires Legal(Value(), Call.WriteBegin)
      modifies this
      ensures Value() == After(old(Value()), Call.WriteBegin)
    {
      writing := true;
    }

    method WriteEnd()
      requires Legal(Value(), Call.WriteEnd)
      modifies this
      ensures Value() == After(old(Value()), Call.WriteEnd)
    {
      writing := false;
    }

    method WriteCloseBegin()
      requires Legal(Value(), Call.WriteCloseBegin)
      modifies this
      ensures Value() == After(old(Value()), Call.WriteCloseBegin)
      ensures state == Closing && !writing && writeClosing
    {
      state := Closing;
      writing := false;
      writeClosing := true;
    }

    method WriteCloseEnd()
      requires Legal(Value(), Call.WriteCloseEnd)
      modifies this
      ensures Value() == After(old(Value()), Call.WriteCloseEnd)
      ensures writeClosed && !writeClosing
      ensures Consistent(old(Value())) ==> state == if readClosed then Closed else Closing
    {
      writeClosing := false;
      writeClosed := true;
      if readClosed {
        state := Closed;
      }
    }

    method AllClosed()
      modifies this
      ensures Value() == After(old(Value()), Call.AllClosed)
      ensures state == Closed && readClosed && writeClosed && !reading && !writing && !writeClosing
    {
      reading, writing, writeClosing := false, false, false;
      writeClosed, readClosed := true, true;
      state := Closed;
    }

    method Errored()
      modifies this
      ensures Value() == After(old(Value()), Call.Errored)
      ensures state == Closed && readClosed && writeClosed && !reading && !writing && !writeClosing
    {
      AllClosed();
    }
  }
}
