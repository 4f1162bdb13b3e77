/** A tunnel between two half-closable flows: its setup, its two forwarding loops, and its release. */
module Tunnels {
  import opened Bytes
  import opened Flows

  // ---- the states of a tunnel -----------------------------------------------------------------

  /** The completion the setup waits for. */
  datatype Phase = Idle | Opening | Matching | Connecting | Continuing | Forwarding

  /** The completion a forwarding loop waits for. */
  datatype Loop = NotStarted | AwaitingRead | AwaitingWrite(data: seq<byte>) | AwaitingClose | Finished

  /** One direction: its loop, what it has read from its source and what its target has taken. */
  datatype Way = Way(loop: Loop, read: seq<byte>, written: seq<byte>)

  /** `up` forwards from the local flow to the remote one, `down` the other way. */
  datatype World = World(phase: Phase, local: Flow, remote: Flow, up: Way, down: Way, releases: nat)

  datatype Received = Data(data: seq<byte>) | Eof | Failure

  datatype Event =
    | Opened(ok: bool) | Matched(ok: bool) | RemoteConnected(ok: bool) | Continued(ok: bool)
    | LocalRead(result: Received) | RemoteWritten(ok: bool) | RemoteWriteClosed
    | RemoteRead(result: Received) | LocalWritten(ok: bool) | LocalWriteClosed
    | Timeout

  const FRESH :=
    World(Idle, NewFlow(LocalFlow), NewFlow(RemoteFlow), Way(NotStarted, [], []), Way(NotStarted, [], []), 0)

  /** A completion runs only if it is outstanding, and none runs once the tunnel has been released. */
  predicate Enabled(w: World, e: Event)
  {
    w.releases == 0 &&
    match e
    case Opened(_) => w.phase == Opening
    case Matched(_) => w.phase == Matching
    case RemoteConnected(_) => w.phase == Connecting
    case Continued(_) => w.phase == Continuing
    case LocalRead(_) => w.up.loop == AwaitingRead
    case RemoteWritten(_) => w.up.loop.AwaitingWrite?
    case RemoteWriteClosed => w.up.loop == AwaitingClose
    case RemoteRead(_) => w.down.loop == AwaitingRead
    case LocalWritten(_) => w.down.loop.AwaitingWrite?
    case LocalWriteClosed => w.down.loop == AwaitingClose
    case Timeout => w.phase != Idle
  }

  // ---- what a handler does --------------------------------------------------------------------

  function Begun(w: World): World
  {
    w.(phase := Opening, local := After(w.local, ConnectBegin))
  }

  function Release(w: World): World
  {
    w.(releases := w.releases + 1)
  }

  /** Both flows are closed. */
  predicate AllDown(w: World)
  {
    w.local.state == Closed && w.remote.state == Closed
  }

  function CheckStatus(w: World): World
  {
    if AllDown(w) then Release(w) else w
  }

  /** The start of a round of the upward loop. */
  function ForwardLocal(w: World): World
  {
    var v := CheckStatus(w);
    v.(local := After(v.local, ReadBegin), up := v.up.(loop := AwaitingRead))
  }

  function ForwardRemote(w: World): World
  {
    var v := CheckStatus(w);
    v.(remote := After(v.remote, ReadBegin), down := v.down.(loop := AwaitingRead))
  }

  /** A flow's own part of a completed read. */
  function ReadDone(f: Flow, result: Received): Flow
  {
    var g := After(f, ReadEnd);
    match result
    case Data(_) => g
    case Eof => After(g, Call.ReadClosed)
    case Failure => After(g, Call.Errored)
  }

  function WriteDone(f: Flow, ok: bool): Flow
  {
    if ok then After(f, WriteEnd) else After(After(f, WriteEnd), Call.Errored)
  }

  function Step(w: World, e: Event): World
    requires Enabled(w, e)
  {
    match e
    case Opened(ok) => if ok then w.(phase := Matching) else Release(w.(local := After(w.local, Call.Errored)))
    case Matched(ok) =>
      if ok then w.(phase := Connecting, remote := After(w.remote, ConnectBegin)) else Release(w)
    case RemoteConnected(ok) =>
      if ok then w.(phase := Continuing, remote := After(w.remote, Call.Connected))
      else Release(w.(remote := After(w.remote, Call.Errored)))
    case Continued(ok) =>
      if ok then ForwardRemote(ForwardLocal(w.(phase := Forwarding, local := After(w.local, Call.Connected))))
      else Release(w.(local := After(w.local, Call.Errored)))
    case LocalRead(result) =>
      var v := w.(local := ReadDone(w.local, result));
      (match result
       case Data(data) =>
         v.(remote := After(v.remote, WriteBegin), up := Way(AwaitingWrite(data), v.up.read + data, v.up.written))
       case Eof =>
         if v.remote.Writable() then v.(remote := After(v.remote, WriteCloseBegin), up := v.up.(loop := AwaitingClose))
         else CheckStatus(v.(up := v.up.(loop := Finished)))
       case Failure => Release(v))
    case RemoteWritten(ok) =>
      var v := w.(remote := WriteDone(w.remote, ok));
      if !ok then Release(v)
      else ForwardLocal(v.(up := v.up.(written := v.up.written + w.up.loop.data)))
    case RemoteWriteClosed => CheckStatus(w.(remote := After(w.remote, WriteCloseEnd), up := w.up.(loop := Finished)))
    case RemoteRead(result) =>
      var v := w.(remote := ReadDone(w.remote, result));
      (match result
       case Data(data) =>
         v.(local := After(v.local, WriteBegin), down := Way(AwaitingWrite(data), v.down.read + data, v.down.written))
       case Eof =>
         if v.local.Writable() then v.(local := After(v.local, WriteCloseBegin), down := v.down.(loop := AwaitingClose))
         else CheckStatus(v.(down := v.down.(loop := Finished)))
       case Failure => Release(v))
    case LocalWritten(ok) =>
      var v := w.(local := WriteDone(w.local, ok));
      if !ok then Release(v)
      else ForwardRemote(v.(down := v.down.(written := v.down.written + w.down.loop.data)))
    case LocalWriteClosed => CheckStatus(w.(local := After(w.local, WriteCloseEnd), down := w.down.(loop := Finished)))
    case Timeout => Release(w)
  }

  // ---- the coupling between loops and flows ---------------------------------------------------

  /** Where a loop stands, and what that says about the side it reads from and the side it writes to. */
  predicate LoopFits(loop: Loop, source: Flow, target: Flow)
  {
    match loop
    case NotStarted => false
    case AwaitingRead => source.reading && !target.writing && !target.writeClosing && !target.writeClosed
    case AwaitingWrite(_) => !source.reading && !source.readClosed && target.writing
    case AwaitingClose => source.readClosed && target.writeClosing
    case Finished => source.readClosed && target.writeClosed
  }

  predicate Forwards(f: Flow)
  {
    f.state == Established || f.state == Closing || f.state == Closed
  }

  predicate SettingUp(f: Flow, state: FlowState)
  {
    f.state == state && !f.reading && !f.writing
  }

  function InFlight(loop: Loop): seq<byte>
  {
    if loop.AwaitingWrite? then loop.data else []
  }

  /** What each phase says of the flows. */
  predicate PhaseFits(w: World)
  {
    match w.phase
    case Idle => SettingUp(w.local, Init) && SettingUp(w.remote, Init)
    case Opening => SettingUp(w.local, Establishing) && SettingUp(w.remote, Init)
    case Matching => SettingUp(w.local, Establishing) && SettingUp(w.remote, Init)
    case Connecting => SettingUp(w.local, Establishing) && SettingUp(w.remote, Establishing)
    case Continuing => SettingUp(w.local, Establishing) && SettingUp(w.remote, Established)
    case Forwarding =>
      && Forwards(w.local) && Forwards(w.remote)
      && LoopFits(w.up.loop, w.local, w.remote) && LoopFits(w.down.loop, w.remote, w.local)
  }

  /** What every reachable tunnel satisfies. */
  predicate Coupled(w: World)
  {
    && w.local.kind == LocalFlow && w.remote.kind == RemoteFlow && Consistent(w.local) && Consistent(w.remote)
    && w.up.read == w.up.written + InFlight(w.up.loop) && w.down.read == w.down.written + InFlight(w.down.loop)
    && w.releases <= 1
    && (w.phase != Forwarding ==> w.up == w.down == Way(NotStarted, [], []))
    && (w.releases == 0 ==> PhaseFits(w) && !(w.up.loop == Finished && w.down.loop == Finished))
  }

  predicate InSetup(e: Event)
  {
    e.Opened? || e.Matched? || e.RemoteConnected? || e.Continued? || e == Timeout
  }

  predicate GoingUp(e: Event)
  {
    e.LocalRead? || e.RemoteWritten? || e.RemoteWriteClosed?
  }

  lemma SetupKeeps(w: World, e: Event)
    requires Coupled(w) && Enabled(w, e) && InSetup(e)
    ensures Coupled(Step(w, e))
  {
  }

  lemma LocalReadKeeps(w: World, e: Event)
    requires Coupled(w) && Enabled(w, e) && e.LocalRead?
    ensures Coupled(Step(w, e))
  {
    var v := Step(w, e);
    assert v.up.read == v.up.written + InFlight(v.up.loop);
  }

  lemma UpKeeps(w: World, e: Event)
    requires Coupled(w) && Enabled(w, e) && GoingUp(e) && !e.LocalRead?
    ensures Coupled(Step(w, e))
  {
    var v := Step(w, e);
    assert v.up.read == v.up.written + InFlight(v.up.loop);
  }

  lemma RemoteReadKeeps(w: World, e: Event)
    requires Coupled(w) && Enabled(w, e) && e.RemoteRead?
    ensures Coupled(Step(w, e))
  {
    var v := Step(w, e);
    assert v.down.read == v.down.written + InFlight(v.down.loop);
  }

  lemma DownKeeps(w: World, e: Event)
    requires Coupled(w) && Enabled(w, e) && !GoingUp(e) && !InSetup(e) && !e.RemoteRead?
    ensures Coupled(Step(w, e))
  {
    var v := Step(w, e);
    assert v.down.read == v.down.written + InFlight(v.down.loop);
  }

  /** Every step keeps the coupling. */
  lemma StepKeeps(w: World, e: Event)
    requires Coupled(w) && Enabled(w, e)
    ensures Coupled(Step(w, e))
  {
    hide Coupled, Step, Enabled;
    if InSetup(e) {
      SetupKeeps(w, e);
    } else if e.LocalRead? {
      LocalReadKeeps(w, e);
    } else if e.RemoteRead? {
      RemoteReadKeeps(w, e);
    } else if GoingUp(e) {
      UpKeeps(w, e);
    } else {
      DownKeeps(w, e);
    }
  }

  /** While forwarding, a side is busy exactly when the loop that owns it waits for it. */
  lemma OneOutstanding(w: World)
    requires Coupled(w) && w.phase == Forwarding && w.releases == 0
    ensures w.local.reading <==> w.up.loop == AwaitingRead
    ensures w.remote.writing <==> w.up.loop.AwaitingWrite?
    ensures w.remote.writeClosing <==> w.up.loop == AwaitingClose
    ensures w.remote.reading <==> w.down.loop == AwaitingRead
    ensures w.local.writing <==> w.down.loop.AwaitingWrite?
    ensures w.local.writeClosing <==> w.down.loop == AwaitingClose
  {
  }

  /** The status check at the start of a round finds the tunnel in use, so the round goes on with it. */
  lemma RoundFacts(w: World, e: Event)
    requires Coupled(w) && Enabled(w, e)
    ensures e == RemoteWritten(true) ==>
      var v := w.(remote := WriteDone(w.remote, true));
      !AllDown(v) && v.local.Readable() && v.remote.Writable()
    ensures e == LocalWritten(true) ==>
      var v := w.(local := WriteDone(w.local, true));
      !AllDown(v) && v.local.Writable() && v.remote.Readable()
    ensures e == Continued(true) ==>
      var v := w.(phase := Forwarding, local := After(w.local, Call.Connected));
      && !AllDown(v) && v.local.Readable() && v.remote.Writable()
      && !AllDown(ForwardLocal(v)) && ForwardLocal(v).local.Writable() && ForwardLocal(v).remote.Readable()
  {
  }

  /** The end of a stream is always passed on: the other side's write end is still open and idle. */
  lemma EofIsPassedOn(w: World)
    requires Coupled(w) && w.releases == 0
    ensures w.up.loop == AwaitingRead ==> Legal(ReadDone(w.local, Data([])), Call.ReadClosed) && w.remote.Writable()
    ensures w.down.loop == AwaitingRead ==> Legal(ReadDone(w.remote, Data([])), Call.ReadClosed) && w.local.Writable()
  {
  }

  /** A tunnel that has been opened and not released always waits for the timer and for something besides. */
  lemma NeverStuck(w: World)
    requires Coupled(w) && w.phase != Idle && w.releases == 0
    ensures Enabled(w, Timeout) && exists e :: e != Timeout && Enabled(w, e)
  {
    var e :=
      if w.phase == Opening then Opened(true) else if w.phase == Matching then Matched(true)
      else if w.phase == Connecting then RemoteConnected(true) else if w.phase == Continuing then Continued(true)
      else match w.up.loop
        case AwaitingRead => LocalRead(Eof)
        case AwaitingWrite(_) => RemoteWritten(true)
        case AwaitingClose => RemoteWriteClosed
        case _ =>
          match w.down.loop
          case AwaitingRead => RemoteRead(Eof)
          case AwaitingWrite(_) => LocalWritten(true)
          case _ => LocalWriteClosed;
    assert Enabled(w, e) && e != Timeout;
  }

  predicate Failing(e: Event)
  {
    match e
    case Opened(ok) => !ok
    case Matched(ok) => !ok
    case RemoteConnected(ok) => !ok
    case Continued(ok) => !ok
    case LocalRead(r) => r == Failure
    case RemoteWritten(ok) => !ok
    case RemoteRead(r) => r == Failure
    case LocalWritten(ok) => !ok
    case Timeout => true
    case _ => false
  }

  /** A step releases the tunnel exactly if it is an error or the timeout, or if it finishes both directions. */
  lemma ReleasedWhen(w: World, e: Event)
    requires Coupled(w) && Enabled(w, e)
    ensures var v := Step(w, e);
      && v.releases == (if Failing(e) || (v.up.loop == Finished && v.down.loop == Finished) then 1 else 0)
      && (v.releases == 1 && !Failing(e) ==>
          v.up.read == v.up.written && v.down.read == v.down.written
          && v.local.state == Closed && v.remote.state == Closed
          && (e == RemoteWriteClosed || e == LocalWriteClosed))
  {
    StepKeeps(w, e);
  }

  /** What a failing completion leaves behind: the flow that reported the error is closed, on both sides, and the loops
      stay where they were. */
  lemma FailureCloses(w: World, e: Event)
    requires Coupled(w) && Enabled(w, e) && Failing(e)
    ensures var v := Step(w, e);
      && v.releases == 1 && v.phase == w.phase && v.up == w.up && v.down == w.down
      && (e in {Opened(false), Continued(false), LocalRead(Failure), LocalWritten(false)} ==>
          v.local.state == Closed && v.local.readClosed && v.local.writeClosed && v.remote == w.remote)
      && (e in {RemoteConnected(false), RemoteRead(Failure), RemoteWritten(false)} ==>
          v.remote.state == Closed && v.remote.readClosed && v.remote.writeClosed && v.local == w.local)
      && (e in {Matched(false), Timeout} ==> v.local == w.local && v.remote == w.remote)
  {
  }

  /** What a completion that does not fail makes of the two directions: data read is what is written next, and once that
      is written, all that was read has been; one direction does not touch the other. */
  lemma Turns(w: World, e: Event)
    requires Coupled(w) && Enabled(w, e) && !Failing(e)
    ensures var v := Step(w, e);
      match e
      case LocalRead(Data(data)) => v.up == Way(AwaitingWrite(data), w.up.read + data, w.up.written) && v.down == w.down
      case LocalRead(Eof) => v.up == Way(AwaitingClose, w.up.read, w.up.written) && v.down == w.down
      case RemoteWritten(_) => v.up == Way(AwaitingRead, w.up.read, w.up.read) && v.down == w.down
      case RemoteWriteClosed => v.up == Way(Finished, w.up.read, w.up.written) && v.down == w.down
      case RemoteRead(Data(data)) =>
        v.down == Way(AwaitingWrite(data), w.down.read + data, w.down.written) && v.up == w.up
      case RemoteRead(Eof) => v.down == Way(AwaitingClose, w.down.read, w.down.written) && v.up == w.up
      case LocalWritten(_) => v.down == Way(AwaitingRead, w.down.read, w.down.read) && v.up == w.up
      case LocalWriteClosed => v.down == Way(Finished, w.down.read, w.down.written) && v.up == w.up
      case Continued(_) => v.up == v.down == Way(AwaitingRead, [], [])
      case _ => v.up == v.down == Way(NotStarted, [], [])
  {
    EofIsPassedOn(w);
  }

  // ---- what the events say --------------------------------------------------------------------

  datatype Direction = Upward | Downward

  /** The data that a completion brings for a direction. */
  function Brought(e: Event, d: Direction): seq<byte>
  {
    match e
    case LocalRead(Data(data)) => if d == Upward then data else []
    case RemoteRead(Data(data)) => if d == Downward then data else []
    case _ => []
  }

  /** All the data that the reads have brought. */
  function Arrived(es: seq<Event>, d: Direction): seq<byte>
    decreases |es|
  {
    if es == [] then [] else Arrived(es[..|es| - 1], d) + Brought(es[|es| - 1], d)
  }

  /** The data that had been brought when the last write was completed. */
  function Delivered(es: seq<Event>, d: Direction): seq<byte>
    decreases |es|
  {
    if es == [] then []
    else if es[|es| - 1] == (if d == Upward then RemoteWritten(true) else LocalWritten(true)) then
      Arrived(es[..|es| - 1], d)
    else Delivered(es[..|es| - 1], d)
  }

  /** How far the setup has come. */
  function PhaseAfter(es: seq<Event>): Phase
  {
    if Continued(true) in es then Forwarding
    else if RemoteConnected(true) in es then Continuing
    else if Matched(true) in es then Connecting
    else if Opened(true) in es then Matching
    else Opening
  }

  lemma EventsMore(es: seq<Event>, e: Event)
    ensures var now := es + [e];
      && (forall d :: Arrived(now, d) == Arrived(es, d) + Brought(e, d))
      && (forall d :: Brought(e, d) == [] ==> Arrived(now, d) == Arrived(es, d))
      && Delivered(now, Upward) == (if e == RemoteWritten(true) then Arrived(es, Upward) else Delivered(es, Upward))
      && Delivered(now, Downward) ==
         (if e == LocalWritten(true) then Arrived(es, Downward) else Delivered(es, Downward))
  {
    assert (es + [e])[..|es|] == es;
  }

  lemma PhaseMore(es: seq<Event>, e: Event)
    ensures PhaseAfter(es + [e]) ==
      if e == Continued(true) || PhaseAfter(es) == Forwarding then Forwarding
      else if e == RemoteConnected(true) || PhaseAfter(es) == Continuing then Continuing
      else if e == Matched(true) || PhaseAfter(es) == Connecting then Connecting
      else if e == Opened(true) then Matching
      else PhaseAfter(es)
  {
    var now := es + [e];
    assert Continued(true) in now <==> Continued(true) in es || e == Continued(true);
    assert RemoteConnected(true) in now <==> RemoteConnected(true) in es || e == RemoteConnected(true);
    assert Matched(true) in now <==> Matched(true) in es || e == Matched(true);
    assert Opened(true) in now <==> Opened(true) in es || e == Opened(true);
  }

  // ---- whole runs -----------------------------------------------------------------------------

  predicate EnabledRun(w: World, es: seq<Event>)
    decreases |es|
  {
    es != [] ==> Enabled(w, es[0]) && EnabledRun(Step(w, es[0]), es[1..])
  }

  function AfterEvents(w: World, es: seq<Event>): World
    requires EnabledRun(w, es)
    decreases |es|
  {
    if es == [] then w else AfterEvents(Step(w, es[0]), es[1..])
  }

  lemma {:induction false} RunKeeps(w: World, es: seq<Event>)
    requires Coupled(w) && EnabledRun(w, es)
    ensures Coupled(AfterEvents(w, es))
    decreases |es|
  {
    if es == [] {
    } else {
      StepKeeps(w, es[0]);
      RunKeeps(Step(w, es[0]), es[1..]);
    }
  }

  lemma {:induction false} AfterLast(w: World, es: seq<Event>, e: Event)
    requires EnabledRun(w, es + [e])
    ensures EnabledRun(w, es) && Enabled(AfterEvents(w, es), e)
    ensures AfterEvents(w, es + [e]) == Step(AfterEvents(w, es), e)
    decreases |es|
  {
    hide Step, Enabled;
    if es == [] {
      assert [e][1..] == [];
    } else {
      assert (es + [e])[1..] == es[1..] + [e];
      AfterLast(Step(w, es[0]), es[1..], e);
    }
  }

  /** What the world says is what the events say. */
  predicate Told(w: World, es: seq<Event>)
  {
    && w.phase == PhaseAfter(es)
    && w.up.read == Arrived(es, Upward) && w.up.written == Delivered(es, Upward)
    && w.down.read == Arrived(es, Downward) && w.down.written == Delivered(es, Downward)
    && (w.up.loop == Finished <==> RemoteWriteClosed in es)
    && (w.down.loop == Finished <==> LocalWriteClosed in es)
  }

  lemma StepPhase(w: World, e: Event)
    requires Coupled(w) && Enabled(w, e)
    ensures Step(w, e).phase ==
      match e
      case Opened(true) => Matching
      case Matched(true) => Connecting
      case RemoteConnected(true) => Continuing
      case Continued(true) => Forwarding
      case _ => w.phase
    ensures e.Opened? ==> w.phase == Opening
    ensures e.Matched? ==> w.phase == Matching
    ensures e.RemoteConnected? ==> w.phase == Connecting
    ensures e.Continued? ==> w.phase == Continuing
    ensures w.up.loop == Finished || w.down.loop == Finished ==> w.phase == Forwarding
    ensures w.up.loop == Finished ==> !GoingUp(e)
    ensures w.down.loop == Finished ==> GoingUp(e) || InSetup(e)
  {
  }

  lemma ToldMore(w: World, es: seq<Event>, e: Event)
    requires Coupled(w) && Enabled(w, e) && Told(w, es)
    ensures Told(Step(w, e), es + [e])
  {
    hide Step, Enabled, Arrived, Delivered, PhaseAfter, Consistent, PhaseFits;
    StepPhase(w, e);
    EventsMore(es, e);
    PhaseMore(es, e);
    if Failing(e) {
      FailureCloses(w, e);
    } else {
      Turns(w, e);
    }
    assert RemoteWriteClosed in es + [e] <==> RemoteWriteClosed in es || e == RemoteWriteClosed;
    assert LocalWriteClosed in es + [e] <==> LocalWriteClosed in es || e == LocalWriteClosed;
  }

  lemma {:induction false} RunTold(es: seq<Event>)
    requires EnabledRun(Begun(FRESH), es)
    ensures var w := AfterEvents(Begun(FRESH), es); Coupled(w) && Told(w, es)
    decreases |es|
  {
    assert Coupled(Begun(FRESH));
    RunKeeps(Begun(FRESH), es);
    if es == [] {
    } else {
      var front, e := es[..|es| - 1], es[|es| - 1];
      assert es == front + [e];
      AfterLast(Begun(FRESH), front, e);
      RunTold(front);
      ToldMore(AfterEvents(Begun(FRESH), front), front, e);
      hide Step, Enabled, Coupled, Told, AfterEvents, EnabledRun;
    }
  }

  /** In every interleaving what has been read for either side is the data of the completed reads, what has been sent
      to it is what had been read when its last write was completed, and the tunnel is released at most once. */
  lemma EveryRun(es: seq<Event>)
    requires EnabledRun(Begun(FRESH), es)
    ensures var w := AfterEvents(Begun(FRESH), es);
      && Coupled(w) && w.up.written <= w.up.read && w.down.written <= w.down.read && w.releases <= 1
      && w.up.read == Arrived(es, Upward) && w.up.written == Delivered(es, Upward)
      && w.down.read == Arrived(es, Downward) && w.down.written == Delivered(es, Downward)
      && (w.up.loop.AwaitingWrite? ==> Arrived(es, Upward) == Delivered(es, Upward) + w.up.loop.data)
      && (w.down.loop.AwaitingWrite? ==> Arrived(es, Downward) == Delivered(es, Downward) + w.down.loop.data)
      && w.phase == PhaseAfter(es)
  {
    hide Step, Enabled, AfterEvents, EnabledRun, Arrived, Delivered, PhaseAfter;
    RunTold(es);
  }

  /** A run without errors and without a timeout. */
  predicate Smooth(es: seq<Event>)
  {
    forall i :: 0 <= i < |es| ==> !Failing(es[i])
  }

  /** A released tunnel takes no more steps. */
  lemma ReleasedStops(w: World, es: seq<Event>)
    requires w.releases > 0 && EnabledRun(w, es)
    ensures es == []
  {
  }

  /** Such a run has released the tunnel, once, if and only if both directions are finished; each stream has then
      arrived whole. */
  lemma {:induction false} SmoothRun(w: World, es: seq<Event>)
    requires Coupled(w) && w.releases == 0 && EnabledRun(w, es) && Smooth(es)
    ensures var v := AfterEvents(w, es);
      && v.releases == (if v.up.loop == Finished && v.down.loop == Finished then 1 else 0)
      && (v.releases == 1 ==> v.up.written == v.up.read && v.down.written == v.down.read)
      && (v.releases == 1 ==> v.local.state == Closed && v.remote.state == Closed)
    decreases |es|
  {
    if es == [] {
    } else {
      var v := Step(w, es[0]);
      assert !Failing(es[0]);
      ReleasedWhen(w, es[0]);
      StepKeeps(w, es[0]);
      if v.releases == 0 {
        SmoothRun(v, es[1..]);
      } else {
        ReleasedStops(v, es[1..]);
      }
    }
  }

  /** Told by the events: a run without errors and timeout has released the tunnel exactly if both closes have been
      completed; then all data has been delivered, and both flows are closed. */
  lemma SmoothEnd(es: seq<Event>)
    requires EnabledRun(Begun(FRESH), es) && Smooth(es)
    ensures var v := AfterEvents(Begun(FRESH), es);
      && v.releases == (if RemoteWriteClosed in es && LocalWriteClosed in es then 1 else 0)
      && (v.releases == 1 ==>
          && Delivered(es, Upward) == Arrived(es, Upward) && Delivered(es, Downward) == Arrived(es, Downward)
          && v.local.state == Closed && v.remote.state == Closed)
  {
    assert Coupled(Begun(FRESH));
    hide Step, Enabled, AfterEvents, EnabledRun, Arrived, Delivered, PhaseAfter, Smooth;
    RunTold(es);
    SmoothRun(Begun(FRESH), es);
  }

  // ---- the classes ----------------------------------------------------------------------------

  class TunnelManager {
    var tunnels: set<Tunnel>

    constructor ()
      ensures tunnels == {}
    {
      tunnels := {};
    }

    method Build(local: FlowStateMachine) returns (tunnel: Tunnel)
      requires local.Value() == NewFlow(LocalFlow)
      modifies this
      ensures fresh(tunnel) && tunnels == old(tunnels) + {tunnel}
      ensures tunnel.Valid() && tunnel.manager == this && tunnel.local == local && tunnel.Snapshot() == FRESH
    {
      tunnel := new Tunnel(local, this);
      tunnels := tunnels + {tunnel};
    }

    method CloseAll()
      modifies this
      ensures tunnels == {}
    {
      tunnels := {};
    }

    method NotifyClosed(tunnel: Tunnel)
      modifies this
      ensures tunnels == old(tunnels) - {tunnel}
    {
      tunnels := tunnels - {tunnel};
    }
  }

  class Tunnel {
    const manager: TunnelManager
    const local: FlowStateMachine
    var remote: FlowStateMachine?

    /** Which completions are outstanding, and what has passed. */
    ghost var phase: Phase
    ghost var up: Way
    ghost var down: Way
    ghost var releases: nat

    ghost function Snapshot(): World
      reads this, local, if remote == null then {} else {remote}
    {
      World(phase, local.Value(), if remote == null then NewFlow(RemoteFlow) else remote.Value(), up, down, releases)
    }

    constructor (local: FlowStateMachine, manager: TunnelManager)
      requires local.Value() == NewFlow(LocalFlow)
      ensures this.local == local && this.manager == manager && Snapshot() == FRESH
      ensures releases == 0 && remote == null
    {
      this.local, this.manager, remote := local, manager, null;
      phase, up, down, releases := Idle, Way(NotStarted, [], []), Way(NotStarted, [], []), 0;
    }

    /** The manager holds the tunnel until it is released; the remote flow exists from the match on. */
    ghost predicate Valid()
      reads this, manager
    {
      && remote != local && (releases == 0 <==> this in manager.tunnels)
      && (remote == null ==> phase.Idle? || phase.Opening? || phase.Matching?)
    }

    method Open()
      requires Valid() && Snapshot() == FRESH
      modifies this, local
      ensures Valid() && Snapshot() == Begun(FRESH)
    {
      local.ConnectBegin();
      phase := Opening;
    }

    method ReleaseTunnel()
      requires Valid() && releases == 0
      modifies this`releases, manager
      ensures Valid() && Snapshot() == Release(old(Snapshot()))
      ensures releases == 1 && manager.tunnels == old(manager.tunnels) - {this}
    {
      manager.NotifyClosed(this);
      releases := releases + 1;
    }

    /** A tunnel without a remote flow is released as soon as its local flow is closed. */
    method CheckTunnelStatus()
      requires Valid() && releases == 0
      modifies this`releases, manager
      ensures Valid()
      ensures remote != null ==> Snapshot() == CheckStatus(old(Snapshot()))
      ensures remote == null ==>
        Snapshot() == if local.state == Closed then Release(old(Snapshot())) else old(Snapshot())
      ensures releases == if local.state == Closed && (remote == null || remote.state == Closed) then 1 else 0
    {
      if local.state == Closed && (remote == null || remote.state == Closed) {
        ReleaseTunnel();
      }
    }

    method OnOpened(ok: bool)
      requires Valid() && Coupled(Snapshot()) && Enabled(Snapshot(), Opened(ok))
      modifies this, local, if remote == null then {} else {remote}, manager
      ensures Valid() && Snapshot() == Step(old(Snapshot()), Opened(ok))
    {
      if !ok {
        local.Errored();
        ReleaseTunnel();
        return;
      }
      phase := Matching;
    }

    method OnMatched(ok: bool)
      requires Valid() && Coupled(Snapshot()) && Enabled(Snapshot(), Matched(ok))
      modifies this, manager
      ensures Valid() && (remote == old(remote) || fresh(remote)) && Snapshot() == Step(old(Snapshot()), Matched(ok))
    {
      if !ok {
        ReleaseTunnel();
        return;
      }
      remote := new FlowStateMachine(RemoteFlow);
      remote.ConnectBegin();
      phase := Connecting;
    }

    method OnConnected(ok: bool)
      requires Valid() && Coupled(Snapshot()) && Enabled(Snapshot(), RemoteConnected(ok))
      modifies this, local, if remote == null then {} else {remote}, manager
      ensures Valid() && Snapshot() == Step(old(Snapshot()), RemoteConnected(ok))
    {
      if !ok {
        remote.Errored();
        ReleaseTunnel();
        return;
      }
      remote.Connected();
      phase := Continuing;
    }

    /** A round of the upward loop: the status check, the two assertions of the code, and the read. */
    method StartUp()
      requires Valid() && releases == 0 && remote != null && !AllDown(Snapshot())
      requires Snapshot().local.Readable() && Snapshot().remote.Writable()
      modifies this, local, manager
      ensures Valid() && remote == old(remote) && Snapshot() == ForwardLocal(old(Snapshot()))
    {
      CheckTunnelStatus();
      assert local.Value().Readable() && remote.Value().Writable();
      local.ReadBegin();
      up := up.(loop := AwaitingRead);
    }

    method StartDown()
      requires Valid() && releases == 0 && remote != null && !AllDown(Snapshot())
      requires Snapshot().local.Writable() && Snapshot().remote.Readable()
      modifies this, remote, manager
      ensures Valid() && remote == old(remote) && Snapshot() == ForwardRemote(old(Snapshot()))
    {
      CheckTunnelStatus();
      assert local.Value().Writable() && remote.Value().Readable();
      remote.ReadBegin();
      down := down.(loop := AwaitingRead);
    }

    method OnContinued(ok: bool)
      requires Valid() && Coupled(Snapshot()) && Enabled(Snapshot(), Continued(ok))
      modifies this, local, if remote == null then {} else {remote}, manager
      ensures Valid() && Snapshot() == Step(old(Snapshot()), Continued(ok))
    {
      RoundFacts(Snapshot(), Continued(ok));
      if !ok {
        local.Errored();
        ReleaseTunnel();
        return;
      }
      local.Connected();
      phase := Forwarding;
      StartUp();
      StartDown();
    }

    static method FinishRead(flow: FlowStateMachine, result: Received)
      requires Consistent(flow.Value()) && flow.reading && flow.state != Establishing
      modifies flow
      ensures flow.Value() == ReadDone(old(flow.Value()), result)
    {
      EndOfStreamLegal(flow.Value());
      flow.ReadEnd();
      match result {
        case Data(_) =>
        case Eof => flow.ReadClosed();
        case Failure => flow.Errored();
      }
    }

    static method FinishWrite(flow: FlowStateMachine, ok: bool)
      requires flow.writing
      modifies flow
      ensures flow.Value() == WriteDone(old(flow.Value()), ok)
    {
      flow.WriteEnd();
      if !ok {
        flow.Errored();
      }
    }

    /** What is read goes to the remote flow as it is. */
    method OnLocalRead(result: Received) returns (toRemote: Option<seq<byte>>)
      requires Valid() && Coupled(Snapshot()) && Enabled(Snapshot(), LocalRead(result))
      modifies this, local, if remote == null then {} else {remote}, manager
      ensures Valid() && Snapshot() == Step(old(Snapshot()), LocalRead(result))
      ensures toRemote == if result.Data? then Some(result.data) else None
      ensures result.Data? ==> up.loop == AwaitingWrite(result.data) && remote != null && remote.writing
    {
      toRemote := None;
      EofIsPassedOn(Snapshot());
      FinishRead(local, result);
      match result {
        case Data(data) =>
          remote.WriteBegin();
          toRemote := Some(data);
          up := Way(AwaitingWrite(data), up.read + data, up.written);
        case Eof =>
          // The code has a branch for a remote flow whose write end cannot be closed; it is never taken.
          remote.WriteCloseBegin();
          up := up.(loop := AwaitingClose);
        case Failure =>
          ReleaseTunnel();
      }
    }

    method OnRemoteWritten(ok: bool)
      requires Valid() && Coupled(Snapshot()) && Enabled(Snapshot(), RemoteWritten(ok))
      modifies this, local, if remote == null then {} else {remote}, manager
      ensures Valid() && Snapshot() == Step(old(Snapshot()), RemoteWritten(ok))
    {
      RoundFacts(Snapshot(), RemoteWritten(ok));
      FinishWrite(remote, ok);
      if !ok {
        ReleaseTunnel();
        return;
      }
      up := up.(written := up.written + up.loop.data);
      StartUp();
    }

    method OnRemoteWriteClosed()
      requires Valid() && Coupled(Snapshot()) && Enabled(Snapshot(), RemoteWriteClosed)
      modifies this, local, if remote == null then {} else {remote}, manager
      ensures Valid() && Snapshot() == Step(old(Snapshot()), RemoteWriteClosed)
    {
      remote.WriteCloseEnd();
      up := up.(loop := Finished);
      CheckTunnelStatus();
    }

    method OnRemoteRead(result: Received) returns (toLocal: Option<seq<byte>>)
      requires Valid() && Coupled(Snapshot()) && Enabled(Snapshot(), RemoteRead(result))
      modifies this, local, if remote == null then {} else {remote}, manager
      ensures Valid() && Snapshot() == Step(old(Snapshot()), RemoteRead(result))
      ensures toLocal == if result.Data? then Some(result.data) else None
      ensures result.Data? ==> down.loop == AwaitingWrite(result.data) && local.writing
    {
      toLocal := None;
      EofIsPassedOn(Snapshot());
      FinishRead(remote, result);
      match result {
        case Data(data) =>
          local.WriteBegin();
          toLocal := Some(data);
          down := Way(AwaitingWrite(data), down.read + data, down.written);
        case Eof =>
          local.WriteCloseBegin();
          down := down.(loop := AwaitingClose);
        case Failure =>
          ReleaseTunnel();
      }
    }

    method OnLocalWritten(ok: bool)
      requires Valid() && Coupled(Snapshot()) && Enabled(Snapshot(), LocalWritten(ok))
      modifies this, local, if remote == null then {} else {remote}, manager
      ensures Valid() && Snapshot() == Step(old(Snapshot()), LocalWritten(ok))
    {
      RoundFacts(Snapshot(), LocalWritten(ok));
      FinishWrite(local, ok);
      if !ok {
        ReleaseTunnel();
        return;
      }
      down := down.(written := down.written + down.loop.data);
      StartDown();
    }

    method OnLocalWriteClosed()
      requires Valid() && Coupled(Snapshot()) && Enabled(Snapshot(), LocalWriteClosed)
      modifies this, local, if remote == null then {} else {remote}, manager
      ensures Valid() && Snapshot() == Step(old(Snapshot()), LocalWriteClosed)
    {
      local.WriteCloseEnd();
      down := down.(loop := Finished);
      CheckTunnelStatus();
    }

    method OnTimeout()
      requires Valid() && Coupled(Snapshot()) && Enabled(Snapshot(), Timeout)
      modifies this, local, if remote == null then {} else {remote}, manager
      ensures Valid() && Snapshot() == Step(old(Snapshot()), Timeout)
    {
      ReleaseTunnel();
    }
  }
}
