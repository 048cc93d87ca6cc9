/**
  The SEEKR device session (`api/seekr_device.py`): one optional serial port
  object `sp`, a cooperative run flag `let_thread_run` shared with the
  reader threads, and the operations `connect`, `disconnect`, `send_cmd`
  and the per-iteration logic of `read_thread`.

  The session is an immutable record; every operation returns the next
  record together with the world it leaves behind (a counter that makes
  each opened port object new, and the log of effects on the port).
 */
module SeekrDevice {
  import opened Base
  import opened SerialPort

  /** `BUFFERED_WRITE`: write one character at a time. */
  const BufferedWrite: bool := true
  /** Defaults of `connect`'s parameters. */
  const DefaultPort: string := "/dev/tty.usbserial-FTDVSTTW"
  const DefaultBaud: int := 115200
  /** Appended to every command before it is written. */
  const LineEnd: string := "\r\n"

  datatype WriteMode = Buffered | Bulk

  /** The write mode the module constant selects. */
  function ConfiguredMode(): WriteMode
  {
    if BufferedWrite then Buffered else Bulk
  }

  datatype Device = Device(sp: Option<Handle>, letThreadRun: bool)

  datatype World = World(nextHandle: nat, log: seq<Event>)

  datatype State = State(dev: Device, world: World)

  /** `SEEKR_Device.__init__`: no port object and the run flag down. */
  function NewDevice(): (d: Device)
    ensures d.sp.None? && !d.letThreadRun
  {
    Device(None, false)
  }

  function HeldHandles(d: Device): set<Handle>
  {
    if d.sp.Some? then {d.sp.value} else {}
  }

  /** The resource invariant: the only open port object is the one the
      session holds, the only reader that may run is bound to it, the run
      flag is up exactly while a port is held, and the held object is
      older than any object the next open will return. */
  predicate Valid(s: State)
  {
    var ledger := Replay(s.world.log);
    && ledger.openHandles == HeldHandles(s.dev)
    && ledger.readers == HeldHandles(s.dev)
    && s.dev.letThreadRun == s.dev.sp.Some?
    && (s.dev.sp.Some? ==> s.dev.sp.value.id < s.world.nextHandle)
  }

  /** A new session in a world where it has opened nothing yet satisfies
      the invariant. */
  lemma NewDeviceValid(w: World)
    requires Replay(w.log) == Ledger({}, {})
    ensures Valid(State(NewDevice(), w))
  {
  }

  /** `disconnect`: clear the run flag, close the held port, forget it.
      The source dereferences `sp` unconditionally, so a held port is
      required. */
  function Disconnect(s: State): (r: State)
    requires s.dev.sp.Some?
    ensures r.dev.sp.None? && !r.dev.letThreadRun
    ensures r.world.nextHandle == s.world.nextHandle
    ensures Replay(r.world.log).openHandles == Replay(s.world.log).openHandles - {s.dev.sp.value}
    ensures Replay(r.world.log).readers == {}
    ensures |r.world.log| == |s.world.log| + 2 && r.world.log[..|s.world.log|] == s.world.log
    ensures r.world.log == s.world.log + Teardown(s.dev)
  {
    var h := s.dev.sp.value;
    var log := s.world.log + [StopSignalled] + [Closed(h)];
    ReplayAppend(s.world.log, StopSignalled);
    ReplayAppend(s.world.log + [StopSignalled], Closed(h));
    State(Device(None, false), s.world.(log := log))
  }

  lemma DisconnectKeepsValid(s: State)
    requires Valid(s) && s.dev.sp.Some?
    ensures Valid(Disconnect(s))
    ensures Replay(Disconnect(s).world.log) == Ledger({}, {})
  {
  }

  /** The result of `connect`: the next state, and the exception pyserial
      raised, if the open failed. */
  datatype Connection = Connection(state: State, raised: Option<string>)

  /** The effects `connect` has before it opens the new port. */
  function Teardown(d: Device): seq<Event>
  {
    if d.sp.Some? then [StopSignalled, Closed(d.sp.value)] else []
  }

  /** `connect(serial_port, serial_baud)`: disconnect a held port first,
      then open the new one; on success raise the run flag and start one
      reader bound to the new port object. If the open raises, the
      teardown has already happened and no reader is started. */
  function Connect(s: State, port: string, baud: int, os: OpenOutcome): (r: Connection)
    ensures r.raised.None? <==> os == Opens
    ensures os.Refused? ==> r.raised == Some(os.reason) && r.state.dev.sp.None?
    ensures os == Opens ==> r.state.dev == Device(Some(Handle(s.world.nextHandle, port, baud)), true)
    ensures os == Opens ==>
      r.state.world.log == s.world.log + Teardown(s.dev)
                           + [Opened(r.state.dev.sp.value), ReaderStarted(r.state.dev.sp.value)]
    ensures os.Refused? ==> r.state.world.log == s.world.log + Teardown(s.dev)
    ensures os.Refused? ==> r.state.dev == (if s.dev.sp.Some? then Device(None, false) else s.dev)
    ensures r.state.world.nextHandle == s.world.nextHandle + (if os == Opens then 1 else 0)
  {
    var s1 := if s.dev.sp.Some? then Disconnect(s) else s;
    assert s1.world.log == s.world.log + Teardown(s.dev);
    match os
    case Refused(reason) => Connection(s1, Some(reason))
    case Opens =>
      var h := Handle(s1.world.nextHandle, port, baud);
      var w := World(s1.world.nextHandle + 1, s1.world.log + [Opened(h), ReaderStarted(h)]);
      Connection(State(Device(Some(h), true), w), None)
  }

  /** `connect()` with its default arguments. */
  function ConnectWithDefaults(s: State, os: OpenOutcome): (r: Connection)
    ensures r.raised.None? <==> os == Opens
    ensures os == Opens ==> r.state.dev.sp == Some(Handle(s.world.nextHandle, DefaultPort, DefaultBaud))
  {
    Connect(s, DefaultPort, DefaultBaud, os)
  }

  /** After `connect` the invariant still holds: the old port (if any) is
      closed, the new one is the only open port object and the only one a
      reader is bound to, and it is a different object from the old one. */
  lemma ConnectKeepsValid(s: State, port: string, baud: int, os: OpenOutcome)
    requires Valid(s)
    ensures Valid(Connect(s, port, baud, os).state)
    ensures |Replay(Connect(s, port, baud, os).state.world.log).openHandles| <= 1
    ensures s.dev.sp.Some? ==> s.dev.sp.value !in Replay(Connect(s, port, baud, os).state.world.log).openHandles
    ensures os == Opens && s.dev.sp.Some? ==> Connect(s, port, baud, os).state.dev.sp != s.dev.sp
  {
    var s1 := if s.dev.sp.Some? then Disconnect(s) else s;
    assert Valid(s1) && Replay(s1.world.log) == Ledger({}, {});
    var r := Connect(s, port, baud, os);
    if os == Opens {
      var h := r.state.dev.sp.value;
      assert s1.world.log + [Opened(h), ReaderStarted(h)] == (s1.world.log + [Opened(h)]) + [ReaderStarted(h)];
      ReplayAppend(s1.world.log, Opened(h));
      ReplayAppend(s1.world.log + [Opened(h)], ReaderStarted(h));
      assert Replay(r.state.world.log) == Ledger({h}, {h});
    }
  }

  /** The old port is closed strictly before the new one is opened. */
  lemma ConnectClosesBeforeOpening(s: State, port: string, baud: int)
    requires s.dev.sp.Some?
    ensures var log := Connect(s, port, baud, Opens).state.world.log;
            var n := |s.world.log|;
            && |log| == n + 4
            && log[n + 1] == Closed(s.dev.sp.value)
            && log[n + 2] == Opened(Connect(s, port, baud, Opens).state.dev.sp.value)
            && forall i :: n <= i < n + 2 ==> !log[i].Opened?
  {
  }

  /** The command followed by the line terminator. */
  function Frame(cmd: string): (f: string)
    ensures |f| == |cmd| + |LineEnd|
    ensures f[..|cmd|] == cmd && f[|cmd|..] == LineEnd
  {
    cmd + LineEnd
  }

  /** Recovers the command from a framed line, if it is one. */
  function Unframe(f: string): (c: Option<string>)
    ensures c.Some? ==> Frame(c.value) == f
  {
    if |f| >= |LineEnd| && f[|f| - |LineEnd|..] == LineEnd then Some(f[..|f| - |LineEnd|]) else None
  }

  /** Framing loses nothing: the command is recovered from its frame. */
  lemma UnframeFrame(cmd: string)
    ensures Unframe(Frame(cmd)) == Some(cmd)
  {
  }

  /** One write of one character per character of `text`, in order. */
  function CharWrites(h: Handle, text: string): (ws: seq<Event>)
    ensures |ws| == |text|
    ensures forall i :: 0 <= i < |text| ==> ws[i] == Wrote(h, [text[i]])
  {
    if text == [] then [] else [Wrote(h, [text[0]])] + CharWrites(h, text[1..])
  }

  /** The writes `send_cmd(cmd)` issues on port `h` in the given mode. */
  function SerialWrites(h: Handle, cmd: string, mode: WriteMode): (ws: seq<Event>)
    ensures mode == Buffered ==>
      && |ws| == |cmd| + 2
      && (forall i :: 0 <= i < |cmd| ==> ws[i] == Wrote(h, [cmd[i]]))
      && ws[|cmd|] == Wrote(h, "\r")
      && ws[|cmd| + 1] == Wrote(h, "\n")
    ensures mode == Bulk ==> ws == [Wrote(h, Frame(cmd))]
  {
    match mode
    case Buffered =>
      var f := Frame(cmd);
      assert f[|cmd|] == '\r' && f[|cmd| + 1] == '\n';
      CharWrites(h, f)
    case Bulk => [Wrote(h, Frame(cmd))]
  }

  /** `send_cmd(cmd)`: append the writes to the log. The source writes
      through `sp` without checking it, so a held port is required. The
      session itself is left as it was. */
  function SendCmd(s: State, cmd: string, mode: WriteMode): (r: State)
    requires s.dev.sp.Some?
    ensures r.dev == s.dev && r.world.nextHandle == s.world.nextHandle
    ensures r.world.log == s.world.log + SerialWrites(s.dev.sp.value, cmd, mode)
    ensures Replay(r.world.log) == Replay(s.world.log)
    ensures Payload(r.world.log[|s.world.log|..]) == Frame(cmd)
  {
    var ws := SerialWrites(s.dev.sp.value, cmd, mode);
    ReplayIgnoresWrites(s.world.log, ws);
    BufferedMatchesBulk(s.dev.sp.value, cmd);
    assert (s.world.log + ws)[|s.world.log|..] == ws;
    State(s.dev, s.world.(log := s.world.log + ws))
  }

  lemma {:induction false} PayloadCharWrites(h: Handle, text: string)
    ensures Payload(CharWrites(h, text)) == text
    decreases |text|
  {
    if text != [] {
      var ws := CharWrites(h, text);
      assert ws[1..] == CharWrites(h, text[1..]);
      PayloadCharWrites(h, text[1..]);
      assert text == [text[0]] + text[1..];
    }
  }

  /** The buffered writes, concatenated, are the single bulk write: both
      modes send `cmd + "\r\n"`. */
  lemma BufferedMatchesBulk(h: Handle, cmd: string)
    ensures Payload(SerialWrites(h, cmd, Buffered)) == Frame(cmd)
    ensures Payload(SerialWrites(h, cmd, Bulk)) == Frame(cmd)
  {
    PayloadCharWrites(h, Frame(cmd));
    assert Payload([Wrote(h, Frame(cmd))]) == Frame(cmd) + Payload([]);
  }

  /** One call the request side makes on the session. `send_cmd` writes in
      the mode `BUFFERED_WRITE` selects. */
  datatype Op =
    | ConnectOp(port: string, baud: int, os: OpenOutcome)
    | DisconnectOp
    | SendOp(cmd: string)

  /** What one call leaves behind, and whether it raised out of the
      session. */
  datatype Applied = Applied(state: State, raised: bool)

  /** Applies one call. A refused open raises out of `connect` after the
      teardown. With no port object held, `disconnect` lowers the flag and
      then raises on `self.sp.close()`, and `send_cmd` raises on its first
      `self.sp.write`, before anything is written. */
  function Apply(s: State, op: Op): (r: Applied)
    ensures r.raised <==> (op.ConnectOp? && op.os.Refused?) || (!op.ConnectOp? && s.dev.sp.None?)
    ensures op.ConnectOp? ==> r.state == Connect(s, op.port, op.baud, op.os).state
    ensures op.DisconnectOp? && s.dev.sp.Some? ==> r.state == Disconnect(s)
    ensures op.SendOp? && s.dev.sp.Some? ==> r.state == SendCmd(s, op.cmd, ConfiguredMode())
    ensures op.SendOp? && s.dev.sp.None? ==> r.state == s
    ensures op.DisconnectOp? && s.dev.sp.None? ==> r.state.world.log == s.world.log + [StopSignalled]
    ensures op.DisconnectOp? ==> r.state.dev == Device(None, false)
    ensures op.SendOp? ==> r.state.dev == s.dev
    ensures !op.ConnectOp? ==>
      && r.state.world.nextHandle == s.world.nextHandle
      && |s.world.log| <= |r.state.world.log|
      && r.state.world.log[..|s.world.log|] == s.world.log
    ensures op.SendOp? && s.dev.sp.Some? ==>
      Payload(r.state.world.log[|s.world.log|..]) == Frame(op.cmd)
    ensures !op.ConnectOp? && s.dev.sp.None? ==>
      Replay(r.state.world.log).openHandles == Replay(s.world.log).openHandles
  {
    ReplayAppend(s.world.log, StopSignalled);
    var r := Dispatch(s, op);
    assert !op.ConnectOp? ==> r.state.world.log[..|s.world.log|] == s.world.log;
    r
  }

  /** The dispatch `Apply` describes. */
  function Dispatch(s: State, op: Op): Applied
  {
    match op
    case ConnectOp(port, baud, os) =>
      var c := Connect(s, port, baud, os);
      Applied(c.state, c.raised.Some?)
    case DisconnectOp =>
      if s.dev.sp.Some? then Applied(Disconnect(s), false)
      else Applied(State(Device(None, false), s.world.(log := s.world.log + [StopSignalled])), true)
    case SendOp(cmd) =>
      if s.dev.sp.Some? then Applied(SendCmd(s, cmd, ConfiguredMode()), false)
      else Applied(s, true)
  }

  /** A sequence of calls. A call that raises fails only that request, so
      the next call starts from the state it left behind. */
  function Run(s: State, ops: seq<Op>): State
    decreases |ops|
  {
    if ops == [] then s else Run(Dispatch(s, ops[0]).state, ops[1..])
  }

  lemma ApplyKeepsValid(s: State, op: Op)
    requires Valid(s)
    ensures Valid(Apply(s, op).state)
  {
    match op
    case ConnectOp(port, baud, os) => ConnectKeepsValid(s, port, baud, os);
    case DisconnectOp =>
      if s.dev.sp.None? {
        ReplayAppend(s.world.log, StopSignalled);
      }
    case SendOp(cmd) =>
  }

  /** Whatever sequence of calls the request side makes, whether or not
      some of them raise, every state it reaches holds at most one open port
      object and at most one reader that may still run, bound to that same
      object. */
  lemma {:induction false} RunKeepsValid(s: State, ops: seq<Op>)
    requires Valid(s)
    ensures Valid(Run(s, ops))
    ensures var l := Replay(Run(s, ops).world.log);
      |l.openHandles| <= 1 && l.readers == l.openHandles
    decreases |ops|
  {
    if ops != [] {
      ApplyKeepsValid(s, ops[0]);
      RunKeepsValid(Apply(s, ops[0]).state, ops[1..]);
    }
  }

  /** What one iteration of `read_thread` sees: the value of
      `let_thread_run` when the loop condition is evaluated (the flag is
      shared with `connect`/`disconnect` on another thread), `in_waiting`
      on the port, and the line `readline` would return. */
  datatype Poll = Poll(runFlag: bool, inWaiting: nat, line: string)

  /** The number of iterations `read_thread` runs: up to the first poll
      that sees the flag down. */
  function FirstStop(polls: seq<Poll>): (k: nat)
    ensures k <= |polls|
  {
    if polls == [] || !polls[0].runFlag then 0 else 1 + FirstStop(polls[1..])
  }

  /** `FirstStop` is the index of the first poll that sees the flag down,
      or the number of polls if none does; and no other index is. */
  lemma {:induction false} FirstStopIsFirst(polls: seq<Poll>, i: nat)
    requires i <= |polls|
    ensures (forall j :: 0 <= j < i ==> polls[j].runFlag) && (i < |polls| ==> !polls[i].runFlag)
            <==> FirstStop(polls) == i
    decreases i
  {
    if i > 0 && polls[0].runFlag {
      var tail := polls[1..];
      FirstStopIsFirst(tail, i - 1);
      if forall j :: 0 <= j < i ==> polls[j].runFlag {
        forall j | 0 <= j < i - 1 ensures tail[j].runFlag {
          assert tail[j] == polls[j + 1];
        }
      }
      if forall j :: 0 <= j < i - 1 ==> tail[j].runFlag {
        forall j | 0 <= j < i ensures polls[j].runFlag {
          if j > 0 { assert polls[j] == tail[j - 1]; }
        }
      }
      if i < |polls| { assert tail[i - 1] == polls[i]; }
    }
  }

  /** Reference definition: the lines the reader forwards. */
  function Forwarded(polls: seq<Poll>): (lines: seq<string>)
    ensures |lines| <= FirstStop(polls) <= |polls|
  {
    if polls == [] || !polls[0].runFlag then []
    else (if polls[0].inWaiting > 0 then [polls[0].line] else []) + Forwarded(polls[1..])
  }

  /** Nothing after the first poll that sees the flag down is forwarded. */
  lemma {:induction false} ForwardedStopsAtFlag(polls: seq<Poll>, k: nat)
    requires k < |polls| && !polls[k].runFlag
    ensures Forwarded(polls) == Forwarded(polls[..k])
    decreases k
  {
    if k > 0 && polls[0].runFlag {
      ForwardedStopsAtFlag(polls[1..], k - 1);
      assert polls[..k][1..] == polls[1..][..k - 1];
    }
  }

  /** While the flag stays up, the reader forwards the lines of successive
      stretches one after the other, each exactly once. */
  lemma {:induction false} ForwardedConcat(a: seq<Poll>, b: seq<Poll>)
    requires forall j :: 0 <= j < |a| ==> a[j].runFlag
    ensures Forwarded(a + b) == Forwarded(a) + Forwarded(b)
    decreases |a|
  {
    if a != [] {
      assert (a + b)[0] == a[0];
      assert (a + b)[1..] == a[1..] + b;
      ForwardedConcat(a[1..], b);
      var head := if a[0].inWaiting > 0 then [a[0].line] else [];
      assert Forwarded(a + b) == head + Forwarded(a[1..] + b);
      assert Forwarded(a) == head + Forwarded(a[1..]);
    } else {
      assert a + b == b;
    }
  }

  /** The iterations, among `polls`, on which bytes are waiting, in order. */
  function WaitingAt(polls: seq<Poll>): seq<nat>
  {
    if polls == [] then []
    else
      var n := |polls| - 1;
      WaitingAt(polls[..n]) + (if polls[n].inWaiting > 0 then [n] else [])
  }

  /** Every index `WaitingAt` lists is an iteration with bytes waiting. */
  lemma {:induction false} WaitingAtSound(polls: seq<Poll>)
    ensures forall k :: 0 <= k < |WaitingAt(polls)| ==>
      WaitingAt(polls)[k] < |polls| && polls[WaitingAt(polls)[k]].inWaiting > 0
    decreases |polls|
  {
    if polls != [] {
      var n := |polls| - 1;
      var front := WaitingAt(polls[..n]);
      WaitingAtSound(polls[..n]);
      assert forall k :: 0 <= k < |front| ==> polls[front[k]] == polls[..n][front[k]];
    }
  }

  /** `WaitingAt` lists its indices in strictly increasing order. */
  lemma {:induction false} WaitingAtIncreasing(polls: seq<Poll>)
    ensures forall k, l :: 0 <= k < l < |WaitingAt(polls)| ==> WaitingAt(polls)[k] < WaitingAt(polls)[l]
    decreases |polls|
  {
    if polls != [] {
      var n := |polls| - 1;
      WaitingAtIncreasing(polls[..n]);
      WaitingAtSound(polls[..n]);
    }
  }

  /** Every iteration with bytes waiting is listed by `WaitingAt`. */
  lemma {:induction false} WaitingAtComplete(polls: seq<Poll>)
    ensures forall j :: 0 <= j < |polls| && polls[j].inWaiting > 0 ==> j in WaitingAt(polls)
    decreases |polls|
  {
    if polls != [] {
      var n := |polls| - 1;
      WaitingAtComplete(polls[..n]);
      assert forall j :: 0 <= j < n ==> polls[..n][j] == polls[j];
    }
  }

  /** `WaitingAt` lists every iteration with bytes waiting, and only those,
      each once and in increasing order. */
  lemma WaitingAtExact(polls: seq<Poll>)
    ensures var idx := WaitingAt(polls);
      && (forall k :: 0 <= k < |idx| ==> idx[k] < |polls| && polls[idx[k]].inWaiting > 0)
      && (forall k, l :: 0 <= k < l < |idx| ==> idx[k] < idx[l])
      && (forall j :: 0 <= j < |polls| && polls[j].inWaiting > 0 ==> j in idx)
  {
    WaitingAtSound(polls);
    WaitingAtIncreasing(polls);
    WaitingAtComplete(polls);
  }

  /** One iteration of the reader with the flag up: it forwards this
      poll's line if bytes are waiting, and records the read. */
  lemma ReaderStep(polls: seq<Poll>, i: nat)
    requires i < |polls| && polls[i].runFlag
    requires forall j :: 0 <= j < i ==> polls[j].runFlag
    ensures Forwarded(polls[..i + 1]) ==
      Forwarded(polls[..i]) + (if polls[i].inWaiting > 0 then [polls[i].line] else [])
    ensures WaitingAt(polls[..i + 1]) ==
      WaitingAt(polls[..i]) + (if polls[i].inWaiting > 0 then [i] else [])
  {
    assert polls[..i + 1] == polls[..i] + [polls[i]];
    assert polls[..i + 1][..i] == polls[..i];
    ForwardedConcat(polls[..i], [polls[i]]);
    assert [polls[i]][1..] == [];
  }

  /** What the reader has done after `i` iterations, all with the flag up:
      `readAt` holds the iterations that found bytes waiting, and `sent` the
      lines read at them, one for one. */
  predicate ReaderSoFar(polls: seq<Poll>, i: nat, sent: seq<string>, readAt: seq<nat>)
  {
    && i <= |polls|
    && (forall j :: 0 <= j < i ==> polls[j].runFlag)
    && readAt == WaitingAt(polls[..i])
    && sent == Forwarded(polls[..i])
    && |sent| == |readAt|
    && (forall k :: 0 <= k < |readAt| ==> readAt[k] < i && sent[k] == polls[readAt[k]].line)
  }

  /** One more iteration with the flag up keeps `ReaderSoFar`. */
  lemma ReaderAdvance(polls: seq<Poll>, i: nat, sent: seq<string>, readAt: seq<nat>)
    requires ReaderSoFar(polls, i, sent, readAt)
    requires i < |polls| && polls[i].runFlag
    ensures polls[i].inWaiting > 0 ==> ReaderSoFar(polls, i + 1, sent + [polls[i].line], readAt + [i])
    ensures polls[i].inWaiting == 0 ==> ReaderSoFar(polls, i + 1, sent, readAt)
  {
    ReaderStep(polls, i);
  }

  /** What the reader has done when its loop condition first fails at
      iteration `i`. */
  lemma LoopExit(polls: seq<Poll>, i: nat, sent: seq<string>, readAt: seq<nat>)
    requires ReaderSoFar(polls, i, sent, readAt)
    requires i < |polls| ==> !polls[i].runFlag
    ensures i == FirstStop(polls)
    ensures sent == Forwarded(polls)
  {
    FirstStopIsFirst(polls, i);
    if i < |polls| {
      ForwardedStopsAtFlag(polls, i);
    } else {
      assert polls[..i] == polls;
    }
  }

  /** `read_thread(sp_shared)` over the polls it makes: while the flag is
      up, read a line when bytes are waiting and publish it. Returns the
      published lines, the index of the poll each was read at, and whether
      the loop exited (it keeps polling if no poll sees the flag down).
      `WaitingAtExact` and `FirstStopIsFirst` spell out which polls those
      indices are. */
  method ReadThread(polls: seq<Poll>) returns (sent: seq<string>, readAt: seq<nat>, stopped: bool)
    ensures stopped <==> FirstStop(polls) < |polls|
    ensures readAt == WaitingAt(polls[..FirstStop(polls)])
    ensures |sent| == |readAt| &&
      forall k :: 0 <= k < |readAt| ==> readAt[k] < FirstStop(polls) && sent[k] == polls[readAt[k]].line
    ensures sent == Forwarded(polls)
  {
    sent, readAt := [], [];
    var i := 0;
    while i < |polls| && polls[i].runFlag
      invariant ReaderSoFar(polls, i, sent, readAt)
    {
      ReaderAdvance(polls, i, sent, readAt);
      if polls[i].inWaiting > 0 {
        sent := sent + [polls[i].line];
        readAt := readAt + [i];
      }
      i := i + 1;
    }
    stopped := i < |polls|;
    LoopExit(polls, i, sent, readAt);
  }
}
