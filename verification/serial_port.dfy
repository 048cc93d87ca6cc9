/**
  The serial-port side of the world as the device session sees it: port
  objects returned by pyserial, and the ordered log of everything the
  session does to them. The port itself (opening, the bytes it holds) is an
  oracle; only the session's own actions are recorded.
 */
module SerialPort {

  /** A port object returned by `serial.Serial(port, baud)`. Every successful
      open yields a new object, told apart from earlier ones by `id`. */
  datatype Handle = Handle(id: nat, port: string, baud: int)

  /** What the operating system does when asked to open `(port, baud)`:
      either it hands back a port object, or pyserial raises. */
  datatype OpenOutcome = Opens | Refused(reason: string)

  /** One observable effect of the session, in the order it happens. */
  datatype Event =
    | Opened(h: Handle)
    | Closed(h: Handle)
      /** `let_thread_run` cleared: every running reader stops at its next check. */
    | StopSignalled
      /** A `read_thread` started with `h` as its port. */
    | ReaderStarted(h: Handle)
    | Wrote(h: Handle, data: string)

  /** Which port objects are open, and which readers may still be running. */
  datatype Ledger = Ledger(openHandles: set<Handle>, readers: set<Handle>)

  function Track(l: Ledger, e: Event): Ledger
  {
    match e
    case Opened(h) => l.(openHandles := l.openHandles + {h})
    case Closed(h) => l.(openHandles := l.openHandles - {h})
    case StopSignalled => l.(readers := {})
    case ReaderStarted(h) => l.(readers := l.readers + {h})
    case Wrote(_, _) => l
  }

  /** The ledger left behind by a log, replayed from an empty one. */
  function Replay(log: seq<Event>): Ledger
  {
    if log == [] then Ledger({}, {})
    else Track(Replay(log[..|log| - 1]), log[|log| - 1])
  }

  lemma ReplayAppend(log: seq<Event>, e: Event)
    ensures Replay(log + [e]) == Track(Replay(log), e)
  {
  }

  /** Writes neither open, close nor stop anything. */
  lemma {:induction false} ReplayIgnoresWrites(log: seq<Event>, ws: seq<Event>)
    requires forall i :: 0 <= i < |ws| ==> ws[i].Wrote?
    ensures Replay(log + ws) == Replay(log)
    decreases |ws|
  {
    if ws != [] {
      var front := ws[..|ws| - 1];
      ReplayIgnoresWrites(log, front);
      assert ws == front + [ws[|ws| - 1]];
      assert log + ws == (log + front) + [ws[|ws| - 1]];
      ReplayAppend(log + front, ws[|ws| - 1]);
    } else {
      assert log + ws == log;
    }
  }

  /** The characters that reached the device through a log, in order. */
  function Payload(log: seq<Event>): string
  {
    if log == [] then ""
    else (if log[0].Wrote? then log[0].data else "") + Payload(log[1..])
  }
}
