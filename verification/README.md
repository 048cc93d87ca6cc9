# SEEKR serial bridge: device session and command routing

A Dafny model of the two pieces of sequential logic in the Python API of the
SEEKR serial-port bridge:

- **The device session** (`SEEKR_Device` in `api/seekr_device.py`). This is an optional
  pyserial port object `sp` plus the cooperative run flag `let_thread_run`.
  `connect` first disconnects a port it already holds. It then opens
  `(port, baud)`, raises the flag and starts one `read_thread` bound to the
  new port object. `disconnect` clears the flag, closes the port and forgets
  it. `send_cmd` appends `"\r\n"` and writes either one character at a time
  (`BUFFERED_WRITE`, the configured mode) or in one write. `read_thread` loops
  while the flag is up and publishes one line each time bytes are waiting.
- **Inbound message routing** (`WebsocketHandler.handle_commands` in
  `api/websocket_handler.py`). A message that is not JSON is passed to
  `write_raw_data` and the handler returns `False`. A JSON object, list or
  string containing `"cmd"` (a key, an element or a substring, as Python's
  `in` reads each) is passed to `process_cmd` and the handler returns `True`.
  An object, list or string without `"cmd"` is ignored and the handler
  returns `True`. A JSON number, boolean or `null` makes `in` raise
  `TypeError` out of the handler (see Findings).

Modules:

- `Base` holds `Option`.
- `SerialPort` holds the port objects and the event log of what the session
  does to them: opened, closed, reader started, stop signalled, characters
  written. A `Ledger` replays that log into the set of open port objects and
  the set of readers that may still run.
- `SeekrDevice` holds the session as an immutable `State`. The state is made
  of the `Device` record and a `World`. The world holds a counter that makes
  every opened port object new, plus the event log.
- `WebsocketHandler` holds the handler record, decoded JSON values and the
  router.

Outside influences are parameters:

- Whether the OS lets `serial.Serial(port, baud)` open is an `OpenOutcome`.
- The result of `json.loads` is a `Parsed` value.
- What the reader thread observes on each loop iteration is a `Poll`: the
  flag as another thread last set it, `in_waiting`, and the line `readline`
  returns.
- The port enumeration used by `WebsocketHandler.__init__` is a sequence of
  `PortInfo`.

Facts about the Python code that shape the model:

- `disconnect` and `send_cmd` use `sp` without checking it
  (`api/seekr_device.py:75`, `:90`, `:94`). With no port object held,
  `disconnect` lowers the flag and then raises `AttributeError` on
  `self.sp.close()`, so a second `disconnect` raises. `send_cmd` raises on its
  first write. `Disconnect` and `SendCmd` therefore require a held port object.
  `Apply` models the raising calls and reports them.
- A JSON object, list or string without `"cmd"` is not forwarded to the
  device. The handler only returns `True`. A JSON number, boolean or `null`
  is not forwarded either: `"cmd" in json_data` (`api/websocket_handler.py:50`)
  raises `TypeError` on it (see Findings).
- `read_thread` catches no exceptions, and it does not itself tear the
  session down.
- A failed open inside `connect` leaves the session torn down, with no port
  object and the flag down, and the exception propagates to the caller.
  `Connect` returns the exception text in `raised` together with that state.

## Model

| member | source | states |
|---|---|---|
| `SeekrDevice.NewDevice` | api/seekr_device.py:22-30 | A new session holds no port object and its run flag is down |
| `SeekrDevice.NewDeviceValid` | api/seekr_device.py:29-30 | A new session, in a world where it has opened nothing, satisfies the resource invariant `Valid` |
| `SeekrDevice.Disconnect` | api/seekr_device.py:70-76 | Requires a held port object. Afterwards the flag is down and `sp` is `None`. The log gains exactly the stop signal followed by the close of that port object, in that order. Exactly that object leaves the set of open ones, every reader has been told to stop, and the earlier log is kept as a prefix |
| `SeekrDevice.DisconnectKeepsValid` | api/seekr_device.py:70-76 | From a valid state, `disconnect` leaves no open port object and no reader that may still run |
| `SeekrDevice.Connect` | api/seekr_device.py:48-68 | Returns no exception exactly when the open succeeds. On success, `sp` is a new port object opened at exactly `(port, baud)`, the flag is up, and the log gains the teardown of the old port, the open, and one reader start bound to that same object. On failure, only the teardown happens and the exception is reported. No port object is held, and the flag is down if a port was held before (otherwise the session is unchanged). Only a successful open uses up a new port-object identity |
| `SeekrDevice.ConnectWithDefaults` | api/seekr_device.py:48 | `connect()` with no arguments opens `/dev/tty.usbserial-FTDVSTTW` at 115200 baud, and raises exactly when that open is refused |
| `SeekrDevice.ConnectKeepsValid` | api/seekr_device.py:56-68 | `connect` keeps the invariant. At most one port object is open afterwards, the previously held one is closed, and after a successful reopen the held object differs from the old one |
| `SeekrDevice.ConnectClosesBeforeOpening` | api/seekr_device.py:56-61 | When a port object is already held, its close comes before the open of the new one, and nothing is opened before that close |
| `SeekrDevice.Frame` | api/seekr_device.py:86 | The framed line is the command followed by `"\r\n"`, two characters longer |
| `SeekrDevice.UnframeFrame` | api/seekr_device.py:86 | Framing is lossless: stripping the terminator recovers the command |
| `SeekrDevice.CharWrites` | api/seekr_device.py:89-91 | One write per character, each of that single character, in order |
| `SeekrDevice.SerialWrites` | api/seekr_device.py:84-94 | In buffered mode there are exactly len(cmd)+2 one-character writes spelling `cmd`, then `'\r'`, then `'\n'`. In bulk mode there is a single write of `cmd + "\r\n"` |
| `SeekrDevice.SendCmd` | api/seekr_device.py:78-94 | Requires a held port object. The session is unchanged, only writes are appended, no port is opened or closed, and the characters written are exactly `cmd + "\r\n"` |
| `SeekrDevice.BufferedMatchesBulk` | api/seekr_device.py:84-94 | Concatenated, the buffered-mode writes equal the single bulk-mode write |
| `SeekrDevice.Apply` | api/seekr_device.py:48-94 | A call raises exactly when the open is refused, or when it is `disconnect` or `send_cmd` with no port object held. A `connect`, raising or not, leaves the state `Connect` describes. With a port object held, `disconnect` and `send_cmd` leave exactly the states `Disconnect` and `SendCmd` (in the configured write mode) describe, so the held port is closed or `cmd + "\r\n"` is written and nothing is opened. After any `disconnect` no port object is held and the flag is down. `send_cmd` leaves the session as it was. Neither keeps less than the earlier log, and one that raises closes nothing. A `send_cmd` that raises changes nothing, and a `disconnect` that raises only logs the stop signal |
| `SeekrDevice.RunKeepsValid` | api/seekr_device.py:48-94 | After any sequence of `connect`/`disconnect`/`send_cmd` calls from a valid state, including calls that raise, at most one port object is open, and the readers that may run are exactly those bound to it |
| `SeekrDevice.FirstStopIsFirst` | api/seekr_device.py:128 | The number of iterations the loop runs is exactly the index of the first poll that sees the flag down (all polls if none does), and no other index has that property |
| `SeekrDevice.WaitingAtExact` | api/seekr_device.py:131-134 | The reads fall exactly on the iterations where bytes are waiting, each once, in increasing order |
| `SeekrDevice.Forwarded` | api/seekr_device.py:128-140 | Reference definition of the published lines. There are never more of them than iterations the loop runs, which is the index of the first poll that sees the flag down |
| `SeekrDevice.ForwardedStopsAtFlag` | api/seekr_device.py:128 | Nothing observed after the flag is seen down is published |
| `SeekrDevice.ForwardedConcat` | api/seekr_device.py:128-140 | While the flag stays up, consecutive stretches of input publish their lines one after the other, each once |
| `SeekrDevice.ReadThread` | api/seekr_device.py:122-140 | Over polls where no call raises, the loop exits exactly when some iteration sees the flag down. The reads are the iterations with bytes waiting among those that run, which `WaitingAtExact` shows to be exact. Each published line is the line read at the matching iteration, one for one and in read order, and together they equal the reference `Forwarded` |
| `WebsocketHandler.NewHandler` | api/websocket_handler.py:13-24 | Initially not connected, with port name `""`, the enumerated port list, and a new device session |
| `WebsocketHandler.PyContains` | api/websocket_handler.py:50 | `"cmd" in v` means key membership for an object, element membership for a list, and an occurrence anywhere in the text for a string. It raises `TypeError` exactly for numbers, booleans and `null` |
| `WebsocketHandler.IsSubstringOccurs` | api/websocket_handler.py:50 | Python's `in` on two strings holds exactly when the key occurs at some index of the text |
| `WebsocketHandler.HandleCommands` | api/websocket_handler.py:35-54 | Non-JSON input causes one `write_raw_data` call with the text unchanged and returns `False`. An object is forwarded to `process_cmd` exactly when it has a `"cmd"` key. A list is forwarded exactly when it has the element `"cmd"`. A string is forwarded exactly when `cmd` occurs in it. In these three cases the result is `True`. A number, boolean or `null` raises `TypeError` with no call. There is at most one device call per message, and it carries the decoded value. The result is `False` exactly when parsing failed. The connected flag and port name are unchanged |
| `WebsocketHandler.ScalarMessageRaises` | api/websocket_handler.py:50 | The message `42` makes the handler as written raise `TypeError`, while the intended handler returns `True` |
| `WebsocketHandler.StringMessageForwarded` | api/websocket_handler.py:50-52 | The JSON string `"cmdline"` is passed to `process_cmd` by the handler as written and ignored by the intended one |
| `WebsocketHandler.HandleCommandsIntended` | api/websocket_handler.py:35-54 | Never raises. Only an object with a `"cmd"` key reaches `process_cmd`. Non-JSON input is written raw and returns `False`; every other JSON value returns `True` with no call |
| `WebsocketHandler.IntendedAgreesOnObjects` | api/websocket_handler.py:39-54 | For non-JSON input and for JSON objects, the handler as written and the intended handler behave the same |

## Left out

- Real threads and the races between `read_thread` and `disconnect`/`connect`.
  The reader is a sequential loop over the flag values it observes. An old
  reader that sees the flag raised again by a reconnect, and then touches its
  closed port object, is not modelled.
- `time.sleep(WRITE_WAIT_TIME)` pacing. Only the number, content and order of
  writes are modelled.
- ASCII encoding and decoding. Characters stand for bytes, and the encode
  failure on non-ASCII characters is not modelled.
- `ws_write` / `ws_write_async` and the connection manager's broadcast. A
  published line is an element of the returned `sent` sequence.
- `get_serial_port_list` and `get_serial_ports`, which are OS queries. The
  port list is a parameter of `NewHandler`.
- `json.loads` itself. Its outcome is the `Parsed` parameter, and no relation
  between the text and the decoded value is modelled.
- `process_cmd` and `write_raw_data`. The `SEEKR_Device` class in
  `api/seekr_device.py:20-140` defines neither, so as written
  `api/websocket_handler.py:45` and `:52` would raise `AttributeError`. The
  model assumes a device class that has both. It records their calls and does
  not model their effects.
- Logging, and the unused `ws` parameter of `handle_commands`.
- SeekrDevice.ReadThread: no iteration raises. In the source, `in_waiting`
  and `readline()` (`api/seekr_device.py:131`, `:134`) can raise
  `SerialException` on an I/O fault or when the port is closed under the
  reader. `decode('Ascii')` (`:137`, `:140`) raises `UnicodeDecodeError` on a
  byte of 0x80 or more. Any of these ends the thread with the flag still up.
  The contract's "exits exactly when an iteration sees the flag down" holds
  only for runs without such a fault.
- SeekrDevice.SendCmd: `sp.write` (`api/seekr_device.py:90`, `:94`) is
  assumed to succeed. A write fault, and the partial output it leaves in
  buffered mode, are not modelled.

## Findings

| source | as written | input that shows it | evidently intended | confidence | as-written member | corrected member |
|---|---|---|---|---|---|---|
| api/websocket_handler.py:50 | `"cmd" in json_data` is applied to whatever `json.loads` returns | the message `42` (likewise `true`, `null`): a valid JSON scalar, for which `in` raises `TypeError` out of `handle_commands` and out of the websocket receive loop | only a JSON object is tested for a `"cmd"` key; other JSON values return `True` with no call | high, not executed | `WebsocketHandler.ScalarMessageRaises` | `WebsocketHandler.HandleCommandsIntended` |
| api/websocket_handler.py:50-52 | for a JSON string, `in` is a substring test | the message `"cmdline"`: `process_cmd` receives a plain string as if it were a command object | strings are not commands | high, not executed | `WebsocketHandler.StringMessageForwarded` | `WebsocketHandler.HandleCommandsIntended` |
