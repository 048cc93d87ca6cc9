/**
  The websocket command handler (`api/websocket_handler.py`): its initial
  state, and `handle_commands`, which routes one inbound text message.

  `json.loads` is an oracle: its outcome arrives as a `Parsed` value. The
  two device methods the handler calls (`write_raw_data`, `process_cmd`)
  are not part of this model; their calls are recorded in order instead.
 */
module WebsocketHandler {
  import opened Base
  import SeekrDevice

  /** A decoded JSON document. Numbers keep their literal text. */
  datatype Json =
    | JNull
    | JBool(b: bool)
    | JNumber(literal: string)
    | JString(s: string)
    | JArray(items: seq<Json>)
    | JObject(fields: map<string, Json>)

  /** What `json.loads(data)` does: raise `ValueError`, or return a value. */
  datatype Parsed = NotJson | Decoded(value: Json)

  /** A call the handler makes on its `SEEKR_Device`. */
  datatype DeviceCall = WriteRawData(data: string) | ProcessCmd(json: Json)

  /** One entry of pyserial's port enumeration. */
  datatype PortInfo = PortInfo(device: string, desc: string, hwid: string)

  datatype Handler = Handler(
    serialportConnected: bool,
    serialportPort: string,
    serialportPortList: seq<PortInfo>,
    seekr: SeekrDevice.Device)

  /** `WebsocketHandler.__init__`, given the ports the OS enumerates: not
      connected, no port name, and a new device session. */
  function NewHandler(ports: seq<PortInfo>): (h: Handler)
    ensures !h.serialportConnected && h.serialportPort == ""
    ensures h.serialportPortList == ports
    ensures h.seekr.sp.None? && !h.seekr.letThreadRun
  {
    Handler(false, "", ports, SeekrDevice.NewDevice())
  }

  /** How `handle_commands` ends: it returns a boolean, or the `"cmd" in`
      test raises `TypeError`. */
  datatype Outcome = Returned(ok: bool) | RaisedTypeError

  datatype Handled = Handled(handler: Handler, calls: seq<DeviceCall>, outcome: Outcome)

  /** Python's `key in s` on two strings. */
  predicate IsSubstring(key: string, s: string)
    decreases |s|
  {
    key <= s || (s != [] && IsSubstring(key, s[1..]))
  }

  /** `key` occurs in `s` starting at index `i`. */
  predicate OccursAt(key: string, s: string, i: int)
  {
    0 <= i && i + |key| <= |s| && s[i..i + |key|] == key
  }

  /** `IsSubstring` is the substring test: `key` occurs somewhere in `s`. */
  lemma {:induction false} IsSubstringOccurs(key: string, s: string)
    ensures IsSubstring(key, s) <==> exists i :: OccursAt(key, s, i)
    decreases |s|
  {
    assert OccursAt(key, s, 0) <==> key <= s by {
      assert |key| <= |s| ==> s[0..|key|] == s[..|key|];
    }
    if key <= s {
      assert OccursAt(key, s, 0);
    } else if s != [] {
      IsSubstringOccurs(key, s[1..]);
      if i :| OccursAt(key, s[1..], i) {
        assert s[i + 1..i + 1 + |key|] == s[1..][i..i + |key|];
        assert OccursAt(key, s, i + 1);
      }
      if i :| OccursAt(key, s, i) {
        assert s[1..][i - 1..i - 1 + |key|] == s[i..i + |key|];
        assert OccursAt(key, s[1..], i - 1);
      }
    }
  }

  /** Python's `key in v` for a decoded JSON value: key membership for a
      dict, element equality for a list, substring for a str; `None` where
      Python raises `TypeError` (numbers, booleans, `None`). */
  function PyContains(key: string, v: Json): (r: Option<bool>)
    ensures r.None? <==> v.JNull? || v.JBool? || v.JNumber?
    ensures v.JObject? ==> r == Some(key in v.fields)
    ensures v.JArray? ==> r == Some(JString(key) in v.items)
    ensures v.JString? ==> (r == Some(true) <==> exists i :: OccursAt(key, v.s, i))
  {
    match v
    case JObject(fields) => Some(key in fields)
    case JArray(items) => Some(JString(key) in items)
    case JString(s) => IsSubstringOccurs(key, s); Some(IsSubstring(key, s))
    case _ => None
  }

  /** `handle_commands(data, ws)` as written. */
  function HandleCommands(h: Handler, data: string, parsed: Parsed): (r: Handled)
    ensures r.handler == h
    ensures |r.calls| <= 1
    ensures r.outcome == Returned(false) <==> parsed.NotJson?
    ensures parsed.NotJson? ==> r.calls == [WriteRawData(data)]
    ensures parsed.Decoded? && parsed.value.JObject? ==>
      && r.outcome == Returned(true)
      && r.calls == (if "cmd" in parsed.value.fields then [ProcessCmd(parsed.value)] else [])
    ensures parsed.Decoded? ==>
      (r.outcome == RaisedTypeError <==> parsed.value.JNull? || parsed.value.JBool? || parsed.value.JNumber?)
    ensures parsed.Decoded? && r.outcome == RaisedTypeError ==> r.calls == []
    ensures parsed.Decoded? && parsed.value.JArray? ==>
      && r.outcome == Returned(true)
      && r.calls == (if JString("cmd") in parsed.value.items then [ProcessCmd(parsed.value)] else [])
    ensures parsed.Decoded? && parsed.value.JString? ==>
      && r.outcome == Returned(true)
      && (r.calls == [ProcessCmd(parsed.value)] <==> exists i :: OccursAt("cmd", parsed.value.s, i))
      && (r.calls == [] <==> !exists i :: OccursAt("cmd", parsed.value.s, i))
    ensures forall c :: c in r.calls && c.ProcessCmd? ==> parsed == Decoded(c.json)
  {
    match parsed
    case NotJson => Handled(h, [WriteRawData(data)], Returned(false))
    case Decoded(v) =>
      match PyContains("cmd", v)
      case None => Handled(h, [], RaisedTypeError)
      case Some(found) => Handled(h, if found then [ProcessCmd(v)] else [], Returned(true))
  }

  /** A JSON number is valid input to `json.loads`, yet `"cmd" in 42`
      raises `TypeError` out of the handler; the intended handler returns
      `True` and calls nothing. */
  lemma ScalarMessageRaises(h: Handler)
    ensures HandleCommands(h, "42", Decoded(JNumber("42"))).outcome == RaisedTypeError
    ensures HandleCommandsIntended(h, "42", Decoded(JNumber("42"))) == Handled(h, [], Returned(true))
  {
  }

  /** A JSON string that merely contains the letters `cmd` is handed to
      `process_cmd` as if it were a command object. */
  lemma StringMessageForwarded(h: Handler)
    ensures HandleCommands(h, "\"cmdline\"", Decoded(JString("cmdline"))).calls == [ProcessCmd(JString("cmdline"))]
    ensures HandleCommandsIntended(h, "\"cmdline\"", Decoded(JString("cmdline"))).calls == []
  {
  }

  /** `handle_commands` as evidently intended: only a JSON object with a
      `"cmd"` key is a command; every other JSON value is accepted and
      ignored, and nothing raises. */
  function HandleCommandsIntended(h: Handler, data: string, parsed: Parsed): (r: Handled)
    ensures r.handler == h && r.outcome.Returned?
    ensures r.outcome.ok <==> parsed.Decoded?
    ensures parsed.NotJson? ==> r.calls == [WriteRawData(data)]
    ensures parsed.Decoded? ==>
      r.calls == (if parsed.value.JObject? && "cmd" in parsed.value.fields then [ProcessCmd(parsed.value)] else [])
  {
    match parsed
    case NotJson => Handled(h, [WriteRawData(data)], Returned(false))
    case Decoded(v) =>
      Handled(h, if v.JObject? && "cmd" in v.fields then [ProcessCmd(v)] else [], Returned(true))
  }

  /** On everything but a non-object JSON value the two agree. */
  lemma IntendedAgreesOnObjects(h: Handler, data: string, parsed: Parsed)
    requires parsed.NotJson? || parsed.value.JObject?
    ensures HandleCommands(h, data, parsed) == HandleCommandsIntended(h, data, parsed)
  {
  }
}
