/**
 * The terminal side (`JT808Protocol` in `jt808/protocol.py`): the serial
 * counter, the senders that build a message and write it to the socket, the
 * receive loop and the handlers of the two platform replies. The socket is
 * not modelled: whether `connect` reaches the server is a parameter, what
 * `sendall` writes is appended to `sent`, and what `recv` returns is the
 * argument of `Receive`.
 */
module Protocol {

  import opened Wrappers
  import opened Packing
  import opened Messages
  import opened MessageBuilders
  import opened Framing
  import opened ReceiveLoop
  import Constants
  import Converter

  // ---------------------------------------------------------------------
  // Serial numbers
  // ---------------------------------------------------------------------

  /** Serial numbers are counted modulo 0xFFFF, not 0x10000. */
  const SERIAL_MODULUS: nat := 0xFFFF

  /** `_get_next_serial_no`: the serial after `s`. */
  function NextSerial(s: int): (r: int)
    ensures 0 <= r < SERIAL_MODULUS && FitsU16(r)
  {
    (s + 1) % SERIAL_MODULUS
  }

  /** The serial after `k` calls of `_get_next_serial_no` starting from `s`. */
  function SerialAfter(s: int, k: nat): int
  {
    if k == 0 then s else NextSerial(SerialAfter(s, k - 1))
  }

  /** Division by 0xFFFF has a unique quotient and remainder. */
  lemma ModOf(n: int, q: int, r: int)
    requires n == q * SERIAL_MODULUS + r && 0 <= r < SERIAL_MODULUS
    ensures n % SERIAL_MODULUS == r && n / SERIAL_MODULUS == q
  {
  }

  /** From a serial in range, `k` calls add `k` modulo 0xFFFF. */
  lemma {:induction false} SerialAfterClosedForm(s: int, k: nat)
    requires 0 <= s < SERIAL_MODULUS
    ensures SerialAfter(s, k) == (s + k) % SERIAL_MODULUS
  {
    if k > 0 {
      SerialAfterClosedForm(s, k - 1);
      var p, q := SerialAfter(s, k - 1), (s + k - 1) / SERIAL_MODULUS;
      ModOf(s + k - 1, q, p);
      if p + 1 < SERIAL_MODULUS {
        ModOf(p + 1, 0, p + 1);
        ModOf(s + k, q, p + 1);
      } else {
        ModOf(p + 1, 1, 0);
        ModOf(s + k, q + 1, 0);
      }
    }
  }

  /**
   * No serial is used twice in 0xFFFF consecutive messages, and the
   * 0xFFFF-th one repeats the first: the counter runs through 0..0xFFFE and
   * 0xFFFF is never used.
   */
  lemma SerialPeriod(s: int, i: nat, j: nat)
    requires 0 <= s < SERIAL_MODULUS && i < j
    ensures SerialAfter(s, i) == SerialAfter(s, j) <==> (j - i) % SERIAL_MODULUS == 0
  {
    SerialAfterClosedForm(s, i);
    SerialAfterClosedForm(s, j);
    var d := j - i;
    var a, b, c := (s + i) / SERIAL_MODULUS, (s + j) / SERIAL_MODULUS, d / SERIAL_MODULUS;
    var ri, rj := SerialAfter(s, i), SerialAfter(s, j);
    ModOf(s + i, a, ri);
    ModOf(s + j, b, rj);
    if ri == rj {
      ModOf(d, b - a, 0);
    } else if d % SERIAL_MODULUS == 0 {
      ModOf(d, c, 0);
      ModOf(s + j, a + c, ri);
    }
  }

  /** A fresh protocol's first message has serial 1, and the 0xFFFF-th wraps to 0. */
  lemma FirstSerials()
    ensures SerialAfter(0, 1) == 1
    ensures SerialAfter(0, SERIAL_MODULUS - 1) == SERIAL_MODULUS - 1
    ensures SerialAfter(0, SERIAL_MODULUS) == 0
  {
    SerialAfterClosedForm(0, 1);
    ModOf(1, 0, 1);
    SerialAfterClosedForm(0, SERIAL_MODULUS - 1);
    ModOf(SERIAL_MODULUS - 1, 0, SERIAL_MODULUS - 1);
    SerialAfterClosedForm(0, SERIAL_MODULUS);
    ModOf(SERIAL_MODULUS, 1, 0);
  }

  // ---------------------------------------------------------------------
  // Sending
  // ---------------------------------------------------------------------

  /** What `send_message` writes: the encoded message, when connected and the message encodes. */
  function Transmitted(connected: bool, m: Message, fallback: string): (r: seq<seq<byte>>)
    requires ValidFallback(fallback)
    ensures |r| <= 1 && (|r| == 1 <==> connected && Encodable(m))
  {
    if connected && Encodable(m) then [Encode(m, fallback).value] else []
  }

  /** A message without flags whose id, serial and body length fit 16 bits encodes. */
  lemma PlainEncodable(msgId: int, phoneNo: string, body: seq<byte>, serial: int)
    requires FitsU16(msgId) && FitsU16(serial) && |body| < 0x10000
    ensures Encodable(Plain(msgId, phoneNo, body, serial))
  {
  }

  // ---------------------------------------------------------------------
  // Batches
  // ---------------------------------------------------------------------

  /** The first seven fields of a location tuple, and the eighth (the extra items). */
  datatype LocationFix = LocationFix(
    latitude: Coordinate, longitude: Coordinate, altitude: int, speed: int, direction: int,
    alarmFlag: int, status: int, additionalInfo: seq<(int, InfoValue)>)

  /** A tuple of `size` fields handed to `send_batch_location`; the fields it has are those of `fix`. */
  datatype LocationTuple = LocationTuple(size: nat, fix: LocationFix)

  /** The extra items of a tuple: its eighth field, when it has one. */
  function TupleExtras(t: LocationTuple): seq<(int, InfoValue)>
  {
    if t.size > 7 then t.fix.additionalInfo else []
  }

  /** The report `send_batch_location` builds for one tuple of seven fields or more. */
  function TupleReport(phoneNo: string, t: LocationTuple, timestamp: string, serial: int): Result<Message, PackError>
  {
    LocationReport(phoneNo, t.fix.alarmFlag, t.fix.status, t.fix.latitude, t.fix.longitude,
                   t.fix.altitude, t.fix.speed, t.fix.direction, timestamp, TupleExtras(t), serial)
  }

  /** The number of tuples with at least seven fields. */
  function UsableCount(locations: seq<LocationTuple>): (r: nat)
    ensures r <= |locations|
  {
    if locations == [] then 0
    else UsableCount(locations[..|locations| - 1]) + (if locations[|locations| - 1].size >= 7 then 1 else 0)
  }

  /**
   * The loop of `send_batch_location` from serial `serial`: the bodies of
   * the reports of the usable tuples, or the first builder error, and the
   * serial reached. Each usable tuple consumes a serial even when its report
   * fails.
   */
  function BatchBodies(phoneNo: string, locations: seq<LocationTuple>, timestamp: string, serial: int)
    : (Result<seq<seq<byte>>, PackError>, int)
  {
    if locations == [] then (Ok([]), serial)
    else
      var (before, s) := BatchBodies(phoneNo, locations[..|locations| - 1], timestamp, serial);
      var t := locations[|locations| - 1];
      if before.Err? || t.size < 7 then (before, s)
      else
        match TupleReport(phoneNo, t, timestamp, NextSerial(s))
          case Err(e) => (Err(e), NextSerial(s))
          case Ok(m) => (Ok(before.value + [m.body]), NextSerial(s))
  }

  /**
   * When every report builds, the batch holds one body per usable tuple and
   * the loop consumed exactly one serial per usable tuple.
   */
  lemma {:induction false} BatchBodiesCount(phoneNo: string, locations: seq<LocationTuple>, timestamp: string, serial: int)
    requires BatchBodies(phoneNo, locations, timestamp, serial).0.Ok?
    ensures |BatchBodies(phoneNo, locations, timestamp, serial).0.value| == UsableCount(locations)
    ensures BatchBodies(phoneNo, locations, timestamp, serial).1 == SerialAfter(serial, UsableCount(locations))
  {
    if locations != [] {
      var init := locations[..|locations| - 1];
      BatchBodiesCount(phoneNo, init, timestamp, serial);
      var n := UsableCount(init);
      assert SerialAfter(serial, n + 1) == NextSerial(SerialAfter(serial, n));
    }
  }

  /** A report's body does not depend on its serial. */
  lemma TupleReportBody(phoneNo: string, t: LocationTuple, timestamp: string, s1: int, s2: int)
    ensures TupleReport(phoneNo, t, timestamp, s1).Ok? == TupleReport(phoneNo, t, timestamp, s2).Ok?
    ensures TupleReport(phoneNo, t, timestamp, s1).Ok? ==>
      TupleReport(phoneNo, t, timestamp, s1).value.body == TupleReport(phoneNo, t, timestamp, s2).value.body
    ensures TupleReport(phoneNo, t, timestamp, s1).Err? ==>
      TupleReport(phoneNo, t, timestamp, s1).error == TupleReport(phoneNo, t, timestamp, s2).error
  {
  }

  /** The batch's contents do not depend on the serial the counter stood at. */
  lemma {:induction false} BatchBodiesIgnoreSerial(phoneNo: string, locations: seq<LocationTuple>, timestamp: string, s1: int, s2: int)
    ensures BatchBodies(phoneNo, locations, timestamp, s1).0 == BatchBodies(phoneNo, locations, timestamp, s2).0
  {
    if locations != [] {
      var init := locations[..|locations| - 1];
      BatchBodiesIgnoreSerial(phoneNo, init, timestamp, s1, s2);
      var t := locations[|locations| - 1];
      TupleReportBody(phoneNo, t, timestamp,
                      NextSerial(BatchBodies(phoneNo, init, timestamp, s1).1),
                      NextSerial(BatchBodies(phoneNo, init, timestamp, s2).1));
    }
  }

  /** Tuples with fewer than seven fields are skipped: they add no body and consume no serial. */
  lemma ShortTupleSkipped(phoneNo: string, locations: seq<LocationTuple>, t: LocationTuple, timestamp: string, serial: int)
    requires t.size < 7
    ensures BatchBodies(phoneNo, locations + [t], timestamp, serial) == BatchBodies(phoneNo, locations, timestamp, serial)
    ensures UsableCount(locations + [t]) == UsableCount(locations)
  {
    assert (locations + [t])[..|locations|] == locations;
  }

  /**
   * What `send_batch_location` returns and the state it leaves, from state
   * `st`: the reports' loop, one more serial, then the batch is built and sent.
   */
  function BatchSend(
    phoneNo: string, locations: seq<LocationTuple>, typeId: int, timestamp: string, fallback: string, st: ProtocolState)
    : (r: (Result<bool, PackError>, ProtocolState))
    requires ValidFallback(fallback)
    ensures r.1 == st.(msgSerialNo := r.1.msgSerialNo, sent := r.1.sent)
    ensures !st.connected ==> r.1.sent == st.sent
    ensures r.0.Ok? ==>
      && BatchBodies(phoneNo, locations, timestamp, st.msgSerialNo).0.Ok?
      && r.1.msgSerialNo == NextSerial(BatchBodies(phoneNo, locations, timestamp, st.msgSerialNo).1)
  {
    var (bodies, s) := BatchBodies(phoneNo, locations, timestamp, st.msgSerialNo);
    if bodies.Err? then (Err(bodies.error), st.(msgSerialNo := s))
    else
      var serial := NextSerial(s);
      match BatchUpload(phoneNo, bodies.value, typeId, serial)
        case Err(e) => (Err(e), st.(msgSerialNo := serial))
        case Ok(m) => (Ok(st.connected && Encodable(m)),
                       st.(msgSerialNo := serial, sent := st.sent + Transmitted(st.connected, m, fallback)))
  }

  /**
   * A batch that builds counts exactly the usable tuples in its header and
   * consumes one serial per usable tuple plus one for itself (by
   * `SerialAfterClosedForm`, `(msgSerialNo + count + 1) % 0xFFFF`).
   */
  lemma BatchSendAccounting(
    phoneNo: string, locations: seq<LocationTuple>, typeId: int, timestamp: string, fallback: string, st: ProtocolState)
    requires ValidFallback(fallback)
    requires BatchSend(phoneNo, locations, typeId, timestamp, fallback, st).0.Ok?
    ensures var loop := BatchBodies(phoneNo, locations, timestamp, st.msgSerialNo);
      && loop.0.Ok?
      && var b := BatchUpload(phoneNo, loop.0.value, typeId, NextSerial(loop.1)).value.body;
         b[0] == typeId && BigEndian(b[1..3]) == UsableCount(locations)
    ensures BatchSend(phoneNo, locations, typeId, timestamp, fallback, st).1.msgSerialNo
            == SerialAfter(st.msgSerialNo, UsableCount(locations) + 1)
  {
    var loop := BatchBodies(phoneNo, locations, timestamp, st.msgSerialNo);
    var n := UsableCount(locations);
    BatchBodiesCount(phoneNo, locations, timestamp, st.msgSerialNo);
    BatchHeader(phoneNo, loop.0.value, typeId, NextSerial(loop.1));
    assert SerialAfter(st.msgSerialNo, n + 1) == NextSerial(SerialAfter(st.msgSerialNo, n));
  }

  // ---------------------------------------------------------------------
  // Platform replies
  // ---------------------------------------------------------------------

  /** A general response that `_handle_platform_response` takes as a successful authentication. */
  predicate AcceptsAuthentication(body: seq<byte>)
  {
    |body| == 5 && BigEndian(body[2..4]) == Constants.TERMINAL_AUTH && body[4] == Constants.SUCCESS
  }

  /** The authentication code `_handle_registration_response` takes from a registration response, if any. */
  function RegistrationCode(body: seq<byte>): Option<seq<byte>>
  {
    if |body| > 3 && body[2] == Constants.SUCCESS && 4 + body[3] <= |body| then Some(body[4..4 + body[3]])
    else None
  }

  /** The terminal reads back the code the platform put in a registration response, and only on result 0. */
  lemma RegistrationCodeRoundTrip(m: Message, result: int, code: seq<byte>)
    requires Converter.RegistrationResponse(m, result, code).Ok?
    ensures RegistrationCode(Converter.RegistrationResponse(m, result, code).value.body)
            == (if result == Constants.SUCCESS then Some(code) else None)
  {
    var b := Converter.RegistrationResponse(m, result, code).value.body;
    assert b[4..4 + b[3]] == b[4..];
  }

  /**
   * Against the converter: the reply to a registration hands the terminal the
   * code "123456", and the reply to a message is taken as a successful
   * authentication exactly when that message was an authentication.
   */
  lemma ConverterRepliesToTerminal(m: Message, clockSerial: int)
    requires FitsU16(m.msgId) && FitsU16(m.msgSerialNo)
    ensures m.msgId == Constants.TERMINAL_REGISTRATION ==>
      RegistrationCode(Converter.Reply(m, clockSerial).value.body) == Some(Converter.SERVER_AUTH_CODE)
    ensures m.msgId != Constants.TERMINAL_REGISTRATION ==>
      (AcceptsAuthentication(Converter.Reply(m, clockSerial).value.body) <==> m.msgId == Constants.TERMINAL_AUTH)
  {
    Converter.ReplyContents(m, clockSerial);
    if m.msgId == Constants.TERMINAL_REGISTRATION {
      RegistrationCodeRoundTrip(m, Constants.SUCCESS, Converter.SERVER_AUTH_CODE);
    }
  }

  // ---------------------------------------------------------------------
  // The protocol object
  // ---------------------------------------------------------------------

  /** Every field of a protocol object that its methods change. */
  datatype ProtocolState = ProtocolState(
    connected: bool,
    authenticated: bool,
    msgSerialNo: int,
    authCode: Option<seq<byte>>,
    sent: seq<seq<byte>>,
    queue: seq<Message>,
    buffer: seq<byte>,
    decodeFailures: seq<DecodeError>)

  class JT808Protocol {
    const deviceId: string
    var connected: bool
    var authenticated: bool
    var msgSerialNo: int
    /** The code received in a registration response, kept as bytes. */
    var authCode: Option<seq<byte>>
    /** Every frame written to the socket, in order. */
    var sent: seq<seq<byte>>
    /** `recv_queue`: the messages left for the application. */
    var queue: seq<Message>
    /** The receive thread's buffer. */
    var buffer: seq<byte>
    /** The error each received frame's decoding ended in, in order. */
    var decodeFailures: seq<DecodeError>

    function State(): ProtocolState
      reads this
    {
      ProtocolState(connected, authenticated, msgSerialNo, authCode, sent, queue, buffer, decodeFailures)
    }

    /** `__init__`: not connected, serial 0, no code. */
    constructor(deviceId: string)
      ensures this.deviceId == deviceId
      ensures State() == ProtocolState(false, false, 0, None, [], [], [], [])
    {
      this.deviceId := deviceId;
      connected := false;
      authenticated := false;
      msgSerialNo := 0;
      authCode := None;
      sent := [];
      queue := [];
      buffer := [];
      decodeFailures := [];
    }

    /**
     * `connect`: nothing (and no value) when already connected; otherwise
     * connected exactly when the server is `reachable`, with a new receive
     * thread starting from an empty buffer.
     */
    method Connect(reachable: bool) returns (r: Option<bool>)
      modifies this
      ensures old(connected) ==> r.None? && State() == old(State())
      ensures !old(connected) ==> r == Some(reachable)
      ensures !old(connected) && reachable ==> State() == old(State()).(connected := true, buffer := [])
      ensures !old(connected) && !reachable ==> State() == old(State())
    {
      if connected {
        return None;
      }
      if reachable {
        connected := true;
        buffer := [];
      }
      r := Some(reachable);
    }

    /**
     * `disconnect`: a connected protocol becomes disconnected and
     * unauthenticated. After the server closed the connection (`Receive` of
     * no data) the protocol is already disconnected, and its `authenticated`
     * flag is left as it was.
     */
    method Disconnect()
      modifies this
      ensures !connected
      ensures old(connected) ==> State() == old(State()).(connected := false, authenticated := false)
      ensures !old(connected) ==> State() == old(State())
    {
      if !connected {
        return;
      }
      connected := false;
      authenticated := false;
    }

    /** `_get_next_serial_no`. */
    method NextSerialNo() returns (s: int)
      modifies this
      ensures s == NextSerial(old(msgSerialNo))
      ensures State() == old(State()).(msgSerialNo := s)
    {
      msgSerialNo := NextSerial(msgSerialNo);
      s := msgSerialNo;
    }

    /** `send_message`: true exactly when connected and the message encodes; only then is a frame written. */
    method SendMessage(m: Message, fallback: string) returns (ok: bool)
      requires ValidFallback(fallback)
      modifies this
      ensures ok <==> connected && Encodable(m)
      ensures State() == old(State()).(sent := old(sent) + Transmitted(connected, m, fallback))
    {
      if !connected {
        return false;
      }
      var frame := Encode(m, fallback);
      if frame.Err? {
        return false;
      }
      sent := sent + [frame.value];
      ok := true;
    }

    /**
     * `register`: the serial is taken before the builder runs, so it is
     * consumed even when the builder raises; a registration that builds is
     * always sent when connected.
     */
    method Register(
      provinceId: int, cityId: int, manufacturerId: string, terminalModel: string, terminalId: string,
      plateColor: int, licensePlate: seq<byte>, fallback: string)
      returns (r: Result<bool, PackError>)
      requires ValidFallback(fallback)
      modifies this
      ensures msgSerialNo == NextSerial(old(msgSerialNo))
      ensures var built := CreateRegistration(deviceId, provinceId, cityId, manufacturerId, terminalModel,
                                              terminalId, plateColor, licensePlate, msgSerialNo);
        && (built.Err? ==> r == Err(built.error) && State() == old(State()).(msgSerialNo := msgSerialNo))
        && (built.Ok? ==> r == Ok(connected)
                          && State() == old(State()).(msgSerialNo := msgSerialNo,
                                                      sent := old(sent) + Transmitted(connected, built.value, fallback)))
    {
      var serial := NextSerialNo();
      var built := CreateRegistration(deviceId, provinceId, cityId, manufacturerId, terminalModel,
                                      terminalId, plateColor, licensePlate, serial);
      if built.Err? {
        return Err(built.error);
      }
      var ok := SendMessage(built.value, fallback);
      r := Ok(ok);
    }

    /** `authenticate`: one serial; a code of 256 bytes or more raises, any other is sent when connected. */
    method Authenticate(code: seq<byte>, fallback: string) returns (r: Result<bool, PackError>)
      requires ValidFallback(fallback)
      modifies this
      ensures msgSerialNo == NextSerial(old(msgSerialNo))
      ensures |code| >= 0x100 ==> r == Err(ByteValueError) && State() == old(State()).(msgSerialNo := msgSerialNo)
      ensures |code| < 0x100 ==>
        var m := CreateAuthentication(deviceId, code, msgSerialNo).value;
        && r == Ok(connected)
        && State() == old(State()).(msgSerialNo := msgSerialNo, sent := old(sent) + Transmitted(connected, m, fallback))
    {
      var serial := NextSerialNo();
      var built := CreateAuthentication(deviceId, code, serial);
      if built.Err? {
        return Err(built.error);
      }
      var ok := SendMessage(built.value, fallback);
      r := Ok(ok);
    }

    /** `send_heartbeat`: one serial; sent exactly when connected. */
    method SendHeartbeat(fallback: string) returns (ok: bool)
      requires ValidFallback(fallback)
      modifies this
      ensures ok == connected
      ensures msgSerialNo == NextSerial(old(msgSerialNo))
      ensures State() == old(State()).(msgSerialNo := msgSerialNo,
                                       sent := old(sent) + Transmitted(connected, CreateHeartbeat(deviceId, msgSerialNo), fallback))
    {
      var serial := NextSerialNo();
      ok := SendMessage(CreateHeartbeat(deviceId, serial), fallback);
    }

    /**
     * `send_location`: one serial, then the report; `timestamp` stands for
     * the clock the builder reads when given none.
     */
    method SendLocation(
      latitude: Coordinate, longitude: Coordinate, altitude: int, speed: int, direction: int,
      alarmFlag: int, status: int, additionalInfo: seq<(int, InfoValue)>, timestamp: string, fallback: string)
      returns (r: Result<bool, PackError>)
      requires ValidFallback(fallback)
      modifies this
      ensures msgSerialNo == NextSerial(old(msgSerialNo))
      ensures var built := LocationReport(deviceId, alarmFlag, status, latitude, longitude, altitude, speed,
                                          direction, timestamp, additionalInfo, msgSerialNo);
        && (built.Err? ==> r == Err(built.error) && State() == old(State()).(msgSerialNo := msgSerialNo))
        && (built.Ok? ==> r == Ok(connected && Encodable(built.value))
                          && State() == old(State()).(msgSerialNo := msgSerialNo,
                                                      sent := old(sent) + Transmitted(connected, built.value, fallback)))
    {
      var serial := NextSerialNo();
      var built := CreateLocationReport(deviceId, alarmFlag, status, latitude, longitude, altitude, speed,
                                        direction, timestamp, additionalInfo, serial);
      if built.Err? {
        return Err(built.error);
      }
      var ok := SendMessage(built.value, fallback);
      r := Ok(ok);
    }

    /**
     * `send_batch_location`: a report (and a serial) per tuple of seven
     * fields or more, then one more serial for the batch itself. A report
     * that fails to build aborts the batch after its serial was taken.
     */
    method SendBatchLocation(locations: seq<LocationTuple>, typeId: int, timestamp: string, fallback: string)
      returns (r: Result<bool, PackError>)
      requires ValidFallback(fallback)
      modifies this
      ensures (r, State()) == BatchSend(deviceId, locations, typeId, timestamp, fallback, old(State()))
    {
      var bodies: seq<seq<byte>> := [];
      for i := 0 to |locations|
        invariant BatchBodies(deviceId, locations[..i], timestamp, old(msgSerialNo)) == (Ok(bodies), msgSerialNo)
        invariant State() == old(State()).(msgSerialNo := msgSerialNo)
      {
        assert locations[..i + 1][..i] == locations[..i];
        var t := locations[i];
        if t.size >= 7 {
          var serial := NextSerialNo();
          var report := CreateLocationReport(deviceId, t.fix.alarmFlag, t.fix.status, t.fix.latitude, t.fix.longitude,
                                             t.fix.altitude, t.fix.speed, t.fix.direction, timestamp, TupleExtras(t), serial);
          if report.Err? {
            BatchErrorSticks(deviceId, locations, i + 1, timestamp, old(msgSerialNo));
            return Err(report.error);
          }
          bodies := bodies + [report.value.body];
        }
      }
      assert locations[..|locations|] == locations;
      var serial := NextSerialNo();
      var batch := CreateBatchLocationUpload(deviceId, bodies, typeId, serial);
      if batch.Err? {
        return Err(batch.error);
      }
      var ok := SendMessage(batch.value, fallback);
      r := Ok(ok);
    }

    /** `logout`: one serial; an empty `0x0003` message, sent exactly when connected. */
    method Logout(fallback: string) returns (ok: bool)
      requires ValidFallback(fallback)
      modifies this
      ensures ok == connected
      ensures msgSerialNo == NextSerial(old(msgSerialNo))
      ensures State() == old(State()).(msgSerialNo := msgSerialNo,
                                       sent := old(sent) + Transmitted(connected, Plain(Constants.TERMINAL_LOGOUT, deviceId, [], msgSerialNo), fallback))
    {
      var serial := NextSerialNo();
      ok := SendMessage(Plain(Constants.TERMINAL_LOGOUT, deviceId, [], serial), fallback);
    }

    /**
     * `_handle_platform_response`: a body shorter than five bytes is
     * ignored, a longer one makes the `>HHB` unpack raise; a successful
     * acknowledgement of an authentication sets `authenticated`.
     */
    method HandlePlatformResponse(m: Message) returns (raised: bool)
      modifies this
      ensures raised <==> |m.body| > 5
      ensures State() == old(State()).(authenticated := old(authenticated) || AcceptsAuthentication(m.body))
    {
      if |m.body| < 5 {
        return false;
      }
      if |m.body| > 5 {
        return true;
      }
      var ackId, result := BigEndian(m.body[2..4]), m.body[4];
      if ackId == Constants.TERMINAL_AUTH && result == Constants.SUCCESS {
        authenticated := true;
      }
      raised := false;
    }

    /**
     * `_handle_registration_response`: on result 0 with a complete code, the
     * code is kept and an authentication carrying it is sent at once; in
     * every other case nothing changes.
     */
    method HandleRegistrationResponse(m: Message, fallback: string)
      requires ValidFallback(fallback)
      modifies this
      ensures RegistrationCode(m.body).None? ==> State() == old(State())
      ensures RegistrationCode(m.body).Some? ==>
        var code := RegistrationCode(m.body).value;
        && msgSerialNo == NextSerial(old(msgSerialNo))
        && State() == old(State()).(authCode := Some(code), msgSerialNo := msgSerialNo,
                                    sent := old(sent) + Transmitted(connected, CreateAuthentication(deviceId, code, msgSerialNo).value, fallback))
    {
      if |m.body| < 3 {
        return;
      }
      var result := m.body[2];
      if result == Constants.SUCCESS && |m.body| > 3 {
        var n := m.body[3];
        if 4 + n <= |m.body| {
          var code := m.body[4..4 + n];
          authCode := Some(code);
          var _ := Authenticate(code, fallback);
        }
      }
    }

    /**
     * Where the receive loop routes a decoded message: the two platform
     * replies to their handlers, anything else to the queue. `Decode` never
     * produces a message, so this is the path a working decoder would take.
     * Returns whether the handler raised (which the loop logs).
     */
    method Route(m: Message, fallback: string) returns (raised: bool)
      requires ValidFallback(fallback)
      modifies this
      ensures m.msgId == Constants.PLATFORM_GENERAL_RESPONSE ==>
        && raised == (|m.body| > 5)
        && State() == old(State()).(authenticated := old(authenticated) || AcceptsAuthentication(m.body))
      ensures m.msgId == Constants.TERMINAL_REGISTRATION_RESPONSE && RegistrationCode(m.body).None? ==>
        !raised && State() == old(State())
      ensures m.msgId == Constants.TERMINAL_REGISTRATION_RESPONSE && RegistrationCode(m.body).Some? ==>
        var code := RegistrationCode(m.body).value;
        && !raised
        && msgSerialNo == NextSerial(old(msgSerialNo))
        && State() == old(State()).(authCode := Some(code), msgSerialNo := msgSerialNo,
                                    sent := old(sent) + Transmitted(connected, CreateAuthentication(deviceId, code, msgSerialNo).value, fallback))
      ensures m.msgId != Constants.PLATFORM_GENERAL_RESPONSE && m.msgId != Constants.TERMINAL_REGISTRATION_RESPONSE ==>
        !raised && State() == old(State()).(queue := old(queue) + [m])
    {
      if m.msgId == Constants.PLATFORM_GENERAL_RESPONSE {
        raised := HandlePlatformResponse(m);
      } else if m.msgId == Constants.TERMINAL_REGISTRATION_RESPONSE {
        HandleRegistrationResponse(m, fallback);
        raised := false;
      } else {
        queue := queue + [m];
        raised := false;
      }
    }

    /**
     * One pass of `_receive_thread`'s outer loop with `data` from `recv`:
     * no data means the server closed the connection; otherwise the data is
     * appended to the buffer and every complete frame is cut and decoded.
     */
    method Receive(data: seq<byte>)
      requires connected
      modifies this
      ensures data == [] ==> State() == old(State()).(connected := false)
      ensures data != [] ==>
        var all := old(buffer) + data;
        State() == old(State()).(buffer := Split(all).1,
                                 decodeFailures := old(decodeFailures) + DecodeErrors(Frames(Split(all).0)))
    {
      if data == [] {
        connected := false;
        return;
      }
      var rest, errors := CutFrames(buffer + data);
      buffer := rest;
      decodeFailures := decodeFailures + errors;
    }

    /** `receive_message`: the oldest queued message, or nothing when the queue is empty (the timeout). */
    method ReceiveMessage() returns (m: Option<Message>)
      modifies this
      ensures old(queue) == [] ==> m.None? && State() == old(State())
      ensures old(queue) != [] ==> m == Some(old(queue)[0]) && State() == old(State()).(queue := old(queue)[1..])
    {
      if queue == [] {
        return None;
      }
      m := Some(queue[0]);
      queue := queue[1..];
    }
  }

  /** Once a report fails, the error is the loop's outcome whatever tuples follow. */
  lemma {:induction false} BatchErrorSticks(phoneNo: string, locations: seq<LocationTuple>, k: nat, timestamp: string, serial: int)
    requires k <= |locations| && BatchBodies(phoneNo, locations[..k], timestamp, serial).0.Err?
    ensures BatchBodies(phoneNo, locations, timestamp, serial) == BatchBodies(phoneNo, locations[..k], timestamp, serial)
  {
    if k < |locations| {
      var init := locations[..|locations| - 1];
      assert init[..k] == locations[..k];
      BatchErrorSticks(phoneNo, init, k, timestamp, serial);
    } else {
      assert locations[..k] == locations;
    }
  }
}
