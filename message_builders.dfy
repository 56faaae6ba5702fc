/**
 * The class-method builders of `jt808/message.py`: the bodies of the
 * heartbeat, registration, authentication, location report, batch upload and
 * platform general response. The serial number, which Python takes from the
 * clock when the caller passes none, and the current timestamp of a location
 * report are parameters here.
 */
module MessageBuilders {

  import opened Wrappers
  import opened Packing
  import opened Bits
  import opened Utils
  import opened Messages
  import Constants

  // ---------------------------------------------------------------------
  // Heartbeat, authentication, general response
  // ---------------------------------------------------------------------

  /** `create_heartbeat`: an empty body, so the attribute word is 0 and only the serial can make encoding fail. */
  function CreateHeartbeat(phoneNo: string, msgSerialNo: int): (m: Message)
    ensures m.msgId == Constants.TERMINAL_HEARTBEAT && BodyAttr(m) == 0
    ensures Encodable(m) <==> FitsU16(msgSerialNo)
  {
    Plain(Constants.TERMINAL_HEARTBEAT, phoneNo, [], msgSerialNo)
  }

  /** `create_authentication`: a length byte, then the code's bytes; `bytes([n])` raises for 256 or more. */
  function CreateAuthentication(phoneNo: string, authCode: seq<byte>, msgSerialNo: int): (r: Result<Message, PackError>)
    ensures r.Ok? <==> |authCode| < 0x100
    ensures r.Ok? ==> r.value.msgId == Constants.TERMINAL_AUTH && |r.value.body| == 1 + |authCode|
    ensures r.Ok? ==> r.value.body[0] == |authCode| && r.value.body[1..] == authCode
  {
    if |authCode| >= 0x100 then Err(ByteValueError)
    else Ok(Plain(Constants.TERMINAL_AUTH, phoneNo, [|authCode|] + authCode, msgSerialNo))
  }

  /** `create_platform_general_response`: `>HHB`, the acknowledged serial and id and the result code. */
  function CreatePlatformGeneralResponse(phoneNo: string, ackSerialNo: int, ackId: int, result: int, msgSerialNo: int)
    : (r: Result<Message, PackError>)
    ensures r.Ok? <==> FitsU16(ackSerialNo) && FitsU16(ackId) && FitsU8(result)
    ensures r.Ok? ==> var b := r.value.body;
      && r.value.msgId == Constants.PLATFORM_GENERAL_RESPONSE && |b| == 5
      && BigEndian(b[0..2]) == ackSerialNo && BigEndian(b[2..4]) == ackId && b[4] == result
  {
    if !(FitsU16(ackSerialNo) && FitsU16(ackId) && FitsU8(result)) then Err(StructError)
    else
      var body := U16(ackSerialNo) + U16(ackId) + U8(result);
      assert body[0..2] == U16(ackSerialNo) && body[2..4] == U16(ackId);
      Ok(Plain(Constants.PLATFORM_GENERAL_RESPONSE, phoneNo, body, msgSerialNo))
  }

  // ---------------------------------------------------------------------
  // Registration
  // ---------------------------------------------------------------------

  const MANUFACTURER_SIZE: nat := 5
  const MODEL_SIZE: nat := 20
  const TERMINAL_ID_SIZE: nat := 7
  /** Size of the `>HH5s20s7sB` part of a registration body. */
  const REGISTRATION_FIXED_SIZE: nat := 37

  /**
   * `create_registration`: `>HH5s20s7sB` (province, city, manufacturer,
   * model and terminal id as NUL-padded or truncated ASCII, plate colour),
   * then a length byte and the plate's bytes. The three strings are encoded
   * before `struct.pack` checks the numbers, and the plate length is checked last.
   */
  function CreateRegistration(
    phoneNo: string, provinceId: int, cityId: int, manufacturerId: string, terminalModel: string,
    terminalId: string, plateColor: int, licensePlate: seq<byte>, msgSerialNo: int)
    : (r: Result<Message, PackError>)
    ensures r.Ok? <==>
      && AsciiEncode(manufacturerId).Some? && AsciiEncode(terminalModel).Some? && AsciiEncode(terminalId).Some?
      && FitsU16(provinceId) && FitsU16(cityId) && FitsU8(plateColor) && |licensePlate| < 0x100
    ensures r.Ok? ==>
      r.value.msgId == Constants.TERMINAL_REGISTRATION && |r.value.body| == REGISTRATION_FIXED_SIZE + 1 + |licensePlate|
  {
    match (AsciiEncode(manufacturerId), AsciiEncode(terminalModel), AsciiEncode(terminalId))
      case (Some(manufacturer), Some(model), Some(id)) =>
        if !(FitsU16(provinceId) && FitsU16(cityId) && FitsU8(plateColor)) then Err(StructError)
        else if |licensePlate| >= 0x100 then Err(ByteValueError)
        else
          var fixed := U16(provinceId) + U16(cityId) + FixedField(manufacturer, MANUFACTURER_SIZE)
            + FixedField(model, MODEL_SIZE) + FixedField(id, TERMINAL_ID_SIZE) + U8(plateColor);
          Ok(Plain(Constants.TERMINAL_REGISTRATION, phoneNo, fixed + [|licensePlate|] + licensePlate, msgSerialNo))
      case _ => Err(AsciiEncodeError)
  }

  /** Where each registration field sits in the body. */
  lemma RegistrationLayout(
    phoneNo: string, provinceId: int, cityId: int, manufacturerId: string, terminalModel: string,
    terminalId: string, plateColor: int, licensePlate: seq<byte>, msgSerialNo: int)
    requires CreateRegistration(phoneNo, provinceId, cityId, manufacturerId, terminalModel,
                                terminalId, plateColor, licensePlate, msgSerialNo).Ok?
    ensures var b := CreateRegistration(phoneNo, provinceId, cityId, manufacturerId, terminalModel,
                                        terminalId, plateColor, licensePlate, msgSerialNo).value.body;
      && BigEndian(b[0..2]) == provinceId && BigEndian(b[2..4]) == cityId
      && b[4..9] == FixedField(AsciiEncode(manufacturerId).value, MANUFACTURER_SIZE)
      && b[9..29] == FixedField(AsciiEncode(terminalModel).value, MODEL_SIZE)
      && b[29..36] == FixedField(AsciiEncode(terminalId).value, TERMINAL_ID_SIZE)
      && b[36] == plateColor && b[37] == |licensePlate| && b[38..] == licensePlate
  {
    RegistrationOffsets(U16(provinceId), U16(cityId),
                        FixedField(AsciiEncode(manufacturerId).value, MANUFACTURER_SIZE),
                        FixedField(AsciiEncode(terminalModel).value, MODEL_SIZE),
                        FixedField(AsciiEncode(terminalId).value, TERMINAL_ID_SIZE),
                        U8(plateColor), |licensePlate|, licensePlate);
  }

  /** Where each piece of a registration body sits once the pieces are joined. */
  lemma RegistrationOffsets(
    province: seq<byte>, city: seq<byte>, manufacturer: seq<byte>, model: seq<byte>, id: seq<byte>,
    color: seq<byte>, plateLength: byte, plate: seq<byte>)
    requires |province| == |city| == 2 && |manufacturer| == MANUFACTURER_SIZE && |model| == MODEL_SIZE
    requires |id| == TERMINAL_ID_SIZE && |color| == 1
    ensures var b := province + city + manufacturer + model + id + color + [plateLength] + plate;
      && b[0..2] == province && b[2..4] == city && b[4..9] == manufacturer && b[9..29] == model
      && b[29..36] == id && b[36] == color[0] && b[37] == plateLength && b[38..] == plate
  {
  }

  // ---------------------------------------------------------------------
  // Location report
  // ---------------------------------------------------------------------

  /**
   * A coordinate as the builder sees it: `decimal_to_dms(abs(x))` and whether
   * `x < 0`. Both are computed from the floating-point degrees outside the model.
   */
  datatype Coordinate = Coordinate(dms: int, negative: bool)

  /** A value of the extra-item dictionary: an `int`, or the bytes of anything else. */
  datatype InfoValue = IntValue(n: int) | BytesValue(bytes: seq<byte>)

  /** Size of the `>IIIIHHBBBBB` part plus the minute and second bytes. */
  const LOCATION_FIXED_SIZE: nat := 27

  /** `status |= 0x4` for a southern latitude and `|= 0x8` for a western longitude. A negative status stays negative, and `struct.pack` rejects it. */
  function HemisphereStatus(status: int, south: bool, west: bool): int
  {
    if status < 0 then status
    else
      var s := if south then SetFlag(status, Constants.LAT_SOUTH) else status;
      if west then SetFlag(s, Constants.LON_WEST) else s
  }

  /** The hemisphere bits are raised by the signs and every other bit of the status is kept. */
  lemma HemisphereStatusBits(status: nat, south: bool, west: bool)
    ensures var r := HemisphereStatus(status, south, west);
      && r >= 0
      && (HasFlag(r, Constants.LAT_SOUTH) <==> HasFlag(status, Constants.LAT_SOUTH) || south)
      && (HasFlag(r, Constants.LON_WEST) <==> HasFlag(status, Constants.LON_WEST) || west)
      && r % 4 == status % 4 && r / 16 == status / 16
  {
    var s := if south then SetFlag(status, Constants.LAT_SOUTH) else status;
    if south {
      SetFlag4Bits(status);
    }
    if west {
      SetFlag8Bits(s);
    }
  }

  /** `s[a:b]`, with Python's clamping of bounds past the end. */
  function Slice(s: string, a: nat, b: nat): string
  {
    var lo := if a < |s| then a else |s|;
    var hi := if b < |s| then b else |s|;
    if lo <= hi then s[lo..hi] else ""
  }

  /** One or two hex digits, of either case. */
  function HexDigits(s: string): (r: Option<byte>)
    ensures r.Some? ==> 1 <= |s| <= 2
  {
    if |s| == 1 && HexValue(s[0]).Some? then Some(HexValue(s[0]).value)
    else if |s| == 2 && HexValue(s[0]).Some? && HexValue(s[1]).Some? then
      Some(16 * HexValue(s[0]).value + HexValue(s[1]).value)
    else None
  }

  /**
   * `int(s, 16)` on the one- or two-character slices of a timestamp: an
   * optional '+' or '-', then the digits; `None` where it raises `ValueError`.
   */
  function HexInt(s: string): (r: Option<int>)
    ensures r.Some? ==> -0x100 < r.value < 0x100
    ensures r.Some? && r.value < 0 ==> |s| >= 2 && s[0] == '-'
  {
    if |s| >= 1 && (s[0] == '+' || s[0] == '-') then
      match HexDigits(s[1..])
        case None => None
        case Some(v) => var n: int := v; Some(if s[0] == '-' then -n else n)
    else HexDigits(s)
  }

  /** A sign before a single digit is read; a sign alone, or after the digit, is not. */
  lemma SignedPairs()
    ensures HexInt("+7") == Some(7) && HexInt("-7") == Some(-7) && HexInt("-F") == Some(-15)
    ensures HexInt("7-") == None && HexInt("-") == None && HexInt("+-") == None
  {
    assert "+7"[1..] == "7" && "-7"[1..] == "7" && "-F"[1..] == "F" && "+-"[1..] == "-";
  }

  /** The number the `k`-th pair of the timestamp is read as: `int(timestamp[2k:2k+2], 16)`. */
  function TimestampPair(timestamp: string, k: nat): Option<int>
  {
    HexInt(Slice(timestamp, 2 * k, 2 * k + 2))
  }

  /**
   * The `>IIIIHHBBBBB` part and the two trailing timestamp bytes, with
   * Python's order of failures: the first four pairs are read before
   * `struct.pack` checks its ranges, a negative pair among them included;
   * the last two are read and then range-checked by `bytes`.
   */
  function LocationFixed(
    alarmFlag: int, status: int, latitude: Coordinate, longitude: Coordinate,
    altitude: int, speed: int, direction: int, timestamp: string)
    : Result<seq<byte>, PackError>
  {
    var flagged := HemisphereStatus(status, latitude.negative, longitude.negative);
    var year, month, day, hour := TimestampPair(timestamp, 0), TimestampPair(timestamp, 1),
                                  TimestampPair(timestamp, 2), TimestampPair(timestamp, 3);
    if year.None? || month.None? || day.None? || hour.None? then Err(HexParseError)
    else if !(&& FitsU32(alarmFlag) && FitsU32(flagged) && FitsU32(latitude.dms) && FitsU32(longitude.dms)
              && FitsU16(altitude) && FitsU16(speed) && FitsU8(direction)
              && FitsU8(year.value) && FitsU8(month.value) && FitsU8(day.value) && FitsU8(hour.value)) then Err(StructError)
    else
      var minute, second := TimestampPair(timestamp, 4), TimestampPair(timestamp, 5);
      if minute.None? || second.None? then Err(HexParseError)
      else if !(FitsU8(minute.value) && FitsU8(second.value)) then Err(ByteValueError)
      else
        var date: seq<byte> := [year.value, month.value, day.value, hour.value];
        var time: seq<byte> := [minute.value, second.value];
        Ok(U32(alarmFlag) + U32(flagged) + U32(latitude.dms) + U32(longitude.dms) + U16(altitude) + U16(speed)
           + U8(direction) + date + time)
  }

  /** Ids whose integer values are written in two bytes. */
  predicate IsShortItem(id: int)
  {
    id == Constants.OIL || id == Constants.SPEED || id == Constants.ALTITUDE
  }

  /** One extra item: `>BBI` or `>BBH` for integers, `[id, len] + bytes` otherwise. */
  function InfoItem(id: int, value: InfoValue): Result<seq<byte>, PackError>
  {
    match value
      case IntValue(n) =>
        if IsShortItem(id) then
          if FitsU8(id) && FitsU16(n) then Ok(U8(id) + U8(2) + U16(n)) else Err(StructError)
        else
          if FitsU8(id) && FitsU32(n) then Ok(U8(id) + U8(4) + U32(n)) else Err(StructError)
      case BytesValue(b) =>
        if FitsU8(id) && |b| < 0x100 then Ok([id, |b|] + b) else Err(ByteValueError)
  }

  /** An integer item carries its id, its width (2 for oil, speed and altitude, 4 for mileage and any other id) and its value. */
  lemma InfoItemIntLayout(id: int, n: int)
    requires InfoItem(id, IntValue(n)).Ok?
    ensures var b := InfoItem(id, IntValue(n)).value;
      && |b| >= 2 && b[0] == id && b[1] == (if IsShortItem(id) then 2 else 4)
      && |b| == 2 + b[1] as int && BigEndian(b[2..]) == n
  {
    var b := InfoItem(id, IntValue(n)).value;
    if IsShortItem(id) {
      assert b[2..] == U16(n);
    } else {
      assert b[2..] == U32(n);
    }
  }

  /** Every item the builder writes is an (id, length, value) triple whose length byte tells the value's size. */
  lemma InfoItemIsTriple(id: int, value: InfoValue)
    requires InfoItem(id, value).Ok?
    ensures var b := InfoItem(id, value).value;
      |b| >= 2 && b[0] == id && |b| == 2 + b[1] as int
  {
    if value.IntValue? {
      InfoItemIntLayout(id, value.n);
    }
  }

  /** The extra items in dictionary order; the first failing item decides the error. */
  function InfoItems(items: seq<(int, InfoValue)>): Result<seq<byte>, PackError>
  {
    if items == [] then Ok([])
    else match InfoItems(items[..|items| - 1])
      case Err(e) => Err(e)
      case Ok(prefix) =>
        match InfoItem(items[|items| - 1].0, items[|items| - 1].1)
          case Err(e) => Err(e)
          case Ok(item) => Ok(prefix + item)
  }

  /** The message `create_location_report` returns. */
  function LocationReport(
    phoneNo: string, alarmFlag: int, status: int, latitude: Coordinate, longitude: Coordinate,
    altitude: int, speed: int, direction: int, timestamp: string, additionalInfo: seq<(int, InfoValue)>,
    msgSerialNo: int)
    : Result<Message, PackError>
  {
    match LocationFixed(alarmFlag, status, latitude, longitude, altitude, speed, direction, timestamp)
      case Err(e) => Err(e)
      case Ok(fixed) =>
        match InfoItems(additionalInfo)
          case Err(e) => Err(e)
          case Ok(extra) => Ok(Plain(Constants.LOCATION_REPORT, phoneNo, fixed + extra, msgSerialNo))
  }

  /** `create_location_report`: the fixed part, then the extra items appended one by one. */
  method CreateLocationReport(
    phoneNo: string, alarmFlag: int, status: int, latitude: Coordinate, longitude: Coordinate,
    altitude: int, speed: int, direction: int, timestamp: string, additionalInfo: seq<(int, InfoValue)>,
    msgSerialNo: int)
    returns (r: Result<Message, PackError>)
    ensures r == LocationReport(phoneNo, alarmFlag, status, latitude, longitude, altitude, speed,
                                direction, timestamp, additionalInfo, msgSerialNo)
  {
    var fixed := LocationFixed(alarmFlag, status, latitude, longitude, altitude, speed, direction, timestamp);
    if fixed.Err? {
      return Err(fixed.error);
    }
    var body := AppendInfoItems(fixed.value, additionalInfo);
    if body.Err? {
      return Err(body.error);
    }
    r := Ok(Plain(Constants.LOCATION_REPORT, phoneNo, body.value, msgSerialNo));
  }

  /** The loop over `additional_info.items()`: each item's bytes are appended to `body`, or the first failure is raised. */
  method AppendInfoItems(body: seq<byte>, additionalInfo: seq<(int, InfoValue)>)
    returns (r: Result<seq<byte>, PackError>)
    ensures r.Ok? <==> InfoItems(additionalInfo).Ok?
    ensures r.Ok? ==> r.value == body + InfoItems(additionalInfo).value
    ensures r.Err? ==> r.error == InfoItems(additionalInfo).error
  {
    var out := body;
    for i := 0 to |additionalInfo|
      invariant InfoItems(additionalInfo[..i]).Ok?
      invariant out == body + InfoItems(additionalInfo[..i]).value
    {
      var (id, value) := additionalInfo[i];
      var item := InfoItem(id, value);
      InfoItemsStep(additionalInfo, i);
      if item.Err? {
        PrefixErrorPropagates(additionalInfo, i + 1);
        return Err(item.error);
      }
      out := out + item.value;
    }
    assert additionalInfo[..|additionalInfo|] == additionalInfo;
    r := Ok(out);
  }

  /** Appending one more item to a list that builds appends its bytes, or fails with its error. */
  lemma InfoItemsStep(items: seq<(int, InfoValue)>, i: nat)
    requires i < |items| && InfoItems(items[..i]).Ok?
    ensures InfoItems(items[..i + 1]) ==
      match InfoItem(items[i].0, items[i].1)
        case Err(e) => Err(e)
        case Ok(b) => Ok(InfoItems(items[..i]).value + b)
  {
    assert items[..i + 1][..i] == items[..i];
  }

  /** A failing prefix makes the whole item list fail with the same error. */
  lemma {:induction false} PrefixErrorPropagates(items: seq<(int, InfoValue)>, k: nat)
    requires k <= |items| && InfoItems(items[..k]).Err?
    ensures InfoItems(items) == InfoItems(items[..k])
    decreases |items| - k
  {
    if k < |items| {
      assert items[..k + 1][..k] == items[..k];
      PrefixErrorPropagates(items, k + 1);
    } else {
      assert items[..k] == items;
    }
  }

  /** The fixed part is 27 bytes; a reader finds every field at its offset. */
  lemma LocationFixedLayout(
    alarmFlag: int, status: int, latitude: Coordinate, longitude: Coordinate,
    altitude: int, speed: int, direction: int, timestamp: string)
    requires LocationFixed(alarmFlag, status, latitude, longitude, altitude, speed, direction, timestamp).Ok?
    ensures var f := LocationFixed(alarmFlag, status, latitude, longitude, altitude, speed, direction, timestamp).value;
      && |f| == LOCATION_FIXED_SIZE
      && BigEndian(f[0..4]) == alarmFlag
      && BigEndian(f[4..8]) == HemisphereStatus(status, latitude.negative, longitude.negative)
      && BigEndian(f[8..12]) == latitude.dms && BigEndian(f[12..16]) == longitude.dms
      && BigEndian(f[16..18]) == altitude && BigEndian(f[18..20]) == speed && f[20] == direction
      && TimestampPair(timestamp, 0) == Some(f[21]) && TimestampPair(timestamp, 1) == Some(f[22])
      && TimestampPair(timestamp, 2) == Some(f[23]) && TimestampPair(timestamp, 3) == Some(f[24])
      && TimestampPair(timestamp, 4) == Some(f[25]) && TimestampPair(timestamp, 5) == Some(f[26])
  {
    var flagged := HemisphereStatus(status, latitude.negative, longitude.negative);
    var date: seq<byte> := [TimestampPair(timestamp, 0).value, TimestampPair(timestamp, 1).value,
                            TimestampPair(timestamp, 2).value, TimestampPair(timestamp, 3).value];
    var time: seq<byte> := [TimestampPair(timestamp, 4).value, TimestampPair(timestamp, 5).value];
    FieldOffsets(U32(alarmFlag), U32(flagged), U32(latitude.dms), U32(longitude.dms),
                 U16(altitude), U16(speed), U8(direction), date, time);
    var f := LocationFixed(alarmFlag, status, latitude, longitude, altitude, speed, direction, timestamp).value;
    assert f == U32(alarmFlag) + U32(flagged) + U32(latitude.dms) + U32(longitude.dms)
                + U16(altitude) + U16(speed) + U8(direction) + date + time;
  }

  /** The four pairs `struct.pack` takes (year, month, day, hour) are read by `int`. */
  predicate DatePairsRead(timestamp: string)
  {
    && TimestampPair(timestamp, 0).Some? && TimestampPair(timestamp, 1).Some?
    && TimestampPair(timestamp, 2).Some? && TimestampPair(timestamp, 3).Some?
  }

  /** The `k`-th pair is read by `int` as a negative number, as `"-1"` is. */
  predicate NegativePair(timestamp: string, k: nat)
  {
    TimestampPair(timestamp, k).Some? && TimestampPair(timestamp, k).value < 0
  }

  /**
   * A negative year, month, day or hour gets past `int` but is never packed:
   * once the four pairs are read, `struct.pack` rejects it.
   */
  lemma NegativeDatePairRejected(
    alarmFlag: int, status: int, latitude: Coordinate, longitude: Coordinate,
    altitude: int, speed: int, direction: int, timestamp: string)
    requires NegativePair(timestamp, 0) || NegativePair(timestamp, 1) || NegativePair(timestamp, 2) || NegativePair(timestamp, 3)
    ensures var r := LocationFixed(alarmFlag, status, latitude, longitude, altitude, speed, direction, timestamp);
      && r.Err?
      && (DatePairsRead(timestamp) ==> r == Err(StructError))
  {
  }

  /**
   * A negative minute or second gets past `int` but is never packed: once
   * everything before it is packed and both are read, `bytes` rejects it.
   */
  lemma NegativeTimePairRejected(
    alarmFlag: int, status: int, latitude: Coordinate, longitude: Coordinate,
    altitude: int, speed: int, direction: int, timestamp: string)
    requires NegativePair(timestamp, 4) || NegativePair(timestamp, 5)
    ensures var r := LocationFixed(alarmFlag, status, latitude, longitude, altitude, speed, direction, timestamp);
      && r.Err?
      && (&& DatePairsRead(timestamp) && TimestampPair(timestamp, 4).Some? && TimestampPair(timestamp, 5).Some?
          && FitsU8(TimestampPair(timestamp, 0).value) && FitsU8(TimestampPair(timestamp, 1).value)
          && FitsU8(TimestampPair(timestamp, 2).value) && FitsU8(TimestampPair(timestamp, 3).value)
          && FitsU32(alarmFlag) && FitsU32(HemisphereStatus(status, latitude.negative, longitude.negative))
          && FitsU32(latitude.dms) && FitsU32(longitude.dms)
          && FitsU16(altitude) && FitsU16(speed) && FitsU8(direction)
          ==> r == Err(ByteValueError))
  {
  }

  /** Where each piece of the fixed part sits once the pieces are joined. */
  lemma FieldOffsets(
    alarm: seq<byte>, status: seq<byte>, lat: seq<byte>, lon: seq<byte>,
    altitude: seq<byte>, speed: seq<byte>, direction: seq<byte>, date: seq<byte>, time: seq<byte>)
    requires |alarm| == |status| == |lat| == |lon| == 4 && |altitude| == |speed| == 2 && |direction| == 1
    requires |date| == 4 && |time| == 2
    ensures var f := alarm + status + lat + lon + altitude + speed + direction + date + time;
      && |f| == LOCATION_FIXED_SIZE
      && f[0..4] == alarm && f[4..8] == status && f[8..12] == lat && f[12..16] == lon
      && f[16..18] == altitude && f[18..20] == speed && f[20] == direction[0]
      && f[21] == date[0] && f[22] == date[1] && f[23] == date[2] && f[24] == date[3]
      && f[25] == time[0] && f[26] == time[1]
  {
  }

  /** A lowercase hex digit is written back by `HexDigit` from its value. */
  lemma HexDigitOfValue(c: char)
    requires IsLowerHex(c)
    ensures HexValue(c).Some? && HexDigit(HexValue(c).value) == c
  {
  }

  /**
   * A 12-digit timestamp, as `get_current_timestamp` produces, packs into six
   * BCD bytes, and `bytes_to_bcd` on them gives the timestamp back.
   */
  lemma TimestampRoundTrip(timestamp: string)
    requires |timestamp| == 12 && forall i :: 0 <= i < 12 ==> IsLowerHex(timestamp[i])
    ensures forall k :: 0 <= k < 6 ==> TimestampPair(timestamp, k).Some?
    ensures var bytes := seq(6, k requires 0 <= k < 6 => TimestampPair(timestamp, k).value);
      && (forall k :: 0 <= k < 6 ==> FitsU8(bytes[k]))
      && BytesToBcd(bytes) == timestamp
  {
    forall k | 0 <= k < 6
      ensures TimestampPair(timestamp, k).Some? && FitsU8(TimestampPair(timestamp, k).value)
      ensures HexValue(timestamp[2 * k]) == Some(TimestampPair(timestamp, k).value / 16)
      ensures HexValue(timestamp[2 * k + 1]) == Some(TimestampPair(timestamp, k).value % 16)
    {
      LowerHexPair(timestamp, k);
    }
    var bytes: seq<byte> := seq(6, k requires 0 <= k < 6 => TimestampPair(timestamp, k).value);
    BcdOfPairs(bytes, timestamp);
  }

  /** Two lowercase hex digits are read as the byte whose high and low nibbles they spell. */
  lemma LowerHexPair(timestamp: string, k: nat)
    requires 2 * k + 2 <= |timestamp| && IsLowerHex(timestamp[2 * k]) && IsLowerHex(timestamp[2 * k + 1])
    ensures var pair := TimestampPair(timestamp, k);
      && pair.Some? && FitsU8(pair.value)
      && HexValue(timestamp[2 * k]) == Some(pair.value / 16)
      && HexValue(timestamp[2 * k + 1]) == Some(pair.value % 16)
  {
    assert Slice(timestamp, 2 * k, 2 * k + 2) == [timestamp[2 * k], timestamp[2 * k + 1]];
  }

  lemma {:induction false} BcdOfPairs(bytes: seq<byte>, s: string)
    requires |s| == 2 * |bytes|
    requires forall i :: 0 <= i < |s| ==> IsLowerHex(s[i])
    requires forall k :: 0 <= k < |bytes| ==>
      HexValue(s[2 * k]) == Some(bytes[k] / 16) && HexValue(s[2 * k + 1]) == Some(bytes[k] % 16)
    ensures BytesToBcd(bytes) == s
  {
    if bytes != [] {
      HexDigitOfValue(s[0]);
      HexDigitOfValue(s[1]);
      forall k | 0 <= k < |bytes| - 1
        ensures HexValue(s[2..][2 * k]) == Some(bytes[1..][k] / 16)
        ensures HexValue(s[2..][2 * k + 1]) == Some(bytes[1..][k] % 16)
      {
        assert bytes[1..][k] == bytes[k + 1];
        assert s[2..][2 * k] == s[2 * (k + 1)] && s[2..][2 * k + 1] == s[2 * (k + 1) + 1];
      }
      BcdOfPairs(bytes[1..], s[2..]);
      assert s == s[..2] + s[2..];
    }
  }

  /** The body of a location report is the 27-byte fixed part followed by the extra items. */
  lemma LocationReportBody(
    phoneNo: string, alarmFlag: int, status: int, latitude: Coordinate, longitude: Coordinate,
    altitude: int, speed: int, direction: int, timestamp: string, additionalInfo: seq<(int, InfoValue)>,
    msgSerialNo: int)
    requires LocationReport(phoneNo, alarmFlag, status, latitude, longitude, altitude, speed,
                            direction, timestamp, additionalInfo, msgSerialNo).Ok?
    ensures var m := LocationReport(phoneNo, alarmFlag, status, latitude, longitude, altitude, speed,
                                    direction, timestamp, additionalInfo, msgSerialNo).value;
      && m.msgId == Constants.LOCATION_REPORT && m.msgSerialNo == msgSerialNo
      && InfoItems(additionalInfo).Ok?
      && |m.body| == LOCATION_FIXED_SIZE + |InfoItems(additionalInfo).value|
      && m.body[LOCATION_FIXED_SIZE..] == InfoItems(additionalInfo).value
  {
    LocationFixedLayout(alarmFlag, status, latitude, longitude, altitude, speed, direction, timestamp);
  }

  // ---------------------------------------------------------------------
  // Batch upload
  // ---------------------------------------------------------------------

  /** The concatenation of a list of byte strings. */
  function Flatten(parts: seq<seq<byte>>): (r: seq<byte>)
  {
    if parts == [] then [] else Flatten(parts[..|parts| - 1]) + parts[|parts| - 1]
  }

  lemma {:induction false} FlattenConcat(a: seq<seq<byte>>, b: seq<seq<byte>>)
    ensures Flatten(a + b) == Flatten(a) + Flatten(b)
    decreases |b|
  {
    if b == [] {
      assert a + b == a;
    } else {
      var init, last := b[..|b| - 1], b[|b| - 1];
      assert (a + b)[..|a + b| - 1] == a + init && (a + b)[|a + b| - 1] == last;
      FlattenConcat(a, init);
      assert Flatten(a + b) == (Flatten(a) + Flatten(init)) + last;
      assert Flatten(b) == Flatten(init) + last;
    }
  }

  /** The `k`-th location sits, unchanged, right after the ones before it. */
  lemma FlattenSlice(parts: seq<seq<byte>>, k: nat)
    requires k < |parts|
    ensures var off := |Flatten(parts[..k])|;
      off + |parts[k]| <= |Flatten(parts)| && Flatten(parts)[off..off + |parts[k]|] == parts[k]
  {
    assert parts == parts[..k] + [parts[k]] + parts[k + 1..];
    FlattenConcat(parts[..k] + [parts[k]], parts[k + 1..]);
    FlattenConcat(parts[..k], [parts[k]]);
    assert Flatten([parts[k]]) == parts[k] by {
      var none: seq<seq<byte>> := [];
      assert [parts[k]][..0] == none;
    }
  }

  /** The message `create_batch_location_upload` returns: `>BH` (type, count), then the locations. */
  function BatchUpload(phoneNo: string, locations: seq<seq<byte>>, typeId: int, msgSerialNo: int)
    : Result<Message, PackError>
  {
    if FitsU8(typeId) && FitsU16(|locations|) then
      Ok(Plain(Constants.BATCH_LOCATION_UPLOAD, phoneNo, U8(typeId) + U16(|locations|) + Flatten(locations), msgSerialNo))
    else Err(StructError)
  }

  /** `create_batch_location_upload`. */
  method CreateBatchLocationUpload(phoneNo: string, locations: seq<seq<byte>>, typeId: int, msgSerialNo: int)
    returns (r: Result<Message, PackError>)
    ensures r == BatchUpload(phoneNo, locations, typeId, msgSerialNo)
  {
    if !(FitsU8(typeId) && FitsU16(|locations|)) {
      return Err(StructError);
    }
    var body := U8(typeId) + U16(|locations|);
    for i := 0 to |locations|
      invariant body == U8(typeId) + U16(|locations|) + Flatten(locations[..i])
    {
      assert locations[..i + 1][..i] == locations[..i];
      body := body + locations[i];
    }
    assert locations[..|locations|] == locations;
    r := Ok(Plain(Constants.BATCH_LOCATION_UPLOAD, phoneNo, body, msgSerialNo));
  }

  /** The batch header: the type byte, then the number of locations in two bytes, then the locations. */
  lemma BatchHeader(phoneNo: string, locations: seq<seq<byte>>, typeId: int, msgSerialNo: int)
    requires BatchUpload(phoneNo, locations, typeId, msgSerialNo).Ok?
    ensures var b := BatchUpload(phoneNo, locations, typeId, msgSerialNo).value.body;
      && |b| == 3 + |Flatten(locations)|
      && b[0] == typeId && BigEndian(b[1..3]) == |locations| && b[3..] == Flatten(locations)
  {
    var b := BatchUpload(phoneNo, locations, typeId, msgSerialNo).value.body;
    assert b[1..3] == U16(|locations|);
  }

  /** The batch header tells the type and the number of locations; each location follows, in order and unchanged. */
  lemma BatchLayout(phoneNo: string, locations: seq<seq<byte>>, typeId: int, msgSerialNo: int, k: nat)
    requires BatchUpload(phoneNo, locations, typeId, msgSerialNo).Ok? && k < |locations|
    ensures var b := BatchUpload(phoneNo, locations, typeId, msgSerialNo).value.body;
      var off := 3 + |Flatten(locations[..k])|;
      && b[0] == typeId && BigEndian(b[1..3]) == |locations|
      && off + |locations[k]| <= |b| && b[off..off + |locations[k]|] == locations[k]
  {
    var b := BatchUpload(phoneNo, locations, typeId, msgSerialNo).value.body;
    BatchHeader(phoneNo, locations, typeId, msgSerialNo);
    FlattenSlice(locations, k);
    var off := |Flatten(locations[..k])|;
    assert b[3 + off..3 + off + |locations[k]|] == Flatten(locations)[off..off + |locations[k]|];
  }
}
