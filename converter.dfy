/**
 * The JT/T 808 side of the converter (`JT808Server` in `converter.py`): the
 * per-client receive buffer cut into frames, the reply each message gets, the
 * MQTT events each message is published as, and the offline event on close.
 * Sockets, threads and the MQTT client are not modelled: a socket is an
 * opaque handle, what is sent or published is appended to a log.
 */
module Converter {

  import opened Wrappers
  import opened Packing
  import opened Messages
  import opened MessageBuilders
  import opened Framing
  import opened ReceiveLoop
  import opened Utils
  import opened ConverterPayloads
  import Constants

  /** A client connection, identified by an opaque handle. */
  type Socket = nat

  /**
   * What the server keeps per client. An empty `deviceId` stands for "not yet
   * identified". `attached` says whether the dictionary's buffer is still the
   * bytearray the client's thread took from it when it started, the one it
   * appends received data to.
   */
  datatype ClientInfo = ClientInfo(addr: string, buffer: seq<byte>, deviceId: string, attached: bool)

  /** The MQTT events the converter emits. */
  datatype Event =
    | HeartbeatEvent
    | RegistrationEvent(info: RegistrationInfo)
    | AuthenticationEvent(authCode: seq<byte>)
    | BatchLocationEvent(typeId: byte, count: nat)
    | LogoutEvent
    | StatusEvent(online: bool)

  datatype Publication = Publication(topic: string, deviceId: string, event: Event)

  /** The last segment of each event's topic. */
  function Kind(e: Event): string
  {
    match e
      case HeartbeatEvent => "heartbeat"
      case RegistrationEvent(_) => "registration"
      case AuthenticationEvent(_) => "authentication"
      case BatchLocationEvent(_, _) => "batch_location"
      case LogoutEvent => "logout"
      case StatusEvent(_) => "status"
  }

  /** `f"{prefix}/{device_id}/{kind}"`. */
  function Topic(prefix: string, deviceId: string, kind: string): string
  {
    prefix + "/" + deviceId + "/" + kind
  }

  predicate HasNoSlash(s: string)
  {
    forall i :: 0 <= i < |s| ==> s[i] != '/'
  }

  /** In `d + "/" + k` with no '/' in `d`, the first '/' is right after `d`. */
  lemma SlashAfter(d: string, k: string)
    requires HasNoSlash(d)
    ensures (d + "/" + k)[|d|] == '/'
    ensures forall i :: 0 <= i < |d + "/" + k| && (d + "/" + k)[i] == '/' ==> i >= |d|
  {
    var t := d + "/" + k;
    forall i | 0 <= i < |d|
      ensures t[i] != '/'
    {
      assert t[i] == d[i];
    }
  }

  /** Under one prefix, device ids without '/' give every device and kind a topic of its own. */
  lemma TopicInjective(prefix: string, d1: string, k1: string, d2: string, k2: string)
    requires HasNoSlash(d1) && HasNoSlash(d2)
    requires Topic(prefix, d1, k1) == Topic(prefix, d2, k2)
    ensures d1 == d2 && k1 == k2
  {
    var t1, t2 := d1 + "/" + k1, d2 + "/" + k2;
    var n := |prefix| + 1;
    assert Topic(prefix, d1, k1)[n..] == t1;
    assert Topic(prefix, d2, k2)[n..] == t2;
    assert t1 == t2;
    SlashAfter(d1, k1);
    SlashAfter(d2, k2);
    assert t2[|d1|] == '/';
    assert t1[|d2|] == '/';
    assert |d1| == |d2|;
    assert d1 == t1[..|d1|] && d2 == t2[..|d2|];
    assert k1 == t1[|d1| + 1..] && k2 == t2[|d2| + 1..];
  }

  function Publish(prefix: string, deviceId: string, e: Event): Publication
  {
    Publication(Topic(prefix, deviceId, Kind(e)), deviceId, e)
  }

  /** The name a message is logged and published under: the device id, or "unknown" before identification. */
  function DeviceLabel(deviceId: string): string
  {
    if deviceId == "" then "unknown" else deviceId
  }

  /** The device id after a message from `phoneNo`: set from the first non-empty one, then kept. */
  function Identified(deviceId: string, phoneNo: string): string
  {
    if deviceId == "" then phoneNo else deviceId
  }

  /** The device id after messages from `phones`, in order, have been handled. */
  function IdentifiedAfter(deviceId: string, phones: seq<string>): string
    decreases |phones|
  {
    if phones == [] then deviceId else IdentifiedAfter(Identified(deviceId, phones[0]), phones[1..])
  }

  /** The first non-empty phone number, or "" when there is none. */
  function FirstNonEmpty(phones: seq<string>): (r: string)
    ensures r != "" <==> exists i :: 0 <= i < |phones| && phones[i] != ""
    ensures r != "" ==> r in phones
  {
    if phones == [] then ""
    else if phones[0] != "" then phones[0]
    else
      assert forall i :: 0 < i < |phones| ==> phones[i] == phones[1..][i - 1];
      FirstNonEmpty(phones[1..])
  }

  /**
   * Whatever later messages carry, a known device id is kept, and an
   * unknown one becomes the phone number of the first message that has one.
   */
  lemma {:induction false} IdentifiedByFirst(deviceId: string, phones: seq<string>)
    ensures IdentifiedAfter(deviceId, phones) == if deviceId != "" then deviceId else FirstNonEmpty(phones)
    decreases |phones|
  {
    if phones != [] {
      IdentifiedByFirst(Identified(deviceId, phones[0]), phones[1..]);
    }
  }

  // ---------------------------------------------------------------------
  // Replies
  // ---------------------------------------------------------------------

  /** The ids acknowledged with result 0 by a general response; every other id except registration gets result 3. */
  predicate Acknowledged(msgId: int)
  {
    msgId == Constants.TERMINAL_HEARTBEAT || msgId == Constants.TERMINAL_AUTH
    || msgId == Constants.LOCATION_REPORT || msgId == Constants.BATCH_LOCATION_UPLOAD
    || msgId == Constants.TERMINAL_LOGOUT
  }

  /** The code `_process_message` hard-codes for every registration. */
  const SERVER_AUTH_CODE: seq<byte> := [0x31, 0x32, 0x33, 0x34, 0x35, 0x36]

  /**
   * `_send_registration_response`: `>HB` (the registration's serial, the
   * result), then the code's length and the code, in a `0x8100` message with
   * serial 0.
   */
  function RegistrationResponse(m: Message, result: int, authCode: seq<byte>): (r: Result<Message, PackError>)
    ensures r.Ok? <==> FitsU16(m.msgSerialNo) && FitsU8(result) && |authCode| < 0x100
    ensures r.Ok? ==> var b := r.value.body;
      && r.value.msgId == Constants.TERMINAL_REGISTRATION_RESPONSE && r.value.phoneNo == m.phoneNo
      && r.value.msgSerialNo == 0 && |b| == 4 + |authCode|
      && BigEndian(b[0..2]) == m.msgSerialNo && b[2] == result && b[3] == |authCode| && b[4..] == authCode
  {
    if !(FitsU16(m.msgSerialNo) && FitsU8(result)) then Err(StructError)
    else if |authCode| >= 0x100 then Err(ByteValueError)
    else
      var body := U16(m.msgSerialNo) + [result] + [|authCode|] + authCode;
      assert body[0..2] == U16(m.msgSerialNo) && body[4..] == authCode;
      Ok(Plain(Constants.TERMINAL_REGISTRATION_RESPONSE, m.phoneNo, body, 0))
  }

  /** The reply `_process_message` builds; `clockSerial` is the serial the builder takes from the clock. */
  function Reply(m: Message, clockSerial: int): Result<Message, PackError>
  {
    if m.msgId == Constants.TERMINAL_REGISTRATION then RegistrationResponse(m, Constants.SUCCESS, SERVER_AUTH_CODE)
    else
      var result := if Acknowledged(m.msgId) then Constants.SUCCESS else Constants.UNSUPPORTED;
      CreatePlatformGeneralResponse(m.phoneNo, m.msgSerialNo, m.msgId, result, clockSerial)
  }

  /** What reaches the socket: the encoded reply, or nothing when building or encoding it fails. */
  function ReplyFrames(sock: Socket, m: Message, clockSerial: int, fallback: string): seq<(Socket, seq<byte>)>
    requires ValidFallback(fallback)
  {
    match Reply(m, clockSerial)
      case Err(_) => []
      case Ok(reply) =>
        match Encode(reply, fallback)
          case Err(_) => []
          case Ok(frame) => [(sock, frame)]
  }

  /**
   * Dispatch: a registration gets a `0x8100` reply carrying its serial,
   * result 0 and the code "123456"; the five acknowledged ids get a general
   * response with result 0 echoing their serial and id; any other id gets
   * result 3. Every header field in range is enough for a reply.
   */
  lemma ReplyContents(m: Message, clockSerial: int)
    requires FitsU16(m.msgId) && FitsU16(m.msgSerialNo)
    ensures Reply(m, clockSerial).Ok?
    ensures var r := Reply(m, clockSerial).value;
      && r.phoneNo == m.phoneNo
      && (m.msgId == Constants.TERMINAL_REGISTRATION ==>
            && r.msgId == Constants.TERMINAL_REGISTRATION_RESPONSE
            && BigEndian(r.body[0..2]) == m.msgSerialNo && r.body[2] == Constants.SUCCESS
            && r.body[3] == 6 && r.body[4..] == SERVER_AUTH_CODE)
      && (m.msgId != Constants.TERMINAL_REGISTRATION ==>
            && r.msgId == Constants.PLATFORM_GENERAL_RESPONSE && r.msgSerialNo == clockSerial
            && BigEndian(r.body[0..2]) == m.msgSerialNo && BigEndian(r.body[2..4]) == m.msgId
            && r.body[4] == (if Acknowledged(m.msgId) then Constants.SUCCESS else Constants.UNSUPPORTED))
  {
  }

  /** The authentication code is not checked: two authentications differing only in their bodies get the same reply, result 0. */
  lemma AuthenticationNotChecked(m1: Message, m2: Message, clockSerial: int)
    requires m1.msgId == m2.msgId == Constants.TERMINAL_AUTH
    requires m1.phoneNo == m2.phoneNo && m1.msgSerialNo == m2.msgSerialNo && FitsU16(m1.msgSerialNo)
    ensures Reply(m1, clockSerial) == Reply(m2, clockSerial)
    ensures Reply(m1, clockSerial).Ok? && Reply(m1, clockSerial).value.body[4] == Constants.SUCCESS
  {
  }

  // ---------------------------------------------------------------------
  // Publications
  // ---------------------------------------------------------------------

  /**
   * What the publish handler of each message id emits, each event followed
   * by the device status. Registration, authentication and batch bodies that
   * do not parse emit nothing; a location report never gets past its parser.
   */
  function Publications(prefix: string, deviceId: string, m: Message): seq<Publication>
  {
    var online := Publish(prefix, deviceId, StatusEvent(true));
    if m.msgId == Constants.TERMINAL_HEARTBEAT then [Publish(prefix, deviceId, HeartbeatEvent), online]
    else if m.msgId == Constants.TERMINAL_REGISTRATION then
      match ParseRegistration(m.body)
        case Ok(info) => [Publish(prefix, deviceId, RegistrationEvent(info)), online]
        case Err(_) => []
    else if m.msgId == Constants.TERMINAL_AUTH then
      match ParseAuthentication(m.body)
        case Ok(code) => [Publish(prefix, deviceId, AuthenticationEvent(code)), online]
        case Err(_) => []
    else if m.msgId == Constants.LOCATION_REPORT then []
    else if m.msgId == Constants.BATCH_LOCATION_UPLOAD then
      match ParseBatch(m.body)
        case Ok((typeId, count)) => [Publish(prefix, deviceId, BatchLocationEvent(typeId, count)), online]
        case Err(_) => []
    else if m.msgId == Constants.TERMINAL_LOGOUT then
      [Publish(prefix, deviceId, LogoutEvent), Publish(prefix, deviceId, StatusEvent(false))]
    else []
  }

  /**
   * Each handled message emits either nothing or one event on
   * `{prefix}/{device}/{kind}` followed by a status that is "offline" for a
   * logout and "online" otherwise; which messages emit something is decided
   * by the body parsers.
   */
  lemma PublicationsShape(prefix: string, deviceId: string, m: Message)
    ensures var ps := Publications(prefix, deviceId, m);
      && (|ps| == 0 || |ps| == 2)
      && (|ps| == 2 ==>
            && !ps[0].event.StatusEvent?
            && ps[1] == Publish(prefix, deviceId, StatusEvent(m.msgId != Constants.TERMINAL_LOGOUT))
            && ps[0].topic == Topic(prefix, deviceId, Kind(ps[0].event)))
      && (|ps| == 2 <==>
            || m.msgId == Constants.TERMINAL_HEARTBEAT || m.msgId == Constants.TERMINAL_LOGOUT
            || (m.msgId == Constants.TERMINAL_REGISTRATION && |m.body| >= REGISTRATION_FIXED_SIZE)
            || (m.msgId == Constants.TERMINAL_AUTH && |m.body| >= 1)
            || (m.msgId == Constants.BATCH_LOCATION_UPLOAD && ParseBatch(m.body).Ok?))
  {
  }

  // ---------------------------------------------------------------------
  // The server
  // ---------------------------------------------------------------------

  class JT808Server {

    const topicPrefix: string
    var clients: map<Socket, ClientInfo>
    /** Every frame written to a socket, in order. */
    var sent: seq<(Socket, seq<byte>)>
    /** Every MQTT publication, in order. */
    var published: seq<Publication>
    /** The error logged for every frame that failed to decode, in order. */
    var decodeFailures: seq<DecodeError>

    constructor(topicPrefix: string)
      ensures this.topicPrefix == topicPrefix
      ensures clients == map[] && sent == [] && published == [] && decodeFailures == []
    {
      this.topicPrefix := topicPrefix;
      clients := map[];
      sent := [];
      published := [];
      decodeFailures := [];
    }

    /** A new connection: an empty buffer, shared with the client's thread, and no device id. */
    method Accept(sock: Socket, addr: string)
      modifies this
      ensures clients == old(clients)[sock := ClientInfo(addr, [], "", true)]
      ensures sent == old(sent) && published == old(published) && decodeFailures == old(decodeFailures)
    {
      clients := clients[sock := ClientInfo(addr, [], "", true)];
    }

    /**
     * `_process_buffer`: cuts frames off the client's buffer while more than
     * two bytes are buffered. The buffer ends as the rest left by `Split`, and
     * every frame cut, in order, is handed to `Decode`; since `Decode` never
     * yields a message, each one ends in a logged error. Dropping junk or
     * cutting a frame stores a new bytearray in the dictionary, which detaches
     * it from the client's thread; in particular a buffer that yields a frame
     * is detached afterwards.
     */
    method ProcessBuffer(sock: Socket)
      requires sock in clients
      modifies this
      ensures sock in clients
      ensures var b := old(clients[sock].buffer);
        clients[sock] == old(clients[sock]).(buffer := Split(b).1, attached := old(clients[sock].attached) && !Rebinds(b))
      ensures clients == old(clients)[sock := clients[sock]]
      ensures IsRest(clients[sock].buffer)
      ensures Frames(Split(old(clients[sock].buffer)).0) != [] ==> !clients[sock].attached
      ensures decodeFailures == old(decodeFailures) + DecodeErrors(Frames(Split(old(clients[sock].buffer)).0))
      ensures sent == old(sent) && published == old(published)
    {
      var buffer := clients[sock].buffer;
      // Whether the loop's first pass assigns a new bytearray to the dictionary.
      var rebound := Rebinds(buffer);
      var rest, errors := CutFrames(buffer);
      SplitShapes(buffer);
      if !rebound {
        InPlacePass(buffer);
      }
      StoreBuffer(sock, rest, rebound);
      decodeFailures := decodeFailures + errors;
    }

    /** Stores `buffer` as the client's buffer; `rebound` says it is a new bytearray rather than the old one changed in place. */
    method StoreBuffer(sock: Socket, buffer: seq<byte>, rebound: bool)
      requires sock in clients
      modifies this
      ensures sock in clients && clients[sock] == old(clients[sock]).(buffer := buffer, attached := old(clients[sock].attached) && !rebound)
      ensures clients == old(clients)[sock := clients[sock]]
      ensures sent == old(sent) && published == old(published) && decodeFailures == old(decodeFailures)
    {
      clients := clients[sock := clients[sock].(buffer := buffer, attached := clients[sock].attached && !rebound)];
    }

    /**
     * One pass of the loop of `_handle_client` with the data `recv` returned:
     * no data closes the client; otherwise the data is appended to the
     * bytearray the thread took from the dictionary when it started, and the
     * dictionary's buffer is processed. Once that buffer has been replaced,
     * the data goes to a bytearray nothing reads: what is buffered stays as it
     * is and no later frame is ever cut.
     */
    method HandleData(sock: Socket, data: seq<byte>)
      requires sock in clients
      modifies this
      ensures data == [] ==>
        && clients == old(clients) - {sock}
        && published == old(published) +
             (if old(clients[sock].deviceId) != ""
              then [Publish(topicPrefix, old(clients[sock].deviceId), StatusEvent(false))] else [])
        && sent == old(sent) && decodeFailures == old(decodeFailures)
      ensures data != [] ==>
        var c := old(clients[sock]);
        var fed := if c.attached then c.buffer + data else c.buffer;
        && clients == old(clients)[sock := c.(buffer := Split(fed).1, attached := c.attached && !Rebinds(fed))]
        && decodeFailures == old(decodeFailures) + DecodeErrors(Frames(Split(fed).0))
        && sent == old(sent) && published == old(published)
      ensures data != [] && !old(clients[sock].attached) && IsRest(old(clients[sock].buffer)) ==>
        clients == old(clients) && decodeFailures == old(decodeFailures)
    {
      if data == [] {
        CloseClient(sock);
        return;
      }
      if clients[sock].attached {
        // `buffer.extend(data)` on the bytearray the dictionary still holds.
        StoreBuffer(sock, clients[sock].buffer + data, false);
      } else if IsRest(clients[sock].buffer) {
        RestStays(clients[sock].buffer);
      }
      ProcessBuffer(sock);
    }

    /** `_publish_status`. */
    method PublishStatus(deviceId: string, online: bool)
      modifies this
      ensures published == old(published) + [Publish(topicPrefix, deviceId, StatusEvent(online))]
      ensures clients == old(clients) && sent == old(sent) && decodeFailures == old(decodeFailures)
    {
      published := published + [Publish(topicPrefix, deviceId, StatusEvent(online))];
    }

    /** Publishes `e` on its topic, then the device as online. */
    method PublishWithStatus(deviceId: string, e: Event, online: bool)
      modifies this
      ensures published == old(published) + [Publish(topicPrefix, deviceId, e), Publish(topicPrefix, deviceId, StatusEvent(online))]
      ensures clients == old(clients) && sent == old(sent) && decodeFailures == old(decodeFailures)
    {
      published := published + [Publish(topicPrefix, deviceId, e)];
      PublishStatus(deviceId, online);
    }

    /** `_publish_registration`: nothing unless the body parses. */
    method PublishRegistration(deviceId: string, m: Message)
      modifies this
      ensures published == old(published) +
        match ParseRegistration(m.body)
          case Ok(info) => [Publish(topicPrefix, deviceId, RegistrationEvent(info)), Publish(topicPrefix, deviceId, StatusEvent(true))]
          case Err(_) => []
      ensures clients == old(clients) && sent == old(sent) && decodeFailures == old(decodeFailures)
    {
      var parsed := ParseRegistration(m.body);
      if parsed.Ok? {
        PublishWithStatus(deviceId, RegistrationEvent(parsed.value), true);
      }
    }

    /** `_publish_authentication`: nothing for an empty body. */
    method PublishAuthentication(deviceId: string, m: Message)
      modifies this
      ensures published == old(published) +
        match ParseAuthentication(m.body)
          case Ok(code) => [Publish(topicPrefix, deviceId, AuthenticationEvent(code)), Publish(topicPrefix, deviceId, StatusEvent(true))]
          case Err(_) => []
      ensures clients == old(clients) && sent == old(sent) && decodeFailures == old(decodeFailures)
    {
      var parsed := ParseAuthentication(m.body);
      if parsed.Ok? {
        PublishWithStatus(deviceId, AuthenticationEvent(parsed.value), true);
      }
    }

    /** `_publish_batch_location`: nothing unless the batch loop finishes. */
    method PublishBatchLocation(deviceId: string, m: Message)
      modifies this
      ensures published == old(published) +
        match ParseBatch(m.body)
          case Ok((typeId, count)) => [Publish(topicPrefix, deviceId, BatchLocationEvent(typeId, count)), Publish(topicPrefix, deviceId, StatusEvent(true))]
          case Err(_) => []
      ensures clients == old(clients) && sent == old(sent) && decodeFailures == old(decodeFailures)
    {
      var parsed := ParseBatch(m.body);
      if parsed.Ok? {
        PublishWithStatus(deviceId, BatchLocationEvent(parsed.value.0, parsed.value.1), true);
      }
    }

    /** Writes the encoded reply to the socket; a reply that cannot be built or encoded is not sent. */
    method SendReply(sock: Socket, reply: Result<Message, PackError>, fallback: string)
      requires ValidFallback(fallback)
      modifies this
      ensures sent == old(sent) +
        match reply
          case Err(_) => []
          case Ok(r) => (match Encode(r, fallback) case Err(_) => [] case Ok(f) => [(sock, f)])
      ensures clients == old(clients) && published == old(published) && decodeFailures == old(decodeFailures)
    {
      if reply.Ok? {
        var frame := Encode(reply.value, fallback);
        if frame.Ok? {
          sent := sent + [(sock, frame.value)];
        }
      }
    }

    /**
     * `_process_message`: the reply to the sender, then the publications of
     * the message's handler, under the client's device label.
     */
    method ProcessMessage(sock: Socket, m: Message, clockSerial: int, fallback: string)
      requires sock in clients && ValidFallback(fallback)
      modifies this
      ensures clients == old(clients) && decodeFailures == old(decodeFailures)
      ensures sent == old(sent) + ReplyFrames(sock, m, clockSerial, fallback)
      ensures published == old(published) + Publications(topicPrefix, DeviceLabel(clients[sock].deviceId), m)
    {
      var deviceId := DeviceLabel(clients[sock].deviceId);
      // Every branch sends its reply before publishing; `Reply` makes the same choice of reply.
      SendReply(sock, Reply(m, clockSerial), fallback);
      if m.msgId == Constants.TERMINAL_HEARTBEAT {
        PublishWithStatus(deviceId, HeartbeatEvent, true);
      } else if m.msgId == Constants.TERMINAL_REGISTRATION {
        PublishRegistration(deviceId, m);
      } else if m.msgId == Constants.TERMINAL_AUTH {
        PublishAuthentication(deviceId, m);
      } else if m.msgId == Constants.LOCATION_REPORT {
        // `_publish_location` fails before publishing anything: see `LocationFailure`.
      } else if m.msgId == Constants.BATCH_LOCATION_UPLOAD {
        PublishBatchLocation(deviceId, m);
      } else if m.msgId == Constants.TERMINAL_LOGOUT {
        PublishWithStatus(deviceId, LogoutEvent, false);
      }
    }

    /**
     * What `_process_buffer` does with a frame that decodes to `m`: record the
     * device id if none is known yet, then process the message. `Decode`
     * never produces a message, so this is the path a working decoder would take.
     */
    method HandleDecoded(sock: Socket, m: Message, clockSerial: int, fallback: string)
      requires sock in clients && ValidFallback(fallback)
      modifies this
      ensures clients == old(clients)[sock := old(clients[sock]).(deviceId := Identified(old(clients[sock].deviceId), m.phoneNo))]
      ensures sock in clients
      ensures sent == old(sent) + ReplyFrames(sock, m, clockSerial, fallback)
      ensures published == old(published) + Publications(topicPrefix, DeviceLabel(clients[sock].deviceId), m)
      ensures decodeFailures == old(decodeFailures)
    {
      if clients[sock].deviceId == "" {
        clients := clients[sock := clients[sock].(deviceId := m.phoneNo)];
      }
      ProcessMessage(sock, m, clockSerial, fallback);
    }

    /** `_close_client`: "offline" is published only for an identified device, then the client is forgotten. */
    method CloseClient(sock: Socket)
      modifies this
      ensures clients == old(clients) - {sock}
      ensures published == old(published) +
        if sock in old(clients) && old(clients[sock].deviceId) != ""
        then [Publish(topicPrefix, old(clients[sock].deviceId), StatusEvent(false))] else []
      ensures sent == old(sent) && decodeFailures == old(decodeFailures)
    {
      if sock in clients {
        var deviceId := clients[sock].deviceId;
        if deviceId != "" {
          PublishStatus(deviceId, false);
        }
        clients := clients - {sock};
      }
    }
  }
}
