/**
 * The `Message` record of `jt808/message.py` and its wire form: the body
 * attribute word, the normalisation of the phone number into the 6-byte
 * header field, `encode` and `decode`.
 *
 * The header written here is the code's own `>HH6sHH` layout (14 bytes, or
 * 18 with the sub-package block), not the 12-byte BCD header of JT/T 808-2013.
 * `decode` unpacks that 14-byte layout from a 12-byte slice, so it raises on
 * every input; the model keeps that behaviour.
 */
module Messages {

  import opened Wrappers
  import opened Packing
  import opened Bits
  import opened Utils

  /** A message as the Python class holds it. `subpackageInfo` is the (total, sequence) pair, or `None`. */
  datatype Message = Message(
    msgId: int,
    phoneNo: string,
    body: seq<byte>,
    msgSerialNo: int,
    isSubpackage: bool,
    encrypted: bool,
    subpackageInfo: Option<(int, int)>)

  /** `Message(msg_id, phone_no, body, msg_serial_no)` with the remaining arguments left at their defaults. */
  function Plain(msgId: int, phoneNo: string, body: seq<byte>, msgSerialNo: int): Message
  {
    Message(msgId, phoneNo, body, msgSerialNo, false, false, None)
  }

  /** The exceptions the encoders raise: `struct.error`, `ValueError` from `bytes([...])` or `int(s, 16)`, `UnicodeEncodeError`. */
  datatype PackError = StructError | ByteValueError | HexParseError | AsciiEncodeError

  // ---------------------------------------------------------------------
  // Body attributes
  // ---------------------------------------------------------------------

  const ENCRYPTION_BIT: nat := 0x400
  const SUBPACKAGE_BIT: nat := 0x2000

  /** `get_body_attr`: the body length, not masked to 10 bits, with bit 10 and bit 13 raised by the two flags. */
  function BodyAttr(m: Message): nat
  {
    var attr := |m.body|;
    var attr := if m.encrypted then SetFlag(attr, ENCRYPTION_BIT) else attr;
    if m.isSubpackage then SetFlag(attr, SUBPACKAGE_BIT) else attr
  }

  /** For a body shorter than 1024 bytes the attribute word carries the length in bits 0-9 and each flag in its own bit. */
  lemma BodyAttrFields(m: Message)
    requires |m.body| < 0x400
    ensures BodyAttr(m) % 0x400 == |m.body|
    ensures HasFlag(BodyAttr(m), ENCRYPTION_BIT) <==> m.encrypted
    ensures HasFlag(BodyAttr(m), SUBPACKAGE_BIT) <==> m.isSubpackage
    ensures !HasFlag(BodyAttr(m), 0x800) && !HasFlag(BodyAttr(m), 0x1000) && BodyAttr(m) < 0x4000
  {
  }

  /** The length is not masked: a body of 1024 to 2047 bytes reads as encrypted whether or not it is. */
  lemma BodyAttrLengthSpills(m: Message)
    requires 0x400 <= |m.body| < 0x800
    ensures HasFlag(BodyAttr(m), ENCRYPTION_BIT)
  {
  }

  // ---------------------------------------------------------------------
  // Phone number
  // ---------------------------------------------------------------------

  const PHONE_DIGITS: nat := 12
  const PHONE_FIELD_SIZE: nat := 6

  predicate IsDigit(c: char) { '0' <= c <= '9' }

  predicate AllDigits(s: string) { forall i :: 0 <= i < |s| ==> IsDigit(s[i]) }

  /** `str.isdigit`: non-empty and every character a digit. */
  predicate IsDigitString(s: string) { s != [] && AllDigits(s) }

  /** The random replacement: `random.randint(100000000000, 999999999999)` printed in decimal. */
  predicate ValidFallback(fallback: string)
  {
    |fallback| == PHONE_DIGITS && IsDigitString(fallback) && fallback[0] != '0'
  }

  /** `re.sub(r'\D', '', s)`: the digits of `s`, in order. */
  function DigitsOnly(s: string): (r: string)
    ensures AllDigits(r) && |r| <= |s|
  {
    if s == [] then "" else (if IsDigit(s[0]) then [s[0]] else "") + DigitsOnly(s[1..])
  }

  lemma {:induction false} DigitsOnlyOfDigits(s: string)
    requires AllDigits(s)
    ensures DigitsOnly(s) == s
  {
    if s != [] {
      DigitsOnlyOfDigits(s[1..]);
      assert s == [s[0]] + s[1..];
    }
  }

  function Repeat(c: char, n: nat): (r: string)
    ensures |r| == n && forall i :: 0 <= i < n ==> r[i] == c
  {
    seq(n, _ => c)
  }

  /**
   * The phone string `encode` settles on: the string itself if it is all
   * digits, else its digits, else the random replacement; then fitted to 12
   * characters.
   */
  function NormalizePhone(phone: string, fallback: string): (r: string)
    requires ValidFallback(fallback)
    ensures |r| == PHONE_DIGITS && AllDigits(r)
  {
    var s := if IsDigitString(phone) then phone
             else if DigitsOnly(phone) != "" then DigitsOnly(phone)
             else fallback;
    FitPhone(s)
  }

  /** The last 12 characters, or the whole string left-padded with '0' to 12. */
  function FitPhone(s: string): (r: string)
    requires AllDigits(s)
    ensures |r| == PHONE_DIGITS && AllDigits(r)
  {
    if |s| > PHONE_DIGITS then s[|s| - PHONE_DIGITS..]
    else if |s| < PHONE_DIGITS then Repeat('0', PHONE_DIGITS - |s|) + s
    else s
  }

  /** Fitting keeps the last 12 characters, or all of them behind leading zeros. */
  lemma FitPhoneKeeps(s: string)
    requires AllDigits(s)
    ensures var r := FitPhone(s);
      && (|s| >= PHONE_DIGITS ==> r == s[|s| - PHONE_DIGITS..])
      && (|s| < PHONE_DIGITS ==>
            r[PHONE_DIGITS - |s|..] == s && forall i :: 0 <= i < PHONE_DIGITS - |s| ==> r[i] == '0')
  {
    if |s| == PHONE_DIGITS {
      assert s[|s| - PHONE_DIGITS..] == s;
    }
  }

  /** The digits of the phone number survive normalisation: the last 12 of them, or all of them behind leading zeros; the replacement is used only when there are none. */
  lemma NormalizePhoneKeepsDigits(phone: string, fallback: string)
    requires ValidFallback(fallback)
    ensures var d, r := DigitsOnly(phone), NormalizePhone(phone, fallback);
      && (d == "" ==> r == fallback)
      && (|d| >= PHONE_DIGITS ==> r == d[|d| - PHONE_DIGITS..])
      && (0 < |d| < PHONE_DIGITS ==>
            r[PHONE_DIGITS - |d|..] == d && forall i :: 0 <= i < PHONE_DIGITS - |d| ==> r[i] == '0')
  {
    var d := DigitsOnly(phone);
    if IsDigitString(phone) {
      DigitsOnlyOfDigits(phone);
    }
    var s := if d == "" then fallback else d;
    assert NormalizePhone(phone, fallback) == FitPhone(s);
    FitPhoneKeeps(s);
  }

  /** The 6-byte phone field of the header: the normalised string encoded as ASCII, then cut to 6 bytes by the `6s` format. */
  function PhoneField(phone: string, fallback: string): seq<byte>
    requires ValidFallback(fallback)
  {
    match AsciiEncode(NormalizePhone(phone, fallback))
      case Some(b) => FixedField(b, PHONE_FIELD_SIZE)
      case None => FixedField(DEFAULT_PHONE, PHONE_FIELD_SIZE)
  }

  /** `b'000000000000'`, used when the phone string cannot be prepared. */
  const DEFAULT_PHONE: seq<byte> := [0x30, 0x30, 0x30, 0x30, 0x30, 0x30, 0x30, 0x30, 0x30, 0x30, 0x30, 0x30]

  /** The phone field holds the ASCII codes of the first six normalised digits, and nothing of the last six. */
  lemma PhoneFieldIsFirstSixDigits(phone: string, fallback: string)
    requires ValidFallback(fallback)
    ensures var r, f := NormalizePhone(phone, fallback), PhoneField(phone, fallback);
      |f| == PHONE_FIELD_SIZE && forall i :: 0 <= i < PHONE_FIELD_SIZE ==> f[i] == r[i] as int
  {
    var r := NormalizePhone(phone, fallback);
    assert forall i :: 0 <= i < |r| ==> IsAscii(r[i]);
  }

  /** Two devices whose normalised numbers share their first six digits get the same phone field. */
  lemma PhoneFieldCollides(p: string, q: string, fallback: string)
    requires ValidFallback(fallback)
    requires NormalizePhone(p, fallback)[..PHONE_FIELD_SIZE] == NormalizePhone(q, fallback)[..PHONE_FIELD_SIZE]
    ensures PhoneField(p, fallback) == PhoneField(q, fallback)
  {
    PhoneFieldIsFirstSixDigits(p, fallback);
    PhoneFieldIsFirstSixDigits(q, fallback);
    var rp, rq := NormalizePhone(p, fallback), NormalizePhone(q, fallback);
    forall i | 0 <= i < PHONE_FIELD_SIZE
      ensures PhoneField(p, fallback)[i] == PhoneField(q, fallback)[i]
    {
      assert rp[..PHONE_FIELD_SIZE][i] == rq[..PHONE_FIELD_SIZE][i];
    }
  }

  // ---------------------------------------------------------------------
  // Encoding
  // ---------------------------------------------------------------------

  /** The sub-package block is written only when the flag is set and the pair is present. */
  predicate HasSubpackageBlock(m: Message)
  {
    m.isSubpackage && m.subpackageInfo.Some?
  }

  /** Every header field fits its `struct` format. */
  predicate Encodable(m: Message)
  {
    && FitsU16(m.msgId) && FitsU16(BodyAttr(m)) && FitsU16(m.msgSerialNo)
    && (HasSubpackageBlock(m) ==> FitsU16(m.subpackageInfo.value.0) && FitsU16(m.subpackageInfo.value.1))
  }

  /** The header: `>HH6sHH` (id, attributes, phone, serial, 0) and, when present, `>HH` (total, sequence). */
  function Header(m: Message, fallback: string): Result<seq<byte>, PackError>
    requires ValidFallback(fallback)
  {
    if !(FitsU16(m.msgId) && FitsU16(BodyAttr(m)) && FitsU16(m.msgSerialNo)) then Err(StructError)
    else
      var base := U16(m.msgId) + U16(BodyAttr(m)) + PhoneField(m.phoneNo, fallback) + U16(m.msgSerialNo) + U16(0);
      if HasSubpackageBlock(m) then
        var (total, sequence) := m.subpackageInfo.value;
        if FitsU16(total) && FitsU16(sequence) then Ok(base + U16(total) + U16(sequence)) else Err(StructError)
      else Ok(base)
  }

  /** Header followed by body: the bytes the check code covers. */
  function Payload(m: Message, fallback: string): Result<seq<byte>, PackError>
    requires ValidFallback(fallback)
  {
    match Header(m, fallback)
      case Err(e) => Err(e)
      case Ok(header) => Ok(header + m.body)
  }

  /** `encode`: the payload and its check code, escaped and framed by 0x7e. */
  function Encode(m: Message, fallback: string): (r: Result<seq<byte>, PackError>)
    requires ValidFallback(fallback)
    ensures r.Ok? <==> Encodable(m)
    ensures r.Err? ==> r.error == StructError
  {
    match Payload(m, fallback)
      case Err(e) => Err(e)
      case Ok(data) => Ok([FLAG] + Escaped(data + [XorOf(data)]) + [FLAG])
  }

  /** What a reader of the header finds at each offset. */
  lemma HeaderLayout(m: Message, fallback: string)
    requires ValidFallback(fallback) && Encodable(m)
    ensures Header(m, fallback).Ok?
    ensures var h := Header(m, fallback).value;
      && |h| == (if HasSubpackageBlock(m) then 18 else 14)
      && BigEndian(h[0..2]) == m.msgId
      && BigEndian(h[2..4]) == BodyAttr(m)
      && h[4..10] == PhoneField(m.phoneNo, fallback)
      && BigEndian(h[10..12]) == m.msgSerialNo
      && BigEndian(h[12..14]) == 0
      && (HasSubpackageBlock(m) ==>
            BigEndian(h[14..16]) == m.subpackageInfo.value.0 && BigEndian(h[16..18]) == m.subpackageInfo.value.1)
  {
    PhoneFieldIsFirstSixDigits(m.phoneNo, fallback);
    var h := Header(m, fallback).value;
    assert h[0..2] == U16(m.msgId);
    assert h[2..4] == U16(BodyAttr(m));
    assert h[10..12] == U16(m.msgSerialNo);
    assert h[12..14] == U16(0);
    if HasSubpackageBlock(m) {
      assert h[14..16] == U16(m.subpackageInfo.value.0);
      assert h[16..18] == U16(m.subpackageInfo.value.1);
    }
  }

  /**
   * An encoded message is delimited by 0x7e at both ends, holds no other 0x7e,
   * and un-escapes to the payload followed by its check code.
   */
  lemma EncodeFraming(m: Message, fallback: string)
    requires ValidFallback(fallback) && Encodable(m)
    ensures var f, data := Encode(m, fallback).value, Payload(m, fallback).value;
      && |f| >= 2 && f[0] == FLAG && f[|f| - 1] == FLAG
      && (forall i :: 0 < i < |f| - 1 ==> f[i] != FLAG)
      && Unescaped(f[1..|f| - 1]) == data + [XorOf(data)]
      && XorOf(Unescaped(f[1..|f| - 1])) == 0
  {
    var data := Payload(m, fallback).value;
    var e := Escaped(data + [XorOf(data)]);
    var f := Encode(m, fallback).value;
    assert f == [FLAG] + e + [FLAG];
    assert f[1..|f| - 1] == e;
    EscapedHasNoFlag(data + [XorOf(data)]);
    UnescapeEscape(data + [XorOf(data)]);
    ChecksumOfCheckedIsZero(data);
    forall i | 0 < i < |f| - 1
      ensures f[i] != FLAG
    {
      assert f[i] == e[i - 1];
    }
  }

  // ---------------------------------------------------------------------
  // Decoding
  // ---------------------------------------------------------------------

  /** The exception `decode` raises, and where. */
  datatype DecodeError =
    | BadFraming                                         // no 0x7e at one end
    | EmptyPayload                                       // IndexError: nothing between the delimiters
    | ChecksumMismatch(received: byte, calculated: byte)
    | TooShort(length: nat)                              // fewer than 12 bytes before the check code
    | HeaderUnpackError                                  // struct.error: `>HH6sHH` needs 14 bytes, the slice has 12

  const MIN_HEADER_LEN: nat := 12
  const HEADER_FORMAT_SIZE: nat := 14

  predicate Framed(data: seq<byte>)
  {
    |data| >= 1 && data[0] == FLAG && data[|data| - 1] == FLAG
  }

  /**
   * `decode`. Every input ends in an exception: the checks of framing, check
   * code and minimum length are followed by an unpack of 14 bytes from a
   * slice of at most 12, so no byte string yields a `Message`.
   */
  function Decode(data: seq<byte>): (r: Result<Message, DecodeError>)
    ensures r.Err?
    ensures r.error == BadFraming <==> !Framed(data)
    ensures r.error.ChecksumMismatch? ==> r.error.received != r.error.calculated
    ensures r.error.TooShort? ==> r.error.length < MIN_HEADER_LEN
  {
    if !Framed(data) then Err(BadFraming)
    else
      var inner := if |data| >= 2 then data[1..|data| - 1] else [];
      var unescaped := Unescaped(inner);
      if unescaped == [] then Err(EmptyPayload)
      else
        var msgData := unescaped[..|unescaped| - 1];
        var received := unescaped[|unescaped| - 1];
        var calculated := XorOf(msgData);
        if received != calculated then Err(ChecksumMismatch(received, calculated))
        else if |msgData| < MIN_HEADER_LEN then Err(TooShort(|msgData|))
        else Err(HeaderUnpackError)
  }

  /**
   * A frame produced by `encode` passes the framing, escaping, check-code and
   * length checks of `decode` and fails only at the header unpack.
   */
  lemma DecodeOfEncode(m: Message, fallback: string)
    requires ValidFallback(fallback) && Encodable(m)
    ensures Decode(Encode(m, fallback).value) == Err(HeaderUnpackError)
  {
    EncodeFraming(m, fallback);
    HeaderLayout(m, fallback);
    var f := Encode(m, fallback).value;
    var data := Payload(m, fallback).value;
    var u := data + [XorOf(data)];
    assert Unescaped(f[1..|f| - 1]) == u;
    assert u[..|u| - 1] == data;
  }
}
