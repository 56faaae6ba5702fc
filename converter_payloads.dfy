/**
 * How the converter reads message bodies before publishing them
 * (`_publish_registration`, `_publish_authentication`, `_publish_location`,
 * `_publish_batch_location` in `converter.py`), and how those readings line up
 * with the layouts the builders of `jt808/message.py` write.
 */
module ConverterPayloads {

  import opened Wrappers
  import opened Packing
  import opened Utils
  import opened Messages
  import opened MessageBuilders

  /** Why a publish handler gave up: the length guard, an index past the end, or a failing `struct.unpack`. */
  datatype ParseFailure = InvalidFormat | IndexOutOfRange | UnpackError

  // ---------------------------------------------------------------------
  // Text fields
  // ---------------------------------------------------------------------

  function ToUpper(c: char): char
  {
    if 'a' <= c <= 'f' then (c as int - 32) as char else c
  }

  /** `''.join(f'{b:02x}' for b in data).upper()`. */
  function UpperHex(data: seq<byte>): (r: string)
    ensures |r| == 2 * |data|
  {
    var lower := BytesToBcd(data);
    seq(|lower|, i requires 0 <= i < |lower| => ToUpper(lower[i]))
  }

  const NUL: char := '\0'

  function StripTrailingNul(s: string): string
  {
    if s != [] && s[|s| - 1] == NUL then StripTrailingNul(s[..|s| - 1]) else s
  }

  function StripLeadingNul(s: string): string
  {
    if s != [] && s[0] == NUL then StripLeadingNul(s[1..]) else s
  }

  /** `s.strip('\x00')`: NUL characters removed from both ends. */
  function StripNul(s: string): string
  {
    StripLeadingNul(StripTrailingNul(s))
  }

  predicate HasNoNul(s: string)
  {
    forall i :: 0 <= i < |s| ==> s[i] != NUL
  }

  /** A fixed-width text field: ASCII with the NUL padding stripped, or upper-case hex when a byte is not ASCII. */
  function DecodeField(b: seq<byte>): string
  {
    match AsciiDecode(b)
      case Some(s) => StripNul(s)
      case None => UpperHex(b)
  }

  /** `k` NUL characters. */
  function Nuls(k: nat): (r: string)
    ensures |r| == k && forall i :: 0 <= i < k ==> r[i] == NUL
  {
    seq(k, _ => NUL)
  }

  lemma {:induction false} StripPadding(s: string, k: nat)
    requires HasNoNul(s)
    ensures StripTrailingNul(s + Nuls(k)) == s
  {
    if k > 0 {
      var t := s + Nuls(k);
      assert t[..|t| - 1] == s + Nuls(k - 1);
      StripPadding(s, k - 1);
    } else {
      assert s + Nuls(k) == s;
      if s != [] {
        assert s[|s| - 1] != NUL;
      }
    }
  }

  /** A padded ASCII field decodes to its text followed by NULs. */
  lemma DecodePadded(s: string, n: nat)
    requires AsciiEncode(s).Some? && |s| <= n
    ensures AsciiDecode(FixedField(AsciiEncode(s).value, n)) == Some(s + Nuls(n - |s|))
  {
    var e := AsciiEncode(s).value;
    var field := FixedField(e, n);
    var padded := s + Nuls(n - |s|);
    forall i | 0 <= i < n
      ensures field[i] < 0x80 && field[i] == padded[i] as int
    {
      if i < |s| {
        assert field[i] == e[i] == s[i] as int;
        assert padded[i] == s[i];
      } else {
        assert padded[i] == NUL;
      }
    }
    var d := AsciiDecode(field).value;
    assert d == padded;
  }

  /** A string of ASCII characters without NUL, no longer than its field, reads back unchanged. */
  lemma FieldRoundTrip(s: string, n: nat)
    requires AsciiEncode(s).Some? && HasNoNul(s) && |s| <= n
    ensures DecodeField(FixedField(AsciiEncode(s).value, n)) == s
  {
    DecodePadded(s, n);
    StripPadding(s, n - |s|);
    if s != [] {
      assert s[0] != NUL;
    }
  }

  // ---------------------------------------------------------------------
  // Registration and authentication
  // ---------------------------------------------------------------------

  /** The fields `_publish_registration` publishes. The plate is kept as the bytes it decodes from. */
  datatype RegistrationInfo = RegistrationInfo(
    provinceId: nat, cityId: nat, manufacturerId: string, terminalModel: string, terminalId: string,
    plateColor: byte, licensePlate: seq<byte>)

  const REGISTRATION_MIN_SIZE: nat := 32

  /**
   * `_publish_registration`: fewer than 32 bytes is rejected by the guard,
   * 32 to 36 bytes fail at `body[36]`, anything longer is read at the
   * offsets of the builder's layout. The plate is taken only when its length
   * byte is present and the plate fits, and is empty otherwise.
   */
  function ParseRegistration(body: seq<byte>): (r: Result<RegistrationInfo, ParseFailure>)
    ensures r == Err(InvalidFormat) <==> |body| < REGISTRATION_MIN_SIZE
    ensures r.Ok? <==> |body| >= REGISTRATION_FIXED_SIZE
    ensures r.Ok? ==> r.value.licensePlate == [] || 38 + |r.value.licensePlate| <= |body|
  {
    if |body| < REGISTRATION_MIN_SIZE then Err(InvalidFormat)
    else if |body| < REGISTRATION_FIXED_SIZE then Err(IndexOutOfRange)
    else
      var plate := if |body| > 37 && 38 + body[37] <= |body| then body[38..38 + body[37]] else [];
      Ok(RegistrationInfo(
        BigEndian(body[0..2]), BigEndian(body[2..4]),
        DecodeField(body[4..9]), DecodeField(body[9..29]), DecodeField(body[29..36]),
        body[36], plate))
  }

  /**
   * The converter reads back every field of a registration the builder
   * wrote, provided the three strings are ASCII without NUL and fit their
   * 5-, 20- and 7-byte fields.
   */
  lemma RegistrationRoundTrip(
    phoneNo: string, provinceId: int, cityId: int, manufacturerId: string, terminalModel: string,
    terminalId: string, plateColor: int, licensePlate: seq<byte>, msgSerialNo: int)
    requires CreateRegistration(phoneNo, provinceId, cityId, manufacturerId, terminalModel,
                                terminalId, plateColor, licensePlate, msgSerialNo).Ok?
    requires HasNoNul(manufacturerId) && |manufacturerId| <= MANUFACTURER_SIZE
    requires HasNoNul(terminalModel) && |terminalModel| <= MODEL_SIZE
    requires HasNoNul(terminalId) && |terminalId| <= TERMINAL_ID_SIZE
    ensures ParseRegistration(CreateRegistration(phoneNo, provinceId, cityId, manufacturerId, terminalModel,
                                                 terminalId, plateColor, licensePlate, msgSerialNo).value.body)
         == Ok(RegistrationInfo(provinceId, cityId, manufacturerId, terminalModel, terminalId, plateColor, licensePlate))
  {
    var body := CreateRegistration(phoneNo, provinceId, cityId, manufacturerId, terminalModel,
                                   terminalId, plateColor, licensePlate, msgSerialNo).value.body;
    RegistrationLayout(phoneNo, provinceId, cityId, manufacturerId, terminalModel,
                       terminalId, plateColor, licensePlate, msgSerialNo);
    FieldRoundTrip(manufacturerId, MANUFACTURER_SIZE);
    FieldRoundTrip(terminalModel, MODEL_SIZE);
    FieldRoundTrip(terminalId, TERMINAL_ID_SIZE);
    ParseFullRegistration(body);
  }

  /** A body whose length byte covers exactly the rest is read with the whole rest as the plate. */
  lemma ParseFullRegistration(body: seq<byte>)
    requires |body| >= REGISTRATION_FIXED_SIZE + 1 && body[37] == |body| - 38
    ensures ParseRegistration(body) == Ok(RegistrationInfo(
      BigEndian(body[0..2]), BigEndian(body[2..4]),
      DecodeField(body[4..9]), DecodeField(body[9..29]), DecodeField(body[29..36]),
      body[36], body[38..]))
  {
    assert body[38..38 + body[37]] == body[38..];
  }

  /** `_publish_authentication`: an empty body is rejected; otherwise the code is `body[1:1+body[0]]` when it fits, else empty. */
  function ParseAuthentication(body: seq<byte>): (r: Result<seq<byte>, ParseFailure>)
    ensures r.Err? <==> body == []
    ensures r.Ok? ==> |r.value| <= |body| - 1
  {
    if |body| < 1 then Err(InvalidFormat)
    else if 1 + body[0] <= |body| then Ok(body[1..1 + body[0]])
    else Ok([])
  }

  /** The converter reads back the code the terminal's builder wrote. */
  lemma AuthenticationRoundTrip(phoneNo: string, authCode: seq<byte>, msgSerialNo: int)
    requires CreateAuthentication(phoneNo, authCode, msgSerialNo).Ok?
    ensures ParseAuthentication(CreateAuthentication(phoneNo, authCode, msgSerialNo).value.body) == Ok(authCode)
  {
    var body := CreateAuthentication(phoneNo, authCode, msgSerialNo).value.body;
    assert body[1..1 + body[0]] == body[1..];
  }

  // ---------------------------------------------------------------------
  // Location report
  // ---------------------------------------------------------------------

  const LOCATION_MIN_SIZE: nat := 28
  /** `>IIIIHHB` needs 21 bytes; `_publish_location` and `_publish_batch_location` hand it 19. */
  const LOCATION_UNPACK_SIZE: nat := 21
  const LOCATION_SLICE_SIZE: nat := 19

  /**
   * Why `_publish_location` publishes nothing: the length guard for bodies
   * under 28 bytes, otherwise the unpack of the basic fields from a slice
   * two bytes too short, which raises before anything is published.
   */
  function LocationFailure(body: seq<byte>): (r: ParseFailure)
    ensures r == InvalidFormat <==> |body| < LOCATION_MIN_SIZE
    ensures r != InvalidFormat ==> LOCATION_SLICE_SIZE < LOCATION_UNPACK_SIZE && r == UnpackError
  {
    if |body| < LOCATION_MIN_SIZE then InvalidFormat else UnpackError
  }

  /** An extra item as the loop finds it: its id and its value bytes. */
  datatype RawItem = RawItem(id: byte, value: seq<byte>)

  /** The items the loop reads from `pos` on: it stops when fewer than two bytes remain or when an item's value would run past the end. */
  function RawItems(body: seq<byte>, pos: nat): seq<RawItem>
    decreases |body| - pos
  {
    if pos + 2 > |body| then []
    else
      var len := body[pos + 1];
      if pos + 2 + len > |body| then []
      else [RawItem(body[pos], body[pos + 2..pos + 2 + len])] + RawItems(body, pos + 2 + len)
  }

  /** The bytes of a list of items, each written as id, length, value. */
  function EncodeRaw(items: seq<RawItem>): seq<byte>
  {
    if items == [] then [] else EncodeItem(items[0]) + EncodeRaw(items[1..])
  }

  /** One item as id, length, value. */
  function EncodeItem(item: RawItem): (r: seq<byte>)
    ensures |r| == 2 + |item.value| && r[0] == item.id && r[1] == |item.value| % 0x100 && r[2..] == item.value
  {
    [item.id, |item.value| % 0x100] + item.value
  }

  /** Bytes that form an (id, length, value) triple are the encoding of that item. */
  lemma TripleItem(b: seq<byte>)
    requires |b| >= 2 && |b| == 2 + b[1] as int
    ensures |b[2..]| < 0x100 && EncodeItem(RawItem(b[0], b[2..])) == b
  {
    var n: int := b[1];
    assert n % 0x100 == n;
    assert b == [b[0], b[1]] + b[2..];
  }

  predicate ShortValues(items: seq<RawItem>)
  {
    forall i :: 0 <= i < |items| ==> |items[i].value| < 0x100
  }

  /** The loop reads only whole items, in order, from the bytes it was given: their encoding is exactly the bytes it consumed. */
  lemma {:induction false} RawItemsConsumePrefix(body: seq<byte>, pos: nat)
    requires pos <= |body|
    ensures ShortValues(RawItems(body, pos))
    ensures pos + |EncodeRaw(RawItems(body, pos))| <= |body|
    ensures body[pos..pos + |EncodeRaw(RawItems(body, pos))|] == EncodeRaw(RawItems(body, pos))
    decreases |body| - pos
  {
    if pos + 2 <= |body| {
      var len := body[pos + 1];
      if pos + 2 + len <= |body| {
        var next := pos + 2 + len;
        RawItemsConsumePrefix(body, next);
        var items := RawItems(body, pos);
        var item := body[pos..next];
        assert items[0] == RawItem(item[0], item[2..]) && items[1..] == RawItems(body, next);
        TripleItem(item);
        var tail := EncodeRaw(RawItems(body, next));
        assert EncodeRaw(items) == item + tail;
        assert pos + |EncodeRaw(items)| == next + |tail| && body[next..next + |tail|] == tail;
        assert body[pos..next + |tail|] == item + tail;
      }
    }
  }

  /** Reading from `pos` sees only what comes after `pos`. */
  lemma {:induction false} RawItemsShift(prefix: seq<byte>, rest: seq<byte>, pos: nat)
    ensures RawItems(prefix + rest, |prefix| + pos) == RawItems(rest, pos)
    decreases |rest| - pos
  {
    var body := prefix + rest;
    var p := |prefix| + pos;
    if p + 2 <= |body| {
      assert body[p + 1] == rest[pos + 1];
      var len := rest[pos + 1];
      if p + 2 + len <= |body| {
        assert body[p] == rest[pos];
        assert body[p + 2..p + 2 + len] == rest[pos + 2..pos + 2 + len];
        RawItemsShift(prefix, rest, pos + 2 + len);
      }
    }
  }

  /** One item written in front of `rest` is read back, then reading goes on in `rest`. */
  lemma RawItemsHead(item: RawItem, rest: seq<byte>)
    requires |item.value| < 0x100
    ensures RawItems(EncodeItem(item) + rest, 0) == [item] + RawItems(rest, 0)
  {
    var head := EncodeItem(item);
    var body := head + rest;
    assert body[1] == |item.value|;
    assert body[2..2 + |item.value|] == item.value;
    RawItemsShift(head, rest, 0);
  }

  lemma ShortValuesTail(items: seq<RawItem>)
    requires items != [] && ShortValues(items)
    ensures |items[0].value| < 0x100 && ShortValues(items[1..])
  {
    forall i | 0 <= i < |items[1..]|
      ensures |items[1..][i].value| < 0x100
    {
      assert items[1..][i] == items[i + 1];
    }
  }

  /** Items written one after another are read back one after another. */
  lemma {:induction false} RawItemsOfEncoding(items: seq<RawItem>, rest: seq<byte>)
    requires ShortValues(items)
    ensures RawItems(EncodeRaw(items) + rest, 0) == items + RawItems(rest, 0)
  {
    var r := RawItems(rest, 0);
    if items == [] {
      assert EncodeRaw(items) + rest == rest;
      assert items + r == r;
    } else {
      var item, tail := items[0], items[1..];
      ShortValuesTail(items);
      var later := EncodeRaw(tail) + rest;
      calc {
        RawItems(EncodeRaw(items) + rest, 0);
        { assert EncodeRaw(items) + rest == EncodeItem(item) + later; }
        RawItems(EncodeItem(item) + later, 0);
        { RawItemsHead(item, later); }
        [item] + RawItems(later, 0);
        { RawItemsOfEncoding(tail, rest); }
        [item] + (tail + r);
        { assert items == [item] + tail; }
        items + r;
      }
    }
  }

  lemma {:induction false} EncodeRawAppend(a: seq<RawItem>, b: seq<RawItem>)
    ensures EncodeRaw(a + b) == EncodeRaw(a) + EncodeRaw(b)
  {
    if a == [] {
      assert a + b == b;
    } else {
      assert (a + b)[0] == a[0] && (a + b)[1..] == a[1..] + b;
      EncodeRawAppend(a[1..], b);
    }
  }

  /** The (id, value) the builder writes for each entry of the extra-item dictionary. */
  function BuiltItems(items: seq<(int, InfoValue)>): seq<RawItem>
    requires InfoItems(items).Ok?
    ensures |BuiltItems(items)| == |items|
  {
    if items == [] then []
    else
      var last := items[|items| - 1];
      InfoItemIsTriple(last.0, last.1);
      var b := InfoItem(last.0, last.1).value;
      BuiltItems(items[..|items| - 1]) + [RawItem(b[0], b[2..])]
  }

  /** The last item of a successful encoding is encoded after the others. */
  lemma InfoItemsLast(items: seq<(int, InfoValue)>)
    requires items != [] && InfoItems(items).Ok?
    ensures var last := items[|items| - 1];
      && InfoItems(items[..|items| - 1]).Ok? && InfoItem(last.0, last.1).Ok?
      && InfoItems(items).value == InfoItems(items[..|items| - 1]).value + InfoItem(last.0, last.1).value
  {
  }

  /** The last built item is the last builder triple, split into id and value. */
  lemma BuiltItemsLast(items: seq<(int, InfoValue)>)
    requires items != [] && InfoItems(items).Ok?
    ensures InfoItems(items[..|items| - 1]).Ok?
    ensures var last, item := items[|items| - 1], BuiltItems(items)[|items| - 1];
      && BuiltItems(items) == BuiltItems(items[..|items| - 1]) + [item]
      && |item.value| < 0x100 && EncodeItem(item) == InfoItem(last.0, last.1).value
  {
    InfoItemsLast(items);
    var last := items[|items| - 1];
    InfoItemIsTriple(last.0, last.1);
    var b := InfoItem(last.0, last.1).value;
    var init := BuiltItems(items[..|items| - 1]);
    assert BuiltItems(items) == init + [RawItem(b[0], b[2..])];
    assert BuiltItems(items)[|items| - 1] == RawItem(b[0], b[2..]);
    TripleItem(b);
  }

  lemma {:induction false} BuiltItemsEncoding(items: seq<(int, InfoValue)>)
    requires InfoItems(items).Ok?
    ensures ShortValues(BuiltItems(items))
    ensures EncodeRaw(BuiltItems(items)) == InfoItems(items).value
  {
    if items != [] {
      var init, built := items[..|items| - 1], BuiltItems(items);
      var item := built[|items| - 1];
      InfoItemsLast(items);
      BuiltItemsLast(items);
      BuiltItemsEncoding(init);
      forall i | 0 <= i < |built|
        ensures |built[i].value| < 0x100
      {
        if i < |init| {
          assert built[i] == BuiltItems(init)[i];
        }
      }
      EncodeRawAppend(BuiltItems(init), [item]);
      assert EncodeRaw([item]) == EncodeItem(item) + EncodeRaw([]);
    } else {
      assert EncodeRaw([]) == [];
    }
  }

  /** Read from the start of the extra items, the loop recovers each item the builder wrote, in order. */
  lemma ExtraItemsRoundTrip(items: seq<(int, InfoValue)>)
    requires InfoItems(items).Ok?
    ensures RawItems(InfoItems(items).value, 0) == BuiltItems(items)
  {
    BuiltItemsEncoding(items);
    RawItemsOfEncoding(BuiltItems(items), []);
    assert EncodeRaw(BuiltItems(items)) + [] == InfoItems(items).value;
    assert BuiltItems(items) + [] == BuiltItems(items);
  }

  /**
   * The converter starts reading at offset 28 while the builder's fixed part
   * is 27 bytes, so on a built location body the loop starts one byte into
   * the first extra item and takes that item's length byte for an id.
   */
  lemma ExtraItemsMisaligned(fixed: seq<byte>, items: seq<(int, InfoValue)>)
    requires |fixed| == LOCATION_FIXED_SIZE && InfoItems(items).Ok?
    ensures RawItems(fixed + InfoItems(items).value, LOCATION_MIN_SIZE) == RawItems(InfoItems(items).value, 1)
    ensures items != [] && RawItems(InfoItems(items).value, 1) != [] ==>
      RawItems(InfoItems(items).value, 1)[0].id == |BuiltItems(items)[0].value|
  {
    RawItemsShift(fixed, InfoItems(items).value, 1);
    if items != [] {
      BuiltItemsEncoding(items);
      FirstReadIsLength(BuiltItems(items));
    }
  }

  /** Reading one byte into encoded items, the first id seen is the first item's length. */
  lemma FirstReadIsLength(built: seq<RawItem>)
    requires built != [] && ShortValues(built)
    ensures RawItems(EncodeRaw(built), 1) != [] ==> RawItems(EncodeRaw(built), 1)[0].id == |built[0].value|
  {
    var e := EncodeRaw(built);
    assert e == EncodeItem(built[0]) + EncodeRaw(built[1..]);
    assert e[1] == |built[0].value|;
  }

  /** The value the converter publishes for an item: tenths for mileage, fuel and speed, whole metres for altitude, hex otherwise. */
  datatype ItemValue = Tenths(raw: nat) | Whole(raw: nat) | Hex(text: string)

  /** The dictionary key and value of one item; known ids with an unexpected length fall back to `id_XX` and hex. */
  function ItemEntry(item: RawItem): (string, ItemValue)
  {
    var n := |item.value|;
    if item.id == 0x01 && n == 4 then ("mileage", Tenths(BigEndian(item.value)))
    else if item.id == 0x02 && n == 2 then ("fuel", Tenths(BigEndian(item.value)))
    else if item.id == 0x03 && n == 2 then ("speed_sensor", Tenths(BigEndian(item.value)))
    else if item.id == 0x04 && n == 2 then ("altitude_sensor", Whole(BigEndian(item.value)))
    else ("id_" + UpperHex([item.id]), Hex(BytesToBcd(item.value)))
  }

  /** The dictionary after storing `items` into `info` in order; a later item with the same key overwrites. */
  function StoreItems(info: map<string, ItemValue>, items: seq<RawItem>): map<string, ItemValue>
    decreases |items|
  {
    if items == [] then info
    else StoreItems(info[ItemEntry(items[0]).0 := ItemEntry(items[0]).1], items[1..])
  }

  /** Every key the loop stores comes from an item it read, and every item read leaves its key present. */
  lemma {:induction false} StoreItemsKeys(info: map<string, ItemValue>, items: seq<RawItem>)
    ensures StoreItems(info, items).Keys == info.Keys + set i | 0 <= i < |items| :: ItemEntry(items[i]).0
    decreases |items|
  {
    if items != [] {
      StoreItemsKeys(info[ItemEntry(items[0]).0 := ItemEntry(items[0]).1], items[1..]);
      var s1 := set i | 0 <= i < |items| :: ItemEntry(items[i]).0;
      var s2 := set i | 0 <= i < |items[1..]| :: ItemEntry(items[1..][i]).0;
      assert s1 == {ItemEntry(items[0]).0} + s2 by {
        forall k | k in s1
          ensures k in {ItemEntry(items[0]).0} + s2
        {
          var i :| 0 <= i < |items| && ItemEntry(items[i]).0 == k;
          if i > 0 {
            assert items[1..][i - 1] == items[i];
          }
        }
        forall k | k in s2
          ensures k in s1
        {
          var i :| 0 <= i < |items[1..]| && ItemEntry(items[1..][i]).0 == k;
          assert items[1..][i] == items[i + 1];
        }
      }
    }
  }

  /** The extra-item loop of `_publish_location`: from offset 28, only when the body is longer than 28 bytes. */
  method ParseAdditionalInfo(body: seq<byte>) returns (info: map<string, ItemValue>)
    ensures info == if |body| > LOCATION_MIN_SIZE then StoreItems(map[], RawItems(body, LOCATION_MIN_SIZE)) else map[]
  {
    info := map[];
    if |body| > LOCATION_MIN_SIZE {
      var pos := LOCATION_MIN_SIZE;
      while pos < |body|
        invariant LOCATION_MIN_SIZE <= pos
        invariant StoreItems(info, RawItems(body, pos)) == StoreItems(map[], RawItems(body, LOCATION_MIN_SIZE))
        decreases |body| - pos
      {
        if pos + 2 > |body| {
          NoMoreItems(body, pos);
          break;
        }
        var id := body[pos];
        var len := body[pos + 1];
        if pos + 2 + len > |body| {
          NoMoreItems(body, pos);
          break;
        }
        var next := pos + 2 + len;
        var entry := ItemEntry(RawItem(id, body[pos + 2..next]));
        StoreOneItem(info, body, pos, next, entry);
        info := info[entry.0 := entry.1];
        pos := next;
      }
    }
  }

  /** The loop stops where no complete item starts. */
  lemma NoMoreItems(body: seq<byte>, pos: nat)
    requires pos + 2 > |body| || pos + 2 + body[pos + 1] > |body|
    ensures RawItems(body, pos) == []
  {
  }

  /** One pass of the loop: the item at `pos` is stored, then reading goes on after it. */
  lemma StoreOneItem(info: map<string, ItemValue>, body: seq<byte>, pos: nat, next: nat, entry: (string, ItemValue))
    requires pos + 2 <= |body| && next == pos + 2 + body[pos + 1] <= |body|
    requires entry == ItemEntry(RawItem(body[pos], body[pos + 2..next]))
    ensures StoreItems(info, RawItems(body, pos)) == StoreItems(info[entry.0 := entry.1], RawItems(body, next))
  {
    var items := RawItems(body, pos);
    assert items[0] == RawItem(body[pos], body[pos + 2..next]);
    assert items[1..] == RawItems(body, next);
  }

  // ---------------------------------------------------------------------
  // Batch upload
  // ---------------------------------------------------------------------

  const BATCH_HEADER_SIZE: nat := 3
  /** The size the batch loop assumes for every location. */
  const BATCH_ITEM_SIZE: nat := 28

  /**
   * `_publish_batch_location`: the (type, number of locations) it publishes,
   * or why it publishes nothing. The loop's first pass either stops at once
   * (no locations announced, or fewer than 28 bytes after the header) or
   * raises at the 19-byte unpack, so a batch is published only with no locations.
   */
  function ParseBatch(body: seq<byte>): (r: Result<(byte, nat), ParseFailure>)
    ensures r == Err(InvalidFormat) <==> |body| < BATCH_HEADER_SIZE
    ensures r.Ok? <==> |body| >= BATCH_HEADER_SIZE
                       && (BigEndian(body[1..3]) == 0 || |body| < BATCH_HEADER_SIZE + BATCH_ITEM_SIZE)
    ensures r.Ok? ==> r.value == (body[0], 0)
  {
    if |body| < BATCH_HEADER_SIZE then Err(InvalidFormat)
    else
      var count := BigEndian(body[1..3]);
      if count == 0 || BATCH_HEADER_SIZE + BATCH_ITEM_SIZE > |body| then Ok((body[0], 0))
      else Err(UnpackError)
  }

  /** A batch built from locations is published (with no locations) only when it is empty or its locations total fewer than 28 bytes. */
  lemma BatchOfBuilder(phoneNo: string, locations: seq<seq<byte>>, typeId: int, msgSerialNo: int)
    requires BatchUpload(phoneNo, locations, typeId, msgSerialNo).Ok?
    ensures var body := BatchUpload(phoneNo, locations, typeId, msgSerialNo).value.body;
      ParseBatch(body).Ok? <==> |locations| == 0 || |Flatten(locations)| < BATCH_ITEM_SIZE
  {
    var body := BatchUpload(phoneNo, locations, typeId, msgSerialNo).value.body;
    assert body[1..3] == U16(|locations|);
  }
}
