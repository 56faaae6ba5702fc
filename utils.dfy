/**
 * The frame-level primitives of JT/T 808-2013 as `jt808/utils.py` implements
 * them: the XOR check code, the escape rule of the standard (0x7e is sent as
 * 0x7d 0x02 and 0x7d as 0x7d 0x01) and its lenient inverse, the hex-string
 * helpers and the integer packing of degrees, minutes and seconds.
 */
module Utils {

  import opened Wrappers
  import opened Packing
  import opened Bits

  // ---------------------------------------------------------------------
  // Check code
  // ---------------------------------------------------------------------

  /** XOR of every byte of `s`, folded from the left as the checksum loop does. */
  function XorOf(s: seq<byte>): byte
  {
    if s == [] then 0 else Xor(XorOf(s[..|s| - 1]), s[|s| - 1])
  }

  /** `calculate_checksum`: the XOR of all bytes, starting from 0. */
  method CalculateChecksum(data: seq<byte>) returns (checksum: byte)
    ensures checksum == XorOf(data)
  {
    checksum := 0;
    for i := 0 to |data|
      invariant checksum == XorOf(data[..i])
    {
      assert data[..i + 1][..i] == data[..i];
      checksum := Xor(checksum, data[i]);
    }
    assert data[..|data|] == data;
  }

  /** The check code of a concatenation is the XOR of the parts' check codes. */
  lemma {:induction false} XorOfConcat(a: seq<byte>, b: seq<byte>)
    ensures XorOf(a + b) == Xor(XorOf(a), XorOf(b))
    decreases |b|
  {
    if b == [] {
      assert a + b == a;
      XorZero(XorOf(a));
    } else {
      var b' := b[..|b| - 1];
      assert (a + b)[..|a + b| - 1] == a + b';
      XorOfConcat(a, b');
      XorAssociates(XorOf(a), XorOf(b'), b[|b| - 1]);
    }
  }

  /** A frame body followed by its own check code has check code 0. */
  lemma ChecksumOfCheckedIsZero(a: seq<byte>)
    ensures XorOf(a + [XorOf(a)]) == 0
  {
    assert (a + [XorOf(a)])[..|a|] == a;
    XorSelf(XorOf(a));
  }

  /** Changing any single byte changes the check code: a one-byte corruption is always detected. */
  lemma ChecksumDetectsOneByteChange(a: seq<byte>, i: nat, v: byte)
    requires i < |a| && v != a[i]
    ensures XorOf(a[i := v]) != XorOf(a)
  {
    var p, q := a[..i], a[i + 1..];
    assert a == p + [a[i]] + q;
    assert a[i := v] == p + [v] + q;
    XorOfConcat(p + [a[i]], q);
    XorOfConcat(p + [v], q);
    assert (p + [a[i]])[..|p|] == p;
    assert (p + [v])[..|p|] == p;
    var x, y := Xor(XorOf(p), a[i]), Xor(XorOf(p), v);
    XorCancels(XorOf(p), a[i]);
    XorCancels(XorOf(p), v);
    assert x != y;
    XorCommutes(x, XorOf(q));
    XorCommutes(y, XorOf(q));
    XorCancels(XorOf(q), x);
    XorCancels(XorOf(q), y);
  }

  // ---------------------------------------------------------------------
  // Escaping
  // ---------------------------------------------------------------------

  /** What one byte becomes under the escape rule. */
  function EscapeByte(b: byte): seq<byte>
  {
    if b == FLAG then [ESCAPE, 0x02]
    else if b == ESCAPE then [ESCAPE, 0x01]
    else [b]
  }

  /** The escaped form of `data`, byte by byte. */
  function Escaped(data: seq<byte>): seq<byte>
  {
    if data == [] then [] else EscapeByte(data[0]) + Escaped(data[1..])
  }

  lemma {:induction false} EscapedConcat(a: seq<byte>, b: seq<byte>)
    ensures Escaped(a + b) == Escaped(a) + Escaped(b)
  {
    if a == [] {
      assert a + b == b;
    } else {
      assert (a + b)[1..] == a[1..] + b;
      EscapedConcat(a[1..], b);
    }
  }

  /** `apply_escape_rules`. */
  method ApplyEscapeRules(data: seq<byte>) returns (escaped: seq<byte>)
    ensures escaped == Escaped(data)
  {
    escaped := [];
    for i := 0 to |data|
      invariant escaped == Escaped(data[..i])
    {
      EscapedStep(data, i);
      if data[i] == FLAG {
        escaped := escaped + [ESCAPE, 0x02];
      } else if data[i] == ESCAPE {
        escaped := escaped + [ESCAPE, 0x01];
      } else {
        escaped := escaped + [data[i]];
      }
    }
    assert data[..|data|] == data;
  }

  /** One more byte of input adds its escaped form to the output. */
  lemma EscapedStep(data: seq<byte>, i: nat)
    requires i < |data|
    ensures Escaped(data[..i + 1]) == Escaped(data[..i]) + EscapeByte(data[i])
  {
    assert data[..i + 1] == data[..i] + [data[i]];
    EscapedConcat(data[..i], [data[i]]);
    assert Escaped([data[i]]) == EscapeByte(data[i]) + Escaped([]);
  }

  /** Escaped output never contains the frame delimiter. */
  lemma {:induction false} EscapedHasNoFlag(data: seq<byte>)
    ensures forall i :: 0 <= i < |Escaped(data)| ==> Escaped(data)[i] != FLAG
  {
    if data != [] {
      EscapedHasNoFlag(data[1..]);
    }
  }

  /** Number of bytes the escape rule doubles: every 0x7e and 0x7d. */
  function SpecialCount(data: seq<byte>): nat
  {
    if data == [] then 0
    else (if data[0] == FLAG || data[0] == ESCAPE then 1 else 0) + SpecialCount(data[1..])
  }

  /** Escaping adds exactly one byte per 0x7e or 0x7d of the input. */
  lemma {:induction false} EscapedLength(data: seq<byte>)
    ensures |Escaped(data)| == |data| + SpecialCount(data)
  {
    if data != [] {
      EscapedLength(data[1..]);
    }
  }

  /**
   * The un-escaped form of `data`, as `remove_escape_rules` scans it: 0x7d 0x02
   * becomes 0x7e, 0x7d 0x01 becomes 0x7d, and every other byte, including a
   * 0x7d followed by anything else or by nothing, is copied through.
   */
  function Unescaped(data: seq<byte>): seq<byte>
  {
    if data == [] then []
    else if data[0] == ESCAPE && |data| >= 2 && data[1] == 0x02 then [FLAG] + Unescaped(data[2..])
    else if data[0] == ESCAPE && |data| >= 2 && data[1] == 0x01 then [ESCAPE] + Unescaped(data[2..])
    else [data[0]] + Unescaped(data[1..])
  }

  /** `remove_escape_rules`. */
  method RemoveEscapeRules(data: seq<byte>) returns (unescaped: seq<byte>)
    ensures unescaped == Unescaped(data)
  {
    unescaped := [];
    var i := 0;
    while i < |data|
      invariant 0 <= i <= |data|
      invariant unescaped + Unescaped(data[i..]) == Unescaped(data)
    {
      UnescapedAt(data, i);
      var head: seq<byte>, next: nat;
      if data[i] == ESCAPE && i + 1 < |data| && data[i + 1] == 0x02 {
        head, next := [FLAG], i + 2;
      } else if data[i] == ESCAPE && i + 1 < |data| && data[i + 1] == 0x01 {
        head, next := [ESCAPE], i + 2;
      } else {
        head, next := [data[i]], i + 1;
      }
      Regroup(unescaped, head, Unescaped(data[next..]));
      unescaped := unescaped + head;
      i := next;
    }
    assert data[|data|..] == [];
  }

  /**
   * Moving the next piece from the rest onto the output keeps their
   * concatenation. Stated on its own so that the loop of `RemoveEscapeRules`
   * uses it as one fact instead of re-deriving it from sequence axioms.
   */
  lemma Regroup(done: seq<byte>, head: seq<byte>, rest: seq<byte>)
    ensures done + (head + rest) == (done + head) + rest
  {
  }

  /** One step of the scan from position `i`. */
  lemma UnescapedAt(data: seq<byte>, i: nat)
    requires i < |data|
    ensures Unescaped(data[i..]) ==
      if data[i] == ESCAPE && i + 1 < |data| && data[i + 1] == 0x02 then [FLAG] + Unescaped(data[i + 2..])
      else if data[i] == ESCAPE && i + 1 < |data| && data[i + 1] == 0x01 then [ESCAPE] + Unescaped(data[i + 2..])
      else [data[i]] + Unescaped(data[i + 1..])
  {
    assert data[i..][1..] == data[i + 1..];
    if i + 1 < |data| {
      assert data[i..][2..] == data[i + 2..];
    }
  }

  /** Un-escaping undoes escaping, for every byte string. */
  lemma {:induction false} UnescapeEscape(x: seq<byte>)
    ensures Unescaped(Escaped(x)) == x
  {
    if x != [] {
      var rest := Escaped(x[1..]);
      UnescapeEscape(x[1..]);
      var e := EscapeByte(x[0]) + rest;
      if x[0] == FLAG || x[0] == ESCAPE {
        assert e[2..] == rest;
      } else {
        assert e[1..] == rest;
      }
      assert x == [x[0]] + x[1..];
    }
  }

  /** Un-escaping never makes its input longer. */
  lemma {:induction false} UnescapedNoLonger(data: seq<byte>)
    ensures |Unescaped(data)| <= |data|
    decreases |data|
  {
    if data != [] {
      if data[0] == ESCAPE && |data| >= 2 && (data[1] == 0x02 || data[1] == 0x01) {
        UnescapedNoLonger(data[2..]);
      } else {
        UnescapedNoLonger(data[1..]);
      }
    }
  }

  /** The un-escaper is lenient: an escape byte not followed by 0x01 or 0x02, or at the very end, is kept. */
  lemma UnescapeLenient(b: byte, rest: seq<byte>)
    requires b != 0x01 && b != 0x02
    ensures Unescaped([ESCAPE, b] + rest) == [ESCAPE] + Unescaped([b] + rest)
    ensures Unescaped([ESCAPE]) == [ESCAPE]
  {
    assert ([ESCAPE, b] + rest)[1..] == [b] + rest;
  }

  // ---------------------------------------------------------------------
  // Hex strings
  // ---------------------------------------------------------------------

  predicate IsLowerHex(c: char) { '0' <= c <= '9' || 'a' <= c <= 'f' }

  /** The lowercase hex digit of a nibble, as the format `{b:02x}` writes it. */
  function HexDigit(n: nat): (c: char)
    requires n < 16
    ensures IsLowerHex(c) && HexValue(c) == Some(n)
  {
    if n < 10 then ('0' as int + n) as char else ('a' as int + n - 10) as char
  }

  /** `bytes_to_bcd`: two lowercase hex digits per byte, high nibble first. */
  function BytesToBcd(data: seq<byte>): (r: string)
    ensures |r| == 2 * |data|
    ensures forall i :: 0 <= i < |r| ==> IsLowerHex(r[i])
  {
    if data == [] then ""
    else [HexDigit(data[0] / 16), HexDigit(data[0] % 16)] + BytesToBcd(data[1..])
  }

  /** Value of a hex digit in either case, as `bytes.fromhex` reads it. */
  function HexValue(c: char): (r: Option<nat>)
    ensures r.Some? ==> r.value < 16
  {
    if '0' <= c <= '9' then Some(c as int - '0' as int)
    else if 'a' <= c <= 'f' then Some(c as int - 'a' as int + 10)
    else if 'A' <= c <= 'F' then Some(c as int - 'A' as int + 10)
    else None
  }

  /** `bytes.fromhex` on a string of digit pairs; `None` where Python raises `ValueError`. */
  function FromHex(s: string): (r: Option<seq<byte>>)
    ensures r.Some? ==> 2 * |r.value| == |s|
  {
    if s == [] then Some([])
    else if |s| == 1 then None
    else match (HexValue(s[0]), HexValue(s[1]), FromHex(s[2..]))
      case (Some(hi), Some(lo), Some(rest)) => Some([16 * hi + lo] + rest)
      case _ => None
  }

  /** `bcd_to_bytes`: an odd-length string is first left-padded with '0'. */
  function BcdToBytes(s: string): Option<seq<byte>>
  {
    FromHex(if |s| % 2 != 0 then "0" + s else s)
  }

  /** `bytes.fromhex` reads back the hex digits `bytes_to_bcd` writes. */
  lemma {:induction false} FromHexOfBcd(data: seq<byte>)
    ensures FromHex(BytesToBcd(data)) == Some(data)
  {
    if data != [] {
      FromHexOfBcd(data[1..]);
      var s := BytesToBcd(data);
      var hi, lo := data[0] / 16, data[0] % 16;
      assert s[0] == HexDigit(hi) && s[1] == HexDigit(lo);
      assert s[2..] == BytesToBcd(data[1..]);
      assert 16 * hi + lo == data[0];
      assert data == [data[0]] + data[1..];
    }
  }

  /** `bcd_to_bytes` inverts `bytes_to_bcd`: the digit string is never odd, so no padding is added. */
  lemma BcdRoundTrip(data: seq<byte>)
    ensures BcdToBytes(BytesToBcd(data)) == Some(data)
  {
    var s := BytesToBcd(data);
    assert |s| % 2 == (2 * |data|) % 2 == 0;
    FromHexOfBcd(data);
  }

  /** An odd-length digit string decodes as if it had a leading '0': one byte more than half its length, the first below 16. */
  lemma OddBcdGetsLeadingNibble(s: string)
    requires |s| % 2 == 1
    requires forall i :: 0 <= i < |s| ==> HexValue(s[i]).Some?
    ensures BcdToBytes(s).Some?
    ensures |BcdToBytes(s).value| == (|s| + 1) / 2
    ensures BcdToBytes(s).value[0] == HexValue(s[0]).value
  {
    var t := "0" + s;
    AllHexDecodes(t);
    assert t[2..] == s[1..];
    AllHexDecodes(s[1..]);
  }

  lemma {:induction false} AllHexDecodes(s: string)
    requires |s| % 2 == 0
    requires forall i :: 0 <= i < |s| ==> HexValue(s[i]).Some?
    ensures FromHex(s).Some?
  {
    if s != [] {
      AllHexDecodes(s[2..]);
    }
  }

  /** The digit pairs of `s` in reverse order; `s` has even length. */
  function ReversePairs(s: string): (r: string)
    requires |s| % 2 == 0
    ensures |r| == |s|
  {
    if s == [] then "" else ReversePairs(s[2..]) + s[..2]
  }

  /** `reverse_hex`: `None` where Python raises `ValueError` (odd length). */
  function ReverseHex(s: string): Option<string>
  {
    if |s| % 2 != 0 then None else Some(ReversePairs(s))
  }

  lemma {:induction false} ReversePairsConcat(a: string, b: string)
    requires |a| % 2 == 0 && |b| % 2 == 0
    ensures ReversePairs(a + b) == ReversePairs(b) + ReversePairs(a)
  {
    if a == [] {
      assert a + b == b;
    } else {
      assert (a + b)[2..] == a[2..] + b;
      assert (a + b)[..2] == a[..2];
      ReversePairsConcat(a[2..], b);
    }
  }

  lemma {:induction false} ReversePairsTwice(s: string)
    requires |s| % 2 == 0
    ensures ReversePairs(ReversePairs(s)) == s
  {
    if s != [] {
      ReversePairsConcat(ReversePairs(s[2..]), s[..2]);
      ReversePairsTwice(s[2..]);
      assert ReversePairs(s[..2]) == s[..2] by {
        assert s[..2][2..] == [];
      }
      assert s == s[..2] + s[2..];
    }
  }

  /** Reversing the byte order of a hex string twice gives it back. */
  lemma ReverseHexInvolution(s: string)
    requires |s| % 2 == 0
    ensures ReverseHex(s).Some? && ReverseHex(ReverseHex(s).value) == Some(s)
  {
    ReversePairsTwice(s);
  }

  // ---------------------------------------------------------------------
  // Degree / minute / second packing
  // ---------------------------------------------------------------------

  /** Integer result of `decimal_to_dms`, given the degree, minute and second parts it truncates to. */
  function DmsPack(degrees: int, minutes: int, seconds: int): int
  {
    degrees * 1000000 + minutes * 10000 + seconds * 100
  }

  /** The integer parts `dms_to_decimal` splits a packed value into (Python's `//` and `%`). */
  function DmsSplit(v: int): (int, int, int)
  {
    (v / 1000000, (v % 1000000) / 10000, (v % 10000) / 100)
  }

  /** Splitting undoes packing whenever minutes and seconds are two-digit numbers. */
  lemma DmsRoundTrip(d: int, m: int, s: int)
    requires 0 <= m < 100 && 0 <= s < 100
    ensures DmsSplit(DmsPack(d, m, s)) == (d, m, s)
  {
    var v := DmsPack(d, m, s);
    var low := m * 10000 + s * 100;
    assert 0 <= low < 1000000;
    assert v / 1000000 == d && v % 1000000 == low;
    assert v == (d * 100 + m) * 10000 + s * 100;
    assert v % 10000 == s * 100;
  }
}
