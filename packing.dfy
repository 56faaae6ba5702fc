/**
 * Byte strings and the fixed-width big-endian fields that Python's `struct`
 * module writes for the formats used by the JT/T 808 code: `B`, `H`, `I`
 * (one, two and four bytes, out-of-range values raise `struct.error`) and
 * `Ns` (a byte string NUL-padded or truncated to exactly N bytes).
 */
module Packing {

  import opened Wrappers

  /** A byte as Python's `bytes` yields it: an integer in 0..255. */
  type byte = x: int | 0 <= x < 0x100

  const FLAG: byte := 0x7e
  const ESCAPE: byte := 0x7d

  predicate FitsU8(v: int) { 0 <= v < 0x100 }
  predicate FitsU16(v: int) { 0 <= v < 0x1_0000 }
  predicate FitsU32(v: int) { 0 <= v < 0x1_0000_0000 }

  /** Value of a big-endian byte string. */
  function BigEndian(b: seq<byte>): nat
  {
    if b == [] then 0 else BigEndian(b[..|b| - 1]) * 256 + b[|b| - 1]
  }

  /** `struct.pack('>B', v)`. */
  function U8(v: nat): (r: seq<byte>)
    requires FitsU8(v)
    ensures |r| == 1 && BigEndian(r) == v
  {
    [v]
  }

  /** `struct.pack('>H', v)`. */
  function U16(v: nat): (r: seq<byte>)
    requires FitsU16(v)
    ensures |r| == 2 && BigEndian(r) == v
  {
    var r: seq<byte> := [v / 0x100, v % 0x100];
    assert r[..1][..0] == [];
    assert BigEndian(r[..1]) == r[0];
    r
  }

  /** `struct.pack('>I', v)`. */
  function U32(v: nat): (r: seq<byte>)
    requires FitsU32(v)
    ensures |r| == 4 && BigEndian(r) == v
  {
    var hi, lo := v / 0x1_0000, v % 0x1_0000;
    var r := U16(hi) + U16(lo);
    BigEndianSplit(U16(hi), U16(lo));
    r
  }

  lemma {:induction false} BigEndianSplit(a: seq<byte>, b: seq<byte>)
    requires |b| == 2
    ensures BigEndian(a + b) == BigEndian(a) * 0x1_0000 + BigEndian(b)
  {
    var ab := a + b;
    assert ab[..|ab| - 1] == a + [b[0]];
    assert (a + [b[0]])[..|a|] == a;
    assert BigEndian(a + [b[0]]) == BigEndian(a) * 256 + b[0] as int;
    assert b[..1][..0] == [];
    assert BigEndian(b[..1]) == b[0];
    assert BigEndian(b) == b[0] as int * 256 + b[1];
  }

  /** `struct.pack('>Ns', s)`: `s` truncated, or padded with NUL bytes, to exactly `n` bytes. */
  function FixedField(s: seq<byte>, n: nat): (r: seq<byte>)
    ensures |r| == n
    ensures forall i :: 0 <= i < n ==> r[i] == (if i < |s| then s[i] else 0)
  {
    if |s| >= n then s[..n] else s + Zeros(n - |s|)
  }

  function Zeros(n: nat): (r: seq<byte>)
    ensures |r| == n && forall i :: 0 <= i < n ==> r[i] == 0
  {
    seq(n, _ => 0)
  }

  /** The byte `c` stands for under `str.encode('ascii')`, when it has one. */
  predicate IsAscii(c: char) { c as int < 0x80 }

  /** `s.encode('ascii')`, which raises `UnicodeEncodeError` on any non-ASCII character. */
  function AsciiEncode(s: string): (r: Option<seq<byte>>)
    ensures r.Some? <==> forall i :: 0 <= i < |s| ==> IsAscii(s[i])
    ensures r.Some? ==> |r.value| == |s| && forall i :: 0 <= i < |s| ==> r.value[i] == s[i] as int
  {
    if s == [] then Some([])
    else if !IsAscii(s[0]) then None
    else match AsciiEncode(s[1..])
      case None => None
      case Some(rest) => Some([s[0] as int] + rest)
  }

  /** `b.decode('ascii')`, which raises `UnicodeDecodeError` on any byte above 0x7f. */
  function AsciiDecode(b: seq<byte>): (r: Option<string>)
    ensures r.Some? <==> forall i :: 0 <= i < |b| ==> b[i] < 0x80
    ensures r.Some? ==> |r.value| == |b| && forall i :: 0 <= i < |b| ==> r.value[i] as int == b[i]
  {
    if b == [] then Some([])
    else if b[0] >= 0x80 then None
    else match AsciiDecode(b[1..])
      case None => None
      case Some(rest) => Some([b[0] as char] + rest)
  }

}
