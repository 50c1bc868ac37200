/** Primitive wire encodings of the printer protocol: big-endian integers of
    one, two and four bytes, the header-relative getters that return 0 for a
    short buffer, slices with the host language's clamping rules, and the
    text encodings used by the version and model-name payloads.

    Shifts and masks on unbounded integers are written arithmetically:
    `(n >> k) & 0xFF` is `n / 2^k % 256` for every integer `n`, because both
    `/` and `%` by a positive constant round towards negative infinity here,
    exactly like arithmetic shift and two's-complement masking. */
module Wire {

  import opened Wrappers

  type Byte = b: int | 0 <= b < 256

  const TwoTo16: int := 0x1_0000
  const TwoTo32: int := 0x1_0000_0000

  // ---------------------------------------------------------------------------
  // Big-endian encoders (wrap to the field width, never fail)
  // ---------------------------------------------------------------------------

  function EncodeU8(n: int): (r: seq<Byte>)
    ensures |r| == 1
  {
    [n % 256]
  }

  function EncodeU16(n: int): (r: seq<Byte>)
    ensures |r| == 2
  {
    [n / 0x100 % 256, n % 256]
  }

  function EncodeU32(n: int): (r: seq<Byte>)
    ensures |r| == 4
  {
    [n / 0x100_0000 % 256, n / 0x1_0000 % 256, n / 0x100 % 256, n % 256]
  }

  function Zeros(n: nat): (r: seq<Byte>)
    ensures |r| == n
    ensures forall i :: 0 <= i < n ==> r[i] == 0
  {
    seq(n, _ => 0)
  }

  // ---------------------------------------------------------------------------
  // Big-endian getters at an absolute offset; 0 when the buffer is too short
  // ---------------------------------------------------------------------------

  function GetU8(offset: nat, b: seq<Byte>): (r: int)
    ensures 0 <= r < 256
    ensures |b| < offset + 1 ==> r == 0
    ensures offset < |b| ==> r == b[offset]
  {
    if |b| < offset + 1 then 0 else b[offset]
  }

  function GetU16(offset: nat, b: seq<Byte>): (r: int)
    ensures 0 <= r < TwoTo16
    ensures |b| < offset + 2 ==> r == 0
  {
    if |b| < offset + 2 then 0 else b[offset] as int * 0x100 + b[offset + 1]
  }

  function GetU32(offset: nat, b: seq<Byte>): (r: int)
    ensures 0 <= r < TwoTo32
    ensures |b| < offset + 4 ==> r == 0
  {
    if |b| < offset + 4 then 0
    else b[offset] as int * 0x100_0000 + b[offset + 1] as int * 0x1_0000 + b[offset + 2] as int * 0x100
         + b[offset + 3]
  }

  // ---------------------------------------------------------------------------
  // Round trips: a getter applied where an encoder wrote returns the value
  // masked to the field width
  // ---------------------------------------------------------------------------

  lemma EncodeU8Decodes(n: int)
    ensures GetU8(0, EncodeU8(n)) == n % 256
  {
  }

  lemma EncodeU16Decodes(n: int)
    ensures GetU16(0, EncodeU16(n)) == n % TwoTo16
  {
    var q := n / 0x100;
    assert n == q * 0x100 + n % 256;
    assert q == (q / 256) * 256 + q % 256;
    assert n == (q / 256) * TwoTo16 + (q % 256) * 0x100 + n % 256;
  }

  lemma EncodeU32Decodes(n: int)
    ensures GetU32(0, EncodeU32(n)) == n % TwoTo32
  {
    var q1 := n / 0x100;
    var q2 := q1 / 0x100;
    var q3 := q2 / 0x100;
    assert n / 0x1_0000 == q2;
    assert n / 0x100_0000 == q3;
    assert n == q1 * 0x100 + n % 256;
    assert q1 == q2 * 0x100 + q1 % 256;
    assert q2 == q3 * 0x100 + q2 % 256;
    assert q3 == (q3 / 256) * 256 + q3 % 256;
    assert n == (q3 / 256) * TwoTo32 + (q3 % 256) * 0x100_0000 + (q2 % 256) * 0x1_0000
              + (q1 % 256) * 0x100 + n % 256;
  }

  /** A byte and a 16-bit length are their own remainders. */
  lemma SmallRemainders(code: Byte, length: int)
    requires 0 <= length < TwoTo16
    ensures code % 256 == code && length % TwoTo16 == length
  {
  }

  /** A getter only looks at its own bytes: reading a field that an encoder
      wrote at `offset` of any larger buffer returns the masked value. */
  lemma GetU8At(b: seq<Byte>, offset: nat, n: int)
    requires offset + 1 <= |b| && b[offset..offset + 1] == EncodeU8(n)
    ensures GetU8(offset, b) == n % 256
  {
    assert b[offset] == b[offset..offset + 1][0];
  }

  lemma GetU16At(b: seq<Byte>, offset: nat, n: int)
    requires offset + 2 <= |b| && b[offset..offset + 2] == EncodeU16(n)
    ensures GetU16(offset, b) == n % TwoTo16
  {
    var f := b[offset..offset + 2];
    assert b[offset] == f[0] && b[offset + 1] == f[1];
    EncodeU16Decodes(n);
  }

  lemma GetU32At(b: seq<Byte>, offset: nat, n: int)
    requires offset + 4 <= |b| && b[offset..offset + 4] == EncodeU32(n)
    ensures GetU32(offset, b) == n % TwoTo32
  {
    var f := b[offset..offset + 4];
    assert b[offset] == f[0] && b[offset + 1] == f[1] && b[offset + 2] == f[2] && b[offset + 3] == f[3];
    EncodeU32Decodes(n);
  }

  /** Encoding is injective on the field's range, so the decoders are exact
      inverses there. */
  lemma EncodeU16Injective(m: int, n: int)
    requires 0 <= m < TwoTo16 && 0 <= n < TwoTo16
    requires EncodeU16(m) == EncodeU16(n)
    ensures m == n
  {
    EncodeU16Decodes(m);
    EncodeU16Decodes(n);
  }

  // ---------------------------------------------------------------------------
  // Slices with the host language's rules: negative bounds count from the end,
  // bounds are clamped to the buffer, and an empty range gives an empty slice
  // ---------------------------------------------------------------------------

  function ClampIndex(i: int, n: nat): (r: nat)
    ensures r <= n
    ensures 0 <= i <= n ==> r == i
  {
    if i < 0 then (if i + n < 0 then 0 else i + n)
    else if i > n then n
    else i
  }

  function Slice<T>(s: seq<T>, start: int, end: int): (r: seq<T>)
    ensures 0 <= start <= end <= |s| ==> r == s[start..end]
    ensures |r| <= |s|
    ensures 0 <= start <= |s| ==> start + |r| <= |s| && r == s[start..start + |r|]
    ensures |s| <= start ==> r == []
  {
    var a := ClampIndex(start, |s|);
    var z := ClampIndex(end, |s|);
    if z <= a then [] else s[a..z]
  }

  // ---------------------------------------------------------------------------
  // Bitwise OR of non-negative integers
  // ---------------------------------------------------------------------------

  function Pow2(k: nat): (r: nat)
    ensures r >= 1
  {
    if k == 0 then 1 else 2 * Pow2(k - 1)
  }

  /** Bitwise OR of two non-negative integers, one bit at a time from the
      least significant. */
  function BitOr(a: nat, b: nat): (r: nat)
    ensures a <= r && b <= r && r <= a + b
    decreases a + b
  {
    if a == 0 then b
    else if b == 0 then a
    else 2 * BitOr(a / 2, b / 2) + (if a % 2 == 1 || b % 2 == 1 then 1 else 0)
  }

  /** OR never sets a bit at or above the width of both operands. */
  lemma {:induction false} BitOrBelow(a: nat, b: nat, k: nat)
    requires a < Pow2(k) && b < Pow2(k)
    ensures BitOr(a, b) < Pow2(k)
    decreases k
  {
    if a != 0 && b != 0 {
      assert k > 0;
      BitOrBelow(a / 2, b / 2, k - 1);
    }
  }

  /** OR of a value shifted left by `k` with a value below 2^k is their sum. */
  lemma {:induction false} BitOrDisjoint(a: nat, b: nat, k: nat)
    requires b < Pow2(k)
    ensures BitOr(a * Pow2(k), b) == a * Pow2(k) + b
    decreases k
  {
    if k > 0 && a != 0 && b != 0 {
      var h := a * Pow2(k - 1);
      assert a * Pow2(k) == 2 * h;
      assert (2 * h) / 2 == h && (2 * h) % 2 == 0;
      BitOrDisjoint(a, b / 2, k - 1);
      assert BitOr(a * Pow2(k), b) == 2 * (h + b / 2) + b % 2;
    }
  }

  /** Four bytes OR-ed together at their big-endian positions make the
      32-bit integer they encode. */
  lemma BitOrBytes32(b0: Byte, b1: Byte, b2: Byte, b3: Byte)
    ensures BitOr(BitOr(BitOr(b0 * 0x100_0000, b1 * 0x1_0000), b2 * 0x100), b3)
            == b0 * 0x100_0000 + b1 * 0x1_0000 + b2 * 0x100 + b3
  {
    BitOrShifted(b0, b1 * 0x1_0000, 24, 0x100_0000);
    BitOrShifted(b0 * 0x100 + b1, b2 * 0x100, 16, 0x1_0000);
    BitOrShifted(b0 * 0x1_0000 + b1 * 0x100 + b2, b3, 8, 0x100);
  }

  /** `BitOrDisjoint` for a shift whose power of two is given by value. */
  lemma BitOrShifted(a: nat, b: nat, k: nat, p: nat)
    requires (k == 8 && p == 0x100) || (k == 16 && p == 0x1_0000) || (k == 24 && p == 0x100_0000)
    requires b < p
    ensures BitOr(a * p, b) == a * p + b
  {
    Pow2Values();
    BitOrDisjoint(a, b, k);
  }

  lemma Pow2Values()
    ensures Pow2(8) == 0x100 && Pow2(16) == 0x1_0000 && Pow2(24) == 0x100_0000
  {
  }

  // ---------------------------------------------------------------------------
  // Text: the two-hex-digit version format and the model-name encodings
  // ---------------------------------------------------------------------------

  function HexDigit(d: int): (c: char)
    requires 0 <= d < 16
  {
    if d < 10 then ('0' as int + d) as char else ('A' as int + d - 10) as char
  }

  predicate IsHexDigit(c: char) {
    '0' <= c <= '9' || 'A' <= c <= 'F'
  }

  function HexValue(c: char): (d: int)
    requires IsHexDigit(c)
    ensures 0 <= d < 16
  {
    if c <= '9' then c as int - '0' as int else c as int - 'A' as int + 10
  }

  /** Two upper-case hexadecimal digits, zero padded, of a value below 256. */
  function Hex2(n: int): (s: string)
    requires 0 <= n < 256
    ensures |s| == 2 && IsHexDigit(s[0]) && IsHexDigit(s[1])
    ensures HexValue(s[0]) * 16 + HexValue(s[1]) == n
  {
    [HexDigit(n / 16), HexDigit(n % 16)]
  }

  /** The version text of a 16-bit firmware or hardware number: high byte and
      low byte, each as two upper-case hexadecimal digits, joined by '.'.
      Bits above the sixteenth are ignored. */
  function FormatVersion(version: int): (s: string)
    ensures |s| == 5 && s[2] == '.'
    ensures IsHexDigit(s[0]) && IsHexDigit(s[1]) && IsHexDigit(s[3]) && IsHexDigit(s[4])
    ensures ParseVersion(s) == version % TwoTo16
  {
    var high := version / 0x100 % 256;
    var low := version % 256;
    assert version % TwoTo16 == high * 0x100 + low by {
      EncodeU16Decodes(version);
    }
    Hex2(high) + "." + Hex2(low)
  }

  /** Reads back a version text; the inverse of `FormatVersion`. */
  function ParseVersion(s: string): int
    requires |s| == 5 && IsHexDigit(s[0]) && IsHexDigit(s[1]) && IsHexDigit(s[3]) && IsHexDigit(s[4])
  {
    ((HexValue(s[0]) * 16 + HexValue(s[1])) * 0x100) + HexValue(s[3]) * 16 + HexValue(s[4])
  }

  lemma FirmwareExample()
    ensures FormatVersion(275) == "01.13"
    ensures FormatVersion(0) == "00.00"
  {
    assert 275 / 0x100 % 256 == 1 && 275 % 256 == 0x13;
    assert Hex2(0) == "00" && Hex2(1) == "01" && Hex2(0x13) == "13";
    assert FormatVersion(275) == Hex2(1) + "." + Hex2(0x13);
  }

  /** UTF-8 encoding of a string of Unicode scalar values. */
  function Utf8(s: string): (r: seq<Byte>)
    ensures |r| >= |s|
    ensures IsAscii(s) ==> |r| == |s| && forall i :: 0 <= i < |s| ==> r[i] == s[i] as int
  {
    if |s| == 0 then [] else Utf8Char(s[0]) + Utf8(s[1..])
  }

  function Utf8Char(c: char): (r: seq<Byte>)
    ensures 1 <= |r| <= 4
    ensures c as int < 0x80 <==> |r| == 1
  {
    var n := c as int;
    if n < 0x80 then [n]
    else if n < 0x800 then [0xC0 + n / 0x40, 0x80 + n % 0x40]
    else if n < 0x1_0000 then [0xE0 + n / 0x1000, 0x80 + n / 0x40 % 0x40, 0x80 + n % 0x40]
    else [0xF0 + n / 0x4_0000, 0x80 + n / 0x1000 % 0x40, 0x80 + n / 0x40 % 0x40, 0x80 + n % 0x40]
  }

  predicate IsAscii(s: string) {
    forall i :: 0 <= i < |s| ==> s[i] as int < 0x80
  }

  /** ASCII decoding of bytes; fails on the first byte above 127. */
  function AsciiDecode(b: seq<Byte>): (r: Option<string>)
    ensures r.Some? <==> forall i :: 0 <= i < |b| ==> b[i] < 0x80
    ensures r.Some? ==> |r.value| == |b| && IsAscii(r.value)
    ensures r.Some? ==> forall i :: 0 <= i < |b| ==> r.value[i] as int == b[i]
  {
    if |b| == 0 then Some([])
    else if b[0] >= 0x80 then None
    else match AsciiDecode(b[1..])
      case None => None
      case Some(rest) => Some([b[0] as char] + rest)
  }

  // ---------------------------------------------------------------------------
  // Byte strings made of pieces
  // ---------------------------------------------------------------------------

  /** The pieces written one after another. */
  function Concat(pieces: seq<seq<Byte>>): seq<Byte> {
    if |pieces| == 0 then [] else pieces[0] + Concat(pieces[1..])
  }

  lemma {:induction false} ConcatAppend(pieces: seq<seq<Byte>>, m: seq<Byte>)
    ensures Concat(pieces + [m]) == Concat(pieces) + m
    decreases |pieces|
  {
    if |pieces| > 0 {
      assert (pieces + [m])[1..] == pieces[1..] + [m];
      ConcatAppend(pieces[1..], m);
    }
  }
}
