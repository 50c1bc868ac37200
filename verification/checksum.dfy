/** The 16-bit one's-complement checksum and CR LF trailer that close every
    packet, and the check a receiver applies to them.

    A packet of declared length L carries, after its first L - 4 bytes, the
    two checksum bytes (the complement of the byte sum, big-endian, low 16
    bits) followed by CR (13) and LF (10). */
module Checksum {

  import opened Wrappers
  import opened Wire

  const CR: Byte := 13
  const LF: Byte := 10

  /** The byte sum of the first `n` bytes of `b`. */
  function Sum(b: seq<Byte>, n: nat): (s: int)
    requires n <= |b|
    ensures 0 <= s <= 255 * n
  {
    if n == 0 then 0 else Sum(b, n - 1) + b[n - 1]
  }

  /** The four bytes appended to a packet whose preceding bytes sum to `sum`:
      the big-endian 16 low bits of the complement of `sum`, then CR LF. */
  function Trailer(sum: int): (t: seq<Byte>)
    ensures |t| == 4 && t[2] == CR && t[3] == LF
    ensures (sum + GetU16(0, t)) % TwoTo16 == 0xFFFF
  {
    EncodeU16Decodes(-sum - 1);
    EncodeU16(-sum - 1) + [CR, LF]
  }

  /** A body followed by the trailer for its full byte sum. */
  function Seal(body: seq<Byte>): (r: seq<Byte>)
    ensures |r| == |body| + 4 && r[..|body|] == body
  {
    body + Trailer(Sum(body, |body|))
  }

  /** Where the checksum sits for a declared length: L - 4, or 0 if L < 4. */
  function ChecksumIndex(declaredLength: int): nat {
    if declaredLength - 4 > 0 then declaredLength - 4 else 0
  }

  /** The receiver's check of the trailer at the declared length, as written:
      it sums the bytes before the checksum index i, requires bytes i + 2 and
      i + 3 to be CR and LF, and accepts iff the sum plus the big-endian
      checksum at i is 0xFFFF modulo 2^16. `None` stands for the subscript
      error raised when the buffer ends before a byte the check reads. */
  function Validate(b: seq<Byte>, declaredLength: int): (r: Option<bool>)
    ensures var i := ChecksumIndex(declaredLength);
      r == Some(true) ==>
        && i + 4 <= |b|
        && b[i + 2] == CR && b[i + 3] == LF
        && (Sum(b, i) + GetU16(i, b)) % TwoTo16 == 0xFFFF
    ensures var i := ChecksumIndex(declaredLength);
      i + 4 <= |b| ==> r.Some?
  {
    var i := ChecksumIndex(declaredLength);
    if |b| <= i + 2 then None
    else if b[i + 2] != CR then Some(false)
    else if |b| <= i + 3 then None
    else if b[i + 3] != LF then Some(false)
    else Some((Sum(b, i) + b[i] as int * 0x100 + b[i + 1]) % TwoTo16 == 0xFFFF)
  }

  // ---------------------------------------------------------------------------
  // Facts about the byte sum
  // ---------------------------------------------------------------------------

  lemma {:induction false} SumOfPrefix(b: seq<Byte>, c: seq<Byte>, n: nat)
    requires n <= |b|
    ensures Sum(b + c, n) == Sum(b, n)
  {
    if n > 0 {
      SumOfPrefix(b, c, n - 1);
      assert (b + c)[n - 1] == b[n - 1];
    }
  }

  lemma {:induction false} SumOfUpdate(b: seq<Byte>, j: nat, v: Byte, n: nat)
    requires j < n <= |b|
    ensures Sum(b[j := v], n) == Sum(b, n) - b[j] + v
  {
    if n - 1 == j {
      SumUnchangedBefore(b, j, v, j);
    } else {
      SumOfUpdate(b, j, v, n - 1);
    }
  }

  lemma {:induction false} SumUnchangedBefore(b: seq<Byte>, j: nat, v: Byte, n: nat)
    requires n <= j < |b|
    ensures Sum(b[j := v], n) == Sum(b, n)
  {
    if n > 0 {
      SumUnchangedBefore(b, j, v, n - 1);
    }
  }

  // ---------------------------------------------------------------------------
  // The check accepts what the sender seals and rejects corruption
  // ---------------------------------------------------------------------------

  /** Every sealed body passes the check at its own length. */
  lemma SealValidates(body: seq<Byte>)
    ensures Validate(Seal(body), |body| + 4) == Some(true)
  {
    var r := Seal(body);
    var t := Trailer(Sum(body, |body|));
    assert ChecksumIndex(|body| + 4) == |body|;
    SumOfPrefix(body, t, |body|);
    assert r[|body|] == t[0] && r[|body| + 1] == t[1];
    assert r[|body| + 2] == CR && r[|body| + 3] == LF;
  }

  /** Acceptance, both directions, once the buffer reaches the checksum. */
  lemma ValidateIff(b: seq<Byte>, declaredLength: int)
    requires ChecksumIndex(declaredLength) + 4 <= |b|
    ensures var i := ChecksumIndex(declaredLength);
      Validate(b, declaredLength) == Some(true) <==>
        b[i + 2] == CR && b[i + 3] == LF && (Sum(b, i) + GetU16(i, b)) % TwoTo16 == 0xFFFF
  {
  }

  /** A buffer whose trailer is not CR LF at the declared position is never
      accepted. */
  lemma BadTerminatorRejected(b: seq<Byte>, declaredLength: int)
    requires var i := ChecksumIndex(declaredLength);
      i + 4 <= |b| && (b[i + 2] != CR || b[i + 3] != LF)
    ensures Validate(b, declaredLength) == Some(false)
  {
  }

  /** Changing any one byte that the sum covers turns an accepted buffer into
      a rejected one: a single byte moves the sum by less than 2^16. */
  lemma {:induction false} SingleByteChangeRejected(b: seq<Byte>, declaredLength: int, j: nat, v: Byte)
    requires Validate(b, declaredLength) == Some(true)
    requires j < ChecksumIndex(declaredLength) && v != b[j]
    ensures Validate(b[j := v], declaredLength) == Some(false)
  {
    var i := ChecksumIndex(declaredLength);
    var b' := b[j := v];
    SumOfUpdate(b, j, v, i);
    assert b'[i] == b[i] && b'[i + 1] == b[i + 1] && b'[i + 2] == b[i + 2] && b'[i + 3] == b[i + 3];
    var s := Sum(b, i) + b[i] as int * 0x100 + b[i + 1];
    assert s % TwoTo16 == 0xFFFF;
    var s' := Sum(b', i) + b'[i] as int * 0x100 + b'[i + 1];
    assert s' == s + v - b[j];
    assert -256 < v - b[j] < 256;
  }

  /** Bytes after the declared length are never inspected. */
  lemma {:induction false} ValidateIgnoresTail(b: seq<Byte>, c: seq<Byte>, declaredLength: int)
    requires 4 <= declaredLength <= |b|
    ensures Validate(b + c, declaredLength) == Validate(b, declaredLength)
  {
    var i := declaredLength - 4;
    SumOfPrefix(b, c, i);
    assert (b + c)[i] == b[i] && (b + c)[i + 1] == b[i + 1];
    assert (b + c)[i + 2] == b[i + 2] && (b + c)[i + 3] == b[i + 3];
  }
}
