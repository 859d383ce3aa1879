/** Base-128 varints: what a byte string denotes, the canonical encoding, and its length. */
module Varint {
  import opened Prelude
  import Division

  datatype ParseError =
    | Truncated(at: nat)
    | VarintOverflow(at: nat)
    | UnsupportedWire(wire: nat, offset: nat)
    | LengthOverrun(at: nat)

  datatype Decoded = Decoded(value: nat, size: nat)

  /** Length of the run of continuation bytes (high bit set) at the front of `s`. */
  function Run(s: bytes): (n: nat)
    ensures n <= |s|
    ensures n < |s| ==> s[n] < 128
  {
    if s == [] || s[0] < 128 then 0 else 1 + Run(s[1..])
  }

  /** The number a group of seven-bit digits denotes, least significant digit first. */
  function Digits(s: bytes): nat {
    if s == [] then 0 else s[0] % 128 + 128 * Digits(s[1..])
  }

  /** The varint at the front of `s`; `at` is the offset of `s[0]`, used only in errors.
      A tenth byte contributes its lowest bit alone, and an eleventh byte overflows. */
  function Decode(s: bytes, at: nat): (r: Result<Decoded, ParseError>)
    ensures r.Ok? ==> 0 < r.value.size <= |s| && r.value.value < U64
  {
    var n := Run(s);
    if n < |s| && n < 10 then Ok(Decoded(Digits(s[..n + 1]) % U64, n + 1))
    else if |s| > 10 then Err(VarintOverflow(at))
    else Err(Truncated(at + |s|))
  }

  function Encode(v: nat): (r: bytes)
    ensures |r| > 0
  {
    if v < 128 then [v] else [v % 128 + 128] + Encode(v / 128)
  }

  /** Bit length: 64 minus the leading zeros of a 64-bit word. */
  function BitLength(v: nat): nat {
    if v == 0 then 0 else 1 + BitLength(v / 2)
  }

  function EncodedLength(v: nat): nat {
    (BitLength(if v % 2 == 0 then v + 1 else v) + 6) / 7
  }

  function HeaderLength(field: nat, size: nat): nat {
    EncodedLength(8 * field + 2) + EncodedLength(size)
  }

  /** The tag and length prefix of a length-delimited field. */
  function Header(field: nat, size: nat): bytes {
    Encode(8 * field + 2) + Encode(size)
  }

  // ----- the predicted length is the written length

  lemma BitLengthShift(v: nat)
    requires v >= 128
    ensures BitLength(v) == 7 + BitLength(v / 128)
  {
    assert v / 2 / 2 / 2 / 2 / 2 / 2 / 2 == v / 128;
    assert BitLength(v) == 1 + BitLength(v / 2);
    assert BitLength(v / 2) == 1 + BitLength(v / 2 / 2);
    assert BitLength(v / 2 / 2) == 1 + BitLength(v / 2 / 2 / 2);
    assert BitLength(v / 2 / 2 / 2) == 1 + BitLength(v / 2 / 2 / 2 / 2);
    assert BitLength(v / 2 / 2 / 2 / 2) == 1 + BitLength(v / 2 / 2 / 2 / 2 / 2);
    assert BitLength(v / 2 / 2 / 2 / 2 / 2) == 1 + BitLength(v / 2 / 2 / 2 / 2 / 2 / 2);
  }

  lemma BitLengthOdd(v: nat)
    requires v > 0
    ensures BitLength(if v % 2 == 0 then v + 1 else v) == BitLength(v)
  {
    assert (v + 1) / 2 == v / 2 || v % 2 == 1;
  }

  lemma BitLengthStep(v: nat)
    ensures BitLength(v) == if v == 0 then 0 else 1 + BitLength(v / 2)
  {
  }

  lemma BitLengthSmall(v: nat)
    requires 0 < v < 128
    ensures 1 <= BitLength(v) <= 7
  {
    hide BitLength;
    var b, c, d, e, f, g, h := v / 2, v / 4, v / 8, v / 16, v / 32, v / 64, v / 128;
    BitLengthStep(v);
    BitLengthStep(b);
    BitLengthStep(c);
    BitLengthStep(d);
    BitLengthStep(e);
    BitLengthStep(f);
    BitLengthStep(g);
    BitLengthStep(h);
    assert b / 2 == c && c / 2 == d && d / 2 == e && e / 2 == f && f / 2 == g && g / 2 == h && h == 0;
  }

  lemma {:induction false} EncodedLengthExact(v: nat)
    ensures |Encode(v)| == EncodedLength(v)
  {
    if v == 0 {
      assert BitLength(1) == 1;
    } else {
      BitLengthOdd(v);
      if v < 128 {
        BitLengthSmall(v);
      } else {
        EncodedLengthExact(v / 128);
        BitLengthOdd(v / 128);
        BitLengthShift(v);
      }
    }
  }

  lemma HeaderLengthExact(field: nat, size: nat)
    ensures |Header(field, size)| == HeaderLength(field, size)
  {
    EncodedLengthExact(8 * field + 2);
    EncodedLengthExact(size);
  }

  // ----- decoding

  lemma {:induction false} RunStable(s: bytes, t: bytes)
    requires Run(s) < |s| && Run(s) < |t| && s[..Run(s) + 1] == t[..Run(s) + 1]
    ensures Run(t) == Run(s)
  {
    var n := Run(s);
    assert t[0] == t[..n + 1][0] == s[..n + 1][0] == s[0];
    if n > 0 {
      assert s[1..][..n] == s[..n + 1][1..] == t[..n + 1][1..] == t[1..][..n];
      RunStable(s[1..], t[1..]);
    }
  }

  /** Decoding reads only the bytes of the varint: whatever follows, and wherever it sits. */
  lemma DecodeStable(s: bytes, t: bytes, at: nat, at': nat)
    requires Decode(s, at).Ok?
    requires Decode(s, at).value.size <= |t|
    requires s[..Decode(s, at).value.size] == t[..Decode(s, at).value.size]
    ensures Decode(t, at') == Decode(s, at)
  {
    RunStable(s, t);
  }

  lemma {:induction false} EncodeRun(v: nat, rest: bytes)
    ensures Run(Encode(v) + rest) == |Encode(v)| - 1
    ensures Digits(Encode(v)) == v
  {
    if v >= 128 {
      var tail := Encode(v / 128);
      EncodeRun(v / 128, rest);
      assert (Encode(v) + rest)[1..] == tail + rest;
      assert Encode(v)[1..] == tail;
      assert Encode(v)[0] % 128 == v % 128;
    } else {
      assert Encode(v)[1..] == [];
    }
  }

  lemma {:induction false} EncodeShort(v: nat, k: nat, bound: nat)
    requires v < bound && bound <= Pow128(k) && k > 0
    ensures |Encode(v)| <= k
  {
    if v >= 128 {
      assert k > 1 by { assert Pow128(0) == 1; }
      assert v / 128 < Pow128(k - 1);
      EncodeShort(v / 128, k - 1, Pow128(k - 1));
    }
  }

  function Pow128(k: nat): (p: nat)
    ensures p > 0
  {
    if k == 0 then 1 else 128 * Pow128(k - 1)
  }

  lemma Pow128Nine()
    ensures Pow128(9) == 0x8000_0000_0000_0000
    ensures Pow128(10) == 128 * 0x8000_0000_0000_0000
  {
    assert Pow128(3) == 128 * 128 * 128;
    assert Pow128(6) == 128 * 128 * 128 * Pow128(3);
    assert Pow128(9) == 128 * 128 * 128 * Pow128(6);
  }

  /** The cursor reads back exactly the value the re-encoder wrote, for every u64. */
  lemma DecodeEncode(v: nat, rest: bytes, at: nat)
    requires v < U64
    ensures Decode(Encode(v) + rest, at) == Ok(Decoded(v, |Encode(v)|))
  {
    EncodeRun(v, rest);
    Pow128Nine();
    EncodeShort(v, 10, Pow128(10));
    assert (Encode(v) + rest)[..|Encode(v)|] == Encode(v);
  }

  /** The `i`-th byte written holds the `i`-th lowest seven bits, and its high bit is set on every
      byte but the last. */
  lemma {:induction false} EncodedByte(v: nat, i: nat)
    requires i < |Encode(v)|
    ensures Encode(v)[i] == v / Pow128(i) % 128 + if i + 1 < |Encode(v)| then 128 else 0
  {
    if i > 0 {
      EncodedByte(v / 128, i - 1);
      Division.DivideTwice(v, 128, Pow128(i - 1));
    }
  }

  // ----- the accumulating loop of the cursor

  lemma {:induction false} DigitsSnoc(s: bytes, b: byte)
    ensures Digits(s + [b]) == Digits(s) + b % 128 * Pow128(|s|)
    ensures Digits(s) < Pow128(|s|)
  {
    if s == [] {
      assert s + [b] == [b];
      assert Digits([b]) == b % 128 + 128 * Digits([b][1..]);
    } else {
      DigitsSnoc(s[1..], b);
      assert (s + [b])[1..] == s[1..] + [b];
      var d := b % 128;
      var p := Pow128(|s| - 1);
      assert 128 * (d * p) == d * (128 * p);
    }
  }

  lemma TopDigit(low: nat, d: nat)
    requires low < 0x8000_0000_0000_0000 && d < 128
    ensures low + d * 0x8000_0000_0000_0000 % U64 == (low + d * 0x8000_0000_0000_0000) % U64
  {
    assert d * 0x8000_0000_0000_0000 == d / 2 * U64 + d % 2 * 0x8000_0000_0000_0000;
  }

  lemma NoWrap(low: nat, y: nat)
    requires low + y < U64
    ensures low + y % U64 == (low + y) % U64
  {
  }

  lemma AccumulateLow(s: bytes, b: byte)
    requires |s| < 9
    ensures Digits(s) + ShiftIn(b, |s|) == Digits(s + [b]) % U64 == Digits(s + [b])
  {
    hide Digits, Pow128;
    DigitsSnoc(s, b);
    DigitsBelow(s + [b]);
    NoWrap(Digits(s), b % 128 * Pow128(|s|));
  }

  lemma AccumulateTop(s: bytes, b: byte)
    requires |s| == 9
    ensures Digits(s) + ShiftIn(b, 9) == Digits(s + [b]) % U64
  {
    DigitsSnoc(s, b);
    DigitsBelow(s);
    Pow128Nine();
    TopDigit(Digits(s), b % 128);
  }

  /** The low seven bits of `b`, shifted left by 7k inside 64 bits. */
  function ShiftIn(b: byte, k: nat): nat {
    b % 128 * Pow128(k) % U64
  }

  lemma DigitsBelow(s: bytes)
    requires |s| < 10
    ensures Digits(s) < 0x8000_0000_0000_0000
  {
    DigitsSnoc(s, 0);
    Pow128Nine();
    Pow128Monotonic(|s|, 9);
  }

  lemma {:induction false} Pow128Monotonic(j: nat, k: nat)
    requires j <= k
    ensures Pow128(j) <= Pow128(k)
    decreases k - j
  {
    if j < k { Pow128Monotonic(j + 1, k); }
  }
}
