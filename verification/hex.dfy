/** Lower-case hexadecimal text of byte arrays: `Security.bytesToHex`, built on
    `Integer.toHexString(0xff & b)` with a '0' prepended to single digits. */
module Hex {
  import opened Wrappers
  import opened Bytes

  const Digits: string := "0123456789abcdef"

  predicate IsHexDigit(c: char) {
    '0' <= c <= '9' || 'a' <= c <= 'f'
  }

  function Digit(n: nat): (c: char)
    requires n < 16
    ensures IsHexDigit(c)
  {
    Digits[n]
  }

  /** Inverse of `Digit` on lower-case digits; upper case is not a digit here. */
  function DigitValue(c: char): (r: Option<nat>)
    ensures r.Some? <==> IsHexDigit(c)
    ensures r.Some? ==> r.value < 16 && Digit(r.value) == c
  {
    if '0' <= c <= '9' then Some(c as int - '0' as int)
    else if 'a' <= c <= 'f' then Some(c as int - 'a' as int + 10)
    else None
  }

  lemma DigitValueOfDigit(n: nat)
    requires n < 16
    ensures DigitValue(Digit(n)) == Some(n)
  {
  }

  /** The number a string of hex digits denotes, most significant digit first. */
  function Value(s: string): nat
    requires forall k | 0 <= k < |s| :: IsHexDigit(s[k])
  {
    if |s| == 0 then 0
    else 16 * Value(s[..|s| - 1]) + DigitValue(s[|s| - 1]).value
  }

  /** `Integer.toHexString(v)` for a non-negative `v`: the shortest lower-case
      hex numeral of `v` (a single "0" for zero). */
  function ToHexString(v: nat): (r: string)
    ensures 1 <= |r|
    ensures forall k | 0 <= k < |r| :: IsHexDigit(r[k])
    ensures Value(r) == v
    ensures |r| > 1 ==> r[0] != '0'
    decreases v
  {
    if v < 16 then [Digit(v)]
    else
      var r := ToHexString(v / 16) + [Digit(v % 16)];
      assert r[..|r| - 1] == ToHexString(v / 16);
      DigitValueOfDigit(v % 16);
      r
  }

  /** The text appended for one byte: `toHexString`, padded to two digits. */
  function ByteHex(b: JByte): (r: string)
    ensures r == [Digit(Unsigned(b) / 16), Digit(Unsigned(b) % 16)]
  {
    var h := ToHexString(Unsigned(b));
    ToHexStringOfByte(Unsigned(b));
    if |h| == 1 then "0" + h else h
  }

  /** `ByteHex` as the loops build it: a '0' first when `toHexString` gave
      one digit. */
  lemma ByteHexPadding(b: JByte)
    ensures var h := ToHexString(Unsigned(b));
      ByteHex(b) == if |h| == 1 then "0" + h else h
  {
  }

  lemma ToHexStringOfByte(u: nat)
    requires u < 256
    ensures ToHexString(u) == if u < 16 then [Digit(u)] else [Digit(u / 16), Digit(u % 16)]
  {
    if u >= 16 {
      assert ToHexString(u) == ToHexString(u / 16) + [Digit(u % 16)];
    }
  }

  /** The characters at 2i and 2i+1 spell byte i, high nibble first. */
  ghost predicate SpellsPairs(r: string, bs: Bytes)
    requires |r| == 2 * |bs|
  {
    forall i | 0 <= i < |bs| :: PairAt(r, bs, i)
  }

  ghost predicate PairAt(r: string, bs: Bytes, i: nat)
    requires i < |bs| && |r| == 2 * |bs|
  {
    r[2 * i] == Digit(Unsigned(bs[i]) / 16) && r[2 * i + 1] == Digit(Unsigned(bs[i]) % 16)
  }

  lemma PairsPrepend(bs: Bytes, h: string, rest: string)
    requires |bs| > 0 && |h| == 2 && |rest| == 2 * (|bs| - 1)
    requires h == [Digit(Unsigned(bs[0]) / 16), Digit(Unsigned(bs[0]) % 16)]
    requires SpellsPairs(rest, bs[1..])
    ensures SpellsPairs(h + rest, bs)
  {
    var r := h + rest;
    var tail := bs[1..];
    assert PairAt(r, bs, 0);
    forall i | 1 <= i < |bs|
      ensures PairAt(r, bs, i)
    {
      assert PairAt(rest, tail, i - 1);
      assert bs[i] == tail[i - 1];
      assert r[2 * i] == rest[2 * (i - 1)];
      assert r[2 * i + 1] == rest[2 * (i - 1) + 1];
    }
  }

  /** `Security.bytesToHex`: two characters per byte, high nibble first. */
  function BytesToHex(bs: Bytes): (r: string)
    ensures |r| == 2 * |bs|
    ensures forall k | 0 <= k < |r| :: IsHexDigit(r[k])
    ensures SpellsPairs(r, bs)
    decreases |bs|
  {
    if |bs| == 0 then ""
    else
      var rest := BytesToHex(bs[1..]);
      var h := ByteHex(bs[0]);
      PairsPrepend(bs, h, rest);
      h + rest
  }

  /** Encoding one more byte appends its two digits, which is how the
      `StringBuilder` loops build the text. */
  lemma {:induction false} BytesToHexAppend(bs: Bytes, b: JByte)
    ensures BytesToHex(bs + [b]) == BytesToHex(bs) + ByteHex(b)
    decreases |bs|
  {
    if |bs| == 0 {
      assert [] + [b] == [b];
      assert [b][1..] == [];
    } else {
      assert (bs + [b])[1..] == bs[1..] + [b];
      BytesToHexAppend(bs[1..], b);
    }
  }

  /** Reads pairs of lower-case hex digits back into bytes; `None` for odd
      length or any other character. */
  function HexDecode(s: string): (r: Option<Bytes>)
    ensures r.Some? ==> 2 * |r.value| == |s|
    decreases |s|
  {
    if |s| == 0 then Some([])
    else if |s| == 1 || !IsHexDigit(s[0]) || !IsHexDigit(s[1]) then None
    else
      var byte := FromUnsigned(16 * DigitValue(s[0]).value + DigitValue(s[1]).value);
      match HexDecode(s[2..])
      case None => None
      case Some(rest) => Some([byte] + rest)
  }

  /** The decoder reads one byte's two digits back into that byte. */
  lemma DecodePair(b: JByte, rest: string)
    ensures HexDecode(ByteHex(b) + rest) ==
      match HexDecode(rest) case None => None case Some(tail) => Some([b] + tail)
  {
    var s := ByteHex(b) + rest;
    var u := Unsigned(b);
    assert s[0] == Digit(u / 16) && s[1] == Digit(u % 16) && s[2..] == rest;
    DigitValueOfDigit(u / 16);
    DigitValueOfDigit(u % 16);
    assert 16 * (u / 16) + u % 16 == u;
    UnsignedInjective(FromUnsigned(u), b);
  }

  /** Decoding the encoder's output recovers the bytes. */
  lemma {:induction false} DecodeEncode(bs: Bytes)
    ensures HexDecode(BytesToHex(bs)) == Some(bs)
    decreases |bs|
  {
    if |bs| > 0 {
      assert BytesToHex(bs) == ByteHex(bs[0]) + BytesToHex(bs[1..]);
      DecodeEncode(bs[1..]);
      DecodePair(bs[0], BytesToHex(bs[1..]));
      assert [bs[0]] + bs[1..] == bs;
    }
  }

  /** Every string the decoder accepts is the encoding of what it decodes to,
      so lower-case hex text has exactly one byte reading. */
  lemma {:induction false} EncodeDecode(s: string, bs: Bytes)
    requires HexDecode(s) == Some(bs)
    ensures BytesToHex(bs) == s
    decreases |s|
  {
    if |s| > 0 {
      var hi := DigitValue(s[0]).value;
      var lo := DigitValue(s[1]).value;
      var rest := HexDecode(s[2..]).value;
      EncodeDecode(s[2..], rest);
      assert bs == [FromUnsigned(16 * hi + lo)] + rest;
      assert bs[1..] == rest;
      var u := Unsigned(bs[0]);
      assert u / 16 == hi && u % 16 == lo;
      assert ByteHex(bs[0]) == s[..2];
      assert s == s[..2] + s[2..];
    }
  }

  /** A text is the encoding of some bytes exactly when it decodes to them. */
  lemma EncodesIffDecodes(s: string, bs: Bytes)
    ensures BytesToHex(bs) == s <==> HexDecode(s) == Some(bs)
  {
    DecodeEncode(bs);
    if HexDecode(s) == Some(bs) {
      EncodeDecode(s, bs);
    }
  }

  /** Distinct byte arrays never share a hex text. */
  lemma EncodeInjective(a: Bytes, b: Bytes)
    requires BytesToHex(a) == BytesToHex(b)
    ensures a == b
  {
    DecodeEncode(a);
    DecodeEncode(b);
  }
}
