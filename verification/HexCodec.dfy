/** Hexadecimal text, byte buffers and the fixed-width big-endian codec
    (the conversions of sections 4.1 and 4.2 of RFC 8017). */
module HexCodec {
  import opened NumberTheory
  import opened Results

  type byte = x: nat | x < 256

  function HexDigit(d: nat): char
    requires d < 16
  {
    "0123456789abcdef"[d]
  }

  function HexValue(c: char): Option<nat> {
    if '0' <= c <= '9' then Some(c as int - '0' as int)
    else if 'a' <= c <= 'f' then Some(c as int - 'a' as int + 10)
    else if 'A' <= c <= 'F' then Some(c as int - 'A' as int + 10)
    else None
  }

  /** `n.toString(16)`: lower-case digits, no leading zero. */
  function ToHex(n: nat): string {
    if n < 16 then [HexDigit(n)] else ToHex(n / 16) + [HexDigit(n % 16)]
  }

  /** The number written by hex digits after the digits already read into acc. */
  function ParseFrom(acc: nat, s: string): Option<nat>
    decreases s
  {
    if s == [] then Some(acc)
    else if HexValue(s[0]).None? then None
    else ParseFrom(16 * acc + HexValue(s[0]).value, s[1..])
  }

  /** BigInt(`0x${hex || '0'}`): None where BigInt throws. */
  function BufferToBigInt(hex: string): Option<nat> {
    ParseFrom(0, if hex == [] then "0" else hex)
  }

  /** `Buffer.from(s, 'hex')`: whole pairs up to the first one that is not hexadecimal. */
  function FromHex(s: string): seq<byte> {
    if |s| < 2 || HexValue(s[0]).None? || HexValue(s[1]).None? then []
    else [16 * HexValue(s[0]).value + HexValue(s[1]).value] + FromHex(s[2..])
  }

  function BytesToHex(b: seq<byte>): string {
    if b == [] then [] else [HexDigit(b[0] / 16), HexDigit(b[0] % 16)] + BytesToHex(b[1..])
  }

  /** The unsigned big-endian value of a buffer, after the bytes already read into acc. */
  function ValueFrom(acc: nat, b: seq<byte>): nat
    decreases b
  {
    if b == [] then acc else ValueFrom(256 * acc + b[0], b[1..])
  }

  function BytesValue(b: seq<byte>): nat { ValueFrom(0, b) }

  function Zeros(n: nat): seq<byte> { seq(n, _ => 0) }

  /** The number of values a buffer of the given width can hold. */
  ghost function Capacity(length: nat): pos {
    PowNat(256, length);
    Pow(256, length)
  }

  /** The bytes before they are fitted into a field. */
  function RawOf(n: nat): seq<byte> {
    var digits := ToHex(n);
    FromHex(if |digits| % 2 == 1 then "0" + digits else digits)
  }

  function BigIntToBuffer(n: nat, length: nat): (buf: seq<byte>)
  {
    var raw := RawOf(n);
    if |raw| > length then raw[|raw| - length..]
    else Zeros(length - |raw|) + raw
  }

  // ---- digits --------------------------------------------------------------------------

  lemma DigitValue(d: nat)
    requires d < 16
    ensures HexValue(HexDigit(d)) == Some(d)
  {
    if d < 10 {
      assert HexDigit(d) == '0' + d as char;
    } else {
      assert HexDigit(d) == 'a' + (d - 10) as char;
    }
  }

  lemma {:induction false} ParseAppend(acc: nat, s: string, c: char)
    requires HexValue(c).Some?
    ensures ParseFrom(acc, s + [c]) ==
            if ParseFrom(acc, s).None? then None
            else Some(16 * ParseFrom(acc, s).value + HexValue(c).value)
    decreases s
  {
    if s == [] {
      assert (s + [c])[1..] == [];
    } else {
      assert (s + [c])[1..] == s[1..] + [c];
      if HexValue(s[0]).Some? { ParseAppend(16 * acc + HexValue(s[0]).value, s[1..], c); }
    }
  }

  /** Reading back what `toString(16)` wrote. */
  lemma {:induction false} ParseToHex(n: nat)
    ensures ToHex(n) != [] && ParseFrom(0, ToHex(n)) == Some(n)
  {
    if n < 16 {
      DigitValue(n);
      assert [HexDigit(n)][1..] == [];
    } else {
      ParseToHex(n / 16);
      DigitValue(n % 16);
      ParseAppend(0, ToHex(n / 16), HexDigit(n % 16));
    }
  }

  const DIGITS: string := "0123456789abcdefABCDEF"

  predicate HexChar(c: char) { c in DIGITS }

  lemma DigitsExact(c: char)
    ensures HexValue(c).Some? <==> HexChar(c)
  {
    if HexValue(c).Some? {
      var d := HexValue(c).value;
      assert DIGITS[if 'A' <= c <= 'F' then d + 6 else d] == c;
    }
  }

  predicate AllHex(s: string) { forall i :: 0 <= i < |s| ==> HexChar(s[i]) }

  lemma Readable(s: string)
    requires s != []
    ensures AllHex(s) <==> HexChar(s[0]) && AllHex(s[1..])
  {
    assert forall i :: 1 <= i < |s| ==> s[i] == s[1..][i - 1];
  }

  lemma {:induction false} ParseReadable(acc: nat, s: string)
    ensures ParseFrom(acc, s).Some? <==> AllHex(s)
    decreases s
  {
    if s != [] {
      DigitsExact(s[0]);
      Readable(s);
      if HexValue(s[0]).Some? { ParseReadable(16 * acc + HexValue(s[0]).value, s[1..]); }
    }
  }

  /** Text reads as a number exactly if it is made of hex digits; empty text reads as zero. */
  lemma HexReads(hex: string)
    ensures BufferToBigInt(hex).Some? <==> AllHex(hex)
    ensures BufferToBigInt("") == Some(0)
  {
    ParseReadable(0, hex);
    assert "0"[1..] == [];
    assert ParseFrom(0, "0") == ParseFrom(0, []);
  }

  /** One digit, in either case. */
  predicate OneDigit(a: char, b: char) {
    a == b || ('A' <= a && a <= 'F' && b as int == a as int + 32) || ('A' <= b && b <= 'F' && a as int == b as int + 32)
  }

  /** Capitals read like small letters. */
  lemma {:induction false} CaseFree(acc: nat, s: string, other: string)
    requires |s| == |other| && forall i :: 0 <= i < |s| ==> OneDigit(s[i], other[i])
    ensures ParseFrom(acc, s) == ParseFrom(acc, other)
    decreases s
  {
    if s != [] {
      assert OneDigit(s[0], other[0]);
      if HexValue(s[0]).Some? { CaseFree(16 * acc + HexValue(s[0]).value, s[1..], other[1..]); }
    }
  }

  // ---- bytes ---------------------------------------------------------------------------

  /** On an even run of hex digits the buffer and the digits spell the same number. */
  lemma {:induction false} FromHexValue(acc: nat, s: string)
    requires |s| % 2 == 0 && ParseFrom(acc, s).Some?
    ensures ParseFrom(acc, s) == Some(ValueFrom(acc, FromHex(s)))
    ensures |FromHex(s)| == |s| / 2
    decreases s
  {
    if s != [] {
      var hi, lo := HexValue(s[0]).value, HexValue(s[1]).value;
      assert s[1..][0] == s[1] && s[1..][1..] == s[2..];
      FromHexValue(16 * (16 * acc + hi) + lo, s[2..]);
      assert FromHex(s)[1..] == FromHex(s[2..]);
    }
  }

  lemma HexPair(x: byte, rest: string)
    ensures var hex := [HexDigit(x / 16), HexDigit(x % 16)] + rest;
            && FromHex(hex) == [x] + FromHex(rest)
            && forall acc: nat :: ParseFrom(acc, hex) == ParseFrom(256 * acc + x, rest)
  {
    var hex := [HexDigit(x / 16), HexDigit(x % 16)] + rest;
    DigitValue(x / 16);
    DigitValue(x % 16);
    assert hex[2..] == rest && hex[1..][0] == hex[1] && hex[1..][1..] == rest;
    forall acc: nat ensures ParseFrom(acc, hex) == ParseFrom(256 * acc + x, rest) {
      assert 16 * (16 * acc + x / 16) + x % 16 == 256 * acc + x;
    }
  }

  /** A buffer, its hex text and the number they spell determine each other. */
  lemma {:induction false} HexOfBytes(acc: nat, b: seq<byte>)
    ensures ParseFrom(acc, BytesToHex(b)) == Some(ValueFrom(acc, b))
    ensures |BytesToHex(b)| == 2 * |b| && FromHex(BytesToHex(b)) == b
    decreases b
  {
    if b != [] {
      HexPair(b[0], BytesToHex(b[1..]));
      HexOfBytes(256 * acc + b[0], b[1..]);
    }
  }

  lemma {:induction false} ValueSplit(acc: nat, b: seq<byte>)
    ensures ValueFrom(acc, b) == acc * Capacity(|b|) + BytesValue(b)
    ensures BytesValue(b) < Capacity(|b|)
    decreases b
  {
    if b != [] {
      var c := Capacity(|b| - 1);
      ValueSplit(256 * acc + b[0], b[1..]);
      ValueSplit(b[0], b[1..]);
      assert Capacity(|b|) == 256 * c;
      assert (256 * acc + b[0]) * c == acc * (256 * c) + b[0] * c;
      assert 256 * c - (b[0] * c + c) == (255 - b[0]) * c >= 0;
    }
  }

  lemma {:induction false} ValueConcat(acc: nat, a: seq<byte>, b: seq<byte>)
    ensures ValueFrom(acc, a + b) == ValueFrom(ValueFrom(acc, a), b)
    decreases a
  {
    if a == [] {
      assert a + b == b;
    } else {
      assert (a + b)[1..] == a[1..] + b;
      ValueConcat(256 * acc + a[0], a[1..], b);
    }
  }

  lemma {:induction false} ZerosValue(n: nat)
    ensures BytesValue(Zeros(n)) == 0
  {
    if n > 0 {
      ZerosValue(n - 1);
      assert Zeros(n)[1..] == Zeros(n - 1);
    }
  }

  lemma {:induction false} CapacityMonotone(x: nat, y: nat)
    requires x <= y
    ensures Capacity(x) <= Capacity(y)
  {
    if x < y { CapacityMonotone(x, y - 1); }
  }

  lemma RawBuffer(n: nat)
    ensures BytesValue(RawOf(n)) == n
  {
    var digits := ToHex(n);
    ParseToHex(n);
    assert ("0" + digits)[1..] == digits;
    FromHexValue(0, if |digits| % 2 == 1 then "0" + digits else digits);
  }

  /** Dropping leading bytes reduces the value modulo the remaining width. */
  lemma TruncatedValue(raw: seq<byte>, length: nat)
    requires length <= |raw|
    ensures BytesValue(raw[|raw| - length..]) == BytesValue(raw) % Capacity(length)
  {
    var high, low := raw[..|raw| - length], raw[|raw| - length..];
    assert raw == high + low;
    ValueConcat(0, high, low);
    ValueSplit(BytesValue(high), low);
    Quotient(BytesValue(raw), Capacity(length), BytesValue(high), BytesValue(low));
  }

  lemma PaddedValue(raw: seq<byte>, length: nat)
    requires |raw| <= length
    ensures BytesValue(Zeros(length - |raw|) + raw) == BytesValue(raw) < Capacity(length)
  {
    ValueConcat(0, Zeros(length - |raw|), raw);
    ZerosValue(length - |raw|);
    ValueSplit(0, raw);
    CapacityMonotone(|raw|, length);
  }

  /** The codec keeps exactly the low `length` bytes. */
  lemma BufferValue(n: nat, length: nat)
    ensures |BigIntToBuffer(n, length)| == length
    ensures BytesValue(BigIntToBuffer(n, length)) == n % Capacity(length)
  {
    RawBuffer(n);
    var raw := RawOf(n);
    FieldValue(raw, length);
  }

  lemma FieldValue(raw: seq<byte>, length: nat)
    ensures var field := if |raw| > length then raw[|raw| - length..] else Zeros(length - |raw|) + raw;
            |field| == length && BytesValue(field) == BytesValue(raw) % Capacity(length)
  {
    if |raw| > length {
      TruncatedValue(raw, length);
    } else {
      PaddedValue(raw, length);
      Quotient(BytesValue(raw), Capacity(length), 0, BytesValue(raw));
    }
  }

  /** Writing a number into a fixed-width field and reading the field back as hex is exact
      just for the numbers below the field's capacity. */
  lemma FieldRoundTrip(n: nat, length: nat)
    requires length > 0
    ensures var hex := BytesToHex(BigIntToBuffer(n, length));
            && BufferToBigInt(hex) == Some(n % Capacity(length))
            && FromHex(hex) == BigIntToBuffer(n, length)
            && (BufferToBigInt(hex) == Some(n) <==> n < Capacity(length))
  {
    var c := Capacity(length);
    BufferValue(n, length);
    HexOfBytes(0, BigIntToBuffer(n, length));
    if n < c { Quotient(n, c, 0, n); }
  }
}
