/** UTF-8 (RFC 3629), as Go reads and writes it: text is a sequence of Unicode scalar values, and a byte that starts no
    well-formed sequence reads as the replacement character. */
module Utf8 {
  import opened Base64

  const REPLACEMENT: char := '\U{FFFD}'

  function EncodeChar(c: char): Bytes {
    var n := c as int;
    if n < 0x80 then [n as byte]
    else if n < 0x800 then [(0xC0 + n / 64) as byte, (0x80 + n % 64) as byte]
    else if n < 0x10000 then [(0xE0 + n / 4096) as byte, (0x80 + n / 64 % 64) as byte, (0x80 + n % 64) as byte]
    else [(0xF0 + n / 262144) as byte, (0x80 + n / 4096 % 64) as byte,
          (0x80 + n / 64 % 64) as byte, (0x80 + n % 64) as byte]
  }

  function Encode(text: string): Bytes {
    if text == [] then [] else EncodeChar(text[0]) + Encode(text[1..])
  }

  predicate Continues(data: Bytes, i: nat) {
    i < |data| && 0x80 <= data[i] < 0xC0
  }

  function Bits(data: Bytes, i: nat): int
    requires Continues(data, i)
  {
    data[i] as int - 0x80
  }

  predicate IsScalar(n: int) {
    0 <= n < 0xD800 || 0xE000 <= n < 0x110000
  }

  /** The first character of some bytes and how many of them it takes. */
  function DecodeChar(data: Bytes): (char, nat)
    requires data != []
    ensures 1 <= DecodeChar(data).1 <= |data|
  {
    var lead := data[0] as int;
    if lead < 0x80 then (lead as char, 1)
    else if 0xC0 <= lead < 0xE0 && Continues(data, 1) then
      var n := (lead - 0xC0) * 64 + Bits(data, 1);
      if n >= 0x80 then (n as char, 2) else (REPLACEMENT, 1)
    else if 0xE0 <= lead < 0xF0 && Continues(data, 1) && Continues(data, 2) then
      var n := (lead - 0xE0) * 4096 + Bits(data, 1) * 64 + Bits(data, 2);
      if n >= 0x800 && IsScalar(n) then (n as char, 3) else (REPLACEMENT, 1)
    else if 0xF0 <= lead < 0xF8 && Continues(data, 1) && Continues(data, 2) && Continues(data, 3) then
      var n := (lead - 0xF0) * 262144 + Bits(data, 1) * 4096 + Bits(data, 2) * 64 + Bits(data, 3);
      if n >= 0x10000 && IsScalar(n) then (n as char, 4) else (REPLACEMENT, 1)
    else (REPLACEMENT, 1)
  }

  function Decode(data: Bytes): string {
    if data == [] then []
    else
      var (c, width) := DecodeChar(data);
      [c] + Decode(data[width..])
  }

  lemma DecodeThree(n: int, rest: Bytes)
    requires 0x800 <= n < 0x10000 && IsScalar(n)
    ensures DecodeChar(EncodeChar(n as char) + rest) == (n as char, 3)
  {
    var data := EncodeChar(n as char) + rest;
    assert Bits(data, 1) == n / 64 % 64 && Bits(data, 2) == n % 64;
    assert n == n / 4096 * 4096 + n / 64 % 64 * 64 + n % 64;
  }

  lemma FourParts(n: int)
    requires 0x10000 <= n < 0x110000
    ensures n == n / 262144 * 262144 + n / 4096 % 64 * 4096 + n / 64 % 64 * 64 + n % 64
    ensures 0 <= n / 262144 < 8
  {
    var a := n / 64;
    var b := a / 64;
    assert n / 4096 == b && n / 262144 == b / 64;
    assert n == 64 * a + n % 64 && a == 64 * b + a % 64 && b == 64 * (b / 64) + b % 64;
  }

  lemma DecodeFour(n: int, rest: Bytes)
    requires 0x10000 <= n && IsScalar(n)
    ensures DecodeChar(EncodeChar(n as char) + rest) == (n as char, 4)
  {
    var a, b, c, d := n / 262144, n / 4096 % 64, n / 64 % 64, n % 64;
    FourParts(n);
    var data := EncodeChar(n as char) + rest;
    assert data[0] as int == 0xF0 + a;
    assert Continues(data, 1) && Bits(data, 1) == b;
    assert Continues(data, 2) && Bits(data, 2) == c;
    assert Continues(data, 3) && Bits(data, 3) == d;
  }

  lemma DecodeEncodeChar(c: char, rest: Bytes)
    ensures DecodeChar(EncodeChar(c) + rest) == (c, |EncodeChar(c)|)
  {
    var n := c as int;
    if n < 0x80 {
    } else if n < 0x800 {
      assert Bits(EncodeChar(c) + rest, 1) == n % 64;
    } else if n < 0x10000 {
      DecodeThree(n, rest);
    } else {
      DecodeFour(n, rest);
    }
  }

  /** Every text survives encoding. */
  lemma {:induction false} DecodeEncode(text: string)
    ensures Decode(Encode(text)) == text
  {
    if text != [] {
      DecodeEncodeChar(text[0], Encode(text[1..]));
      assert Encode(text)[|EncodeChar(text[0])|..] == Encode(text[1..]);
      DecodeEncode(text[1..]);
    }
  }

  lemma EncodeInjective(a: string, b: string)
    requires Encode(a) == Encode(b)
    ensures a == b
  {
    DecodeEncode(a);
    DecodeEncode(b);
  }

  /** The examples of section 7 of RFC 3629 and one character of each length. */
  lemma Examples()
    ensures EncodeChar('A') == [0x41]
    ensures EncodeChar('\U{391}') == [0xCE, 0x91]
    ensures EncodeChar('\U{2262}') == [0xE2, 0x89, 0xA2]
    ensures EncodeChar('\U{D55C}') == [0xED, 0x95, 0x9C]
    ensures EncodeChar('\U{233B4}') == [0xF0, 0xA3, 0x8E, 0xB4]
  {
  }

  // --- well-formed bytes ---

  predicate Within(data: Bytes, i: nat, low: byte, high: byte) {
    i < |data| && low <= data[i] <= high
  }

  /** The length of the well-formed sequence some bytes start with, or 0: the table of section 4 of RFC 3629. */
  function Width(data: Bytes): (width: nat)
    requires data != []
    ensures width <= |data|
  {
    var lead := data[0];
    if lead <= 0x7F then 1
    else if 0xC2 <= lead <= 0xDF then
      if Within(data, 1, 0x80, 0xBF) then 2 else 0
    else if 0xE0 <= lead <= 0xEF then
      var low: byte := if lead == 0xE0 then 0xA0 else 0x80;
      var high: byte := if lead == 0xED then 0x9F else 0xBF;
      if Within(data, 1, low, high) && Within(data, 2, 0x80, 0xBF) then 3 else 0
    else if 0xF0 <= lead <= 0xF4 then
      var low: byte := if lead == 0xF0 then 0x90 else 0x80;
      var high: byte := if lead == 0xF4 then 0x8F else 0xBF;
      if Within(data, 1, low, high) && Within(data, 2, 0x80, 0xBF) && Within(data, 3, 0x80, 0xBF) then 4 else 0
    else 0
  }

  predicate WellFormed(data: Bytes)
    decreases |data|
  {
    data == [] || (Width(data) > 0 && WellFormed(data[Width(data)..]))
  }

  /** The arithmetic of DecodeChar agrees with the table on what is ill-formed. */
  lemma IllFormedReadsAsReplacement(data: Bytes)
    requires data != []
    ensures Width(data) == 0 <==> DecodeChar(data) == (REPLACEMENT, 1)
    ensures Width(data) > 0 ==> DecodeChar(data).1 == Width(data)
  {
  }

  lemma TwoBytes(data: Bytes)
    requires |data| >= 2 && Width(data) == 2
    ensures EncodeChar(DecodeChar(data).0) == [data[0], data[1]]
  {
  }

  lemma ThreeParts(a: int, b: int, c: int)
    requires 0 <= a < 16 && 0 <= b < 64 && 0 <= c < 64
    ensures var n := a * 4096 + b * 64 + c;
            n / 4096 == a && n / 64 % 64 == b && n % 64 == c
  {
    var m := a * 64 + b;
    var n := m * 64 + c;
    assert n == a * 4096 + b * 64 + c;
    assert n / 64 == m && n % 64 == c;
    assert m / 64 == a && m % 64 == b;
    assert n / 4096 == n / 64 / 64;
  }

  lemma ThreeBytes(data: Bytes)
    requires |data| >= 3 && Width(data) == 3
    ensures EncodeChar(DecodeChar(data).0) == [data[0], data[1], data[2]]
  {
    ThreeParts(data[0] as int - 0xE0, Bits(data, 1), Bits(data, 2));
  }

  lemma FourBytes(data: Bytes)
    requires |data| >= 4 && Width(data) == 4
    ensures EncodeChar(DecodeChar(data).0) == [data[0], data[1], data[2], data[3]]
  {
    Combined(data[0] as int - 0xF0, Bits(data, 1), Bits(data, 2), Bits(data, 3));
  }

  lemma Combined(a: int, b: int, c: int, d: int)
    requires 0 <= a < 8 && 0 <= b < 64 && 0 <= c < 64 && 0 <= d < 64
    ensures var n := a * 262144 + b * 4096 + c * 64 + d;
            n / 262144 == a && n / 4096 % 64 == b && n / 64 % 64 == c && n % 64 == d
  {
    ThreeParts(a, b, c);
    var m := a * 4096 + b * 64 + c;
    var n := m * 64 + d;
    assert n == a * 262144 + b * 4096 + c * 64 + d;
    assert n / 64 == m && n % 64 == d;
    assert m / 64 % 64 == b && m / 4096 == a && m % 64 == c;
    assert n / 4096 == n / 64 / 64 && n / 262144 == n / 64 / 4096;
  }

  /** A well-formed sequence is the encoding of the character it reads as. */
  lemma EncodeDecodeChar(data: Bytes)
    requires data != [] && Width(data) > 0
    ensures DecodeChar(data).1 == Width(data)
    ensures EncodeChar(DecodeChar(data).0) == data[..Width(data)]
  {
    IllFormedReadsAsReplacement(data);
    match Width(data) {
      case 1 =>
      case 2 => TwoBytes(data);
      case 3 => ThreeBytes(data);
      case _ => FourBytes(data);
    }
  }

  /** What is encoded is well-formed. */
  lemma {:induction false} EncodeWellFormed(text: string)
    ensures WellFormed(Encode(text))
  {
    if text != [] {
      var data := Encode(text);
      DecodeEncodeChar(text[0], Encode(text[1..]));
      IllFormedReadsAsReplacement(data);
      assert data[|EncodeChar(text[0])|..] == Encode(text[1..]);
      EncodeWellFormed(text[1..]);
    }
  }

  lemma {:induction false} DecodeWellFormed(data: Bytes)
    requires WellFormed(data)
    ensures Encode(Decode(data)) == data
    decreases |data|
  {
    if data != [] {
      DecodeWellFormed(data[Width(data)..]);
      FirstCharSurvives(data);
    }
  }

  lemma FirstCharSurvives(data: Bytes)
    requires data != [] && Width(data) > 0
    ensures Encode(Decode(data[Width(data)..])) == data[Width(data)..] ==> Encode(Decode(data)) == data
  {
    var rest := data[Width(data)..];
    EncodeDecodeChar(data);
    EncodeStep(DecodeChar(data).0, Decode(rest));
    assert data[..Width(data)] + rest == data;
  }

  lemma EncodeStep(c: char, text: string)
    ensures Encode([c] + text) == EncodeChar(c) + Encode(text)
  {
  }

  /** Bytes survive reading as text exactly when they are well-formed. */
  lemma EncodeDecodeIff(data: Bytes)
    ensures Encode(Decode(data)) == data <==> WellFormed(data)
  {
    EncodeWellFormed(Decode(data));
    if WellFormed(data) {
      DecodeWellFormed(data);
    }
  }
}
