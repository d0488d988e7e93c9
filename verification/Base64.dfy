/** The standard base64 encoding with padding (sections 3.2 and 4 of RFC 4648), as the subscription links use it:
    decoding skips line breaks and does not look at the unused bits of the last group. */
module Base64 {
  import opened Kube

  newtype byte = x: int | 0 <= x < 256

  type Bytes = seq<byte>

  const PAD: byte := 61
  const NEWLINE: byte := 10
  const RETURN: byte := 13

  type Sextet = v: int | 0 <= v < 64

  /** Table 1 of RFC 4648. */
  function Letter(v: Sextet): byte {
    if v < 26 then (65 + v) as byte
    else if v < 52 then (97 + v - 26) as byte
    else if v < 62 then (48 + v - 52) as byte
    else if v == 62 then 43 else 47
  }

  function Value(c: byte): Option<Sextet> {
    if 65 <= c <= 90 then Some(c as int - 65)
    else if 97 <= c <= 122 then Some(c as int - 97 + 26)
    else if 48 <= c <= 57 then Some(c as int - 48 + 52)
    else if c == 43 then Some(62)
    else if c == 47 then Some(63)
    else None
  }

  lemma LetterValue(v: Sextet)
    ensures Value(Letter(v)) == Some(v)
    ensures Letter(v) != PAD && Letter(v) != NEWLINE && Letter(v) != RETURN
  {
  }

  lemma ValueLetter(c: byte)
    ensures Value(c).Some? ==> Letter(Value(c).value) == c
  {
  }

  function Group(a: int, b: int, c: int): Bytes
    requires 0 <= a < 256 && 0 <= b < 256 && 0 <= c < 256
  {
    [Letter(a / 4), Letter(a % 4 * 16 + b / 16), Letter(b % 16 * 4 + c / 64), Letter(c % 64)]
  }

  function Encode(data: Bytes): Bytes {
    if data == [] then []
    else if |data| == 1 then Group(data[0] as int, 0, 0)[..2] + [PAD, PAD]
    else if |data| == 2 then Group(data[0] as int, data[1] as int, 0)[..3] + [PAD]
    else Group(data[0] as int, data[1] as int, data[2] as int) + Encode(data[3..])
  }

  function Strip(text: Bytes): Bytes {
    if text == [] then []
    else (if text[0] == NEWLINE || text[0] == RETURN then [] else [text[0]]) + Strip(text[1..])
  }

  /** The three bytes of four sextets. */
  function Ungroup(p: Sextet, q: Sextet, r: Sextet, s: Sextet): Bytes {
    [(p * 4 + q / 16) as byte, (q % 16 * 16 + r / 4) as byte, (r % 4 * 64 + s) as byte]
  }

  function DecodeGroups(text: Bytes): Option<Bytes> {
    if text == [] then Some([])
    else if |text| < 4 || Value(text[0]).None? || Value(text[1]).None? then None
    else
      var p, q := Value(text[0]).value, Value(text[1]).value;
      if text[2] == PAD then
        if text[3] == PAD && |text| == 4 then Some(Ungroup(p, q, 0, 0)[..1]) else None
      else if Value(text[2]).None? then None
      else
        var r := Value(text[2]).value;
        if text[3] == PAD then
          if |text| == 4 then Some(Ungroup(p, q, r, 0)[..2]) else None
        else if Value(text[3]).None? then None
        else
          var rest := DecodeGroups(text[4..]);
          if rest.None? then None else Some(Ungroup(p, q, r, Value(text[3]).value) + rest.value)
  }

  function Decode(text: Bytes): Option<Bytes> {
    DecodeGroups(Strip(text))
  }

  lemma UngroupGroup(a: int, b: int, c: int)
    requires 0 <= a < 256 && 0 <= b < 256 && 0 <= c < 256
    ensures Ungroup(a / 4, a % 4 * 16 + b / 16, b % 16 * 4 + c / 64, c % 64) == [a as byte, b as byte, c as byte]
  {
  }

  /** The two parts of a byte that joins `high` bits with `low` ones. */
  lemma Joined(high: nat, low: nat, unit: nat)
    requires unit == 4 || unit == 16 || unit == 64
    requires low < unit
    ensures (high * unit + low) / unit == high && (high * unit + low) % unit == low
  {
  }

  lemma GroupUngroup(p: Sextet, q: Sextet, r: Sextet, s: Sextet)
    ensures var u := Ungroup(p, q, r, s);
            Group(u[0] as int, u[1] as int, u[2] as int) == [Letter(p), Letter(q), Letter(r), Letter(s)]
  {
    Joined(p, q / 16, 4);
    Joined(q % 16, r / 4, 16);
    Joined(r % 4, s, 64);
    GroupLetters(p * 4 + q / 16, q % 16 * 16 + r / 4, r % 4 * 64 + s, p, q, r, s);
  }

  lemma GroupLetters(a: int, b: int, c: int, p: Sextet, q: Sextet, r: Sextet, s: Sextet)
    requires 0 <= a < 256 && 0 <= b < 256 && 0 <= c < 256
    requires a / 4 == p && a % 4 == q / 16
    requires b / 16 == q % 16 && b % 16 == r / 4
    requires c / 64 == r % 4 && c % 64 == s
    ensures Group(a, b, c) == [Letter(p), Letter(q), Letter(r), Letter(s)]
  {
  }

  lemma DecodeGroup(a: int, b: int, c: int, rest: Bytes)
    requires 0 <= a < 256 && 0 <= b < 256 && 0 <= c < 256
    requires DecodeGroups(rest).Some?
    ensures DecodeGroups(Group(a, b, c) + rest) == Some([a as byte, b as byte, c as byte] + DecodeGroups(rest).value)
  {
    UngroupGroup(a, b, c);
    LetterValue(a / 4);
    LetterValue(a % 4 * 16 + b / 16);
    LetterValue(b % 16 * 4 + c / 64);
    LetterValue(c % 64);
    assert (Group(a, b, c) + rest)[4..] == rest;
  }

  lemma DecodeOne(p: Sextet, q: Sextet)
    ensures DecodeGroups([Letter(p), Letter(q), PAD, PAD]) == Some(Ungroup(p, q, 0, 0)[..1])
  {
    LetterValue(p);
    LetterValue(q);
  }

  lemma DecodeTwo(p: Sextet, q: Sextet, r: Sextet)
    ensures DecodeGroups([Letter(p), Letter(q), Letter(r), PAD]) == Some(Ungroup(p, q, r, 0)[..2])
  {
    LetterValue(p);
    LetterValue(q);
    LetterValue(r);
  }

  lemma DecodeEncodeOne(a: byte)
    ensures DecodeGroups(Encode([a])) == Some([a])
  {
    var p: Sextet, q: Sextet := a as int / 4, a as int % 4 * 16;
    assert Encode([a]) == [Letter(p), Letter(q), PAD, PAD];
    DecodeOne(p, q);
    assert p * 4 + q / 16 == a as int;
    assert Ungroup(p, q, 0, 0)[..1] == [a];
  }

  lemma DecodeEncodeTwo(a: byte, b: byte)
    ensures DecodeGroups(Encode([a, b])) == Some([a, b])
  {
    var p: Sextet, q: Sextet, r: Sextet := a as int / 4, a as int % 4 * 16 + b as int / 16, b as int % 16 * 4;
    assert Encode([a, b]) == [Letter(p), Letter(q), Letter(r), PAD];
    DecodeTwo(p, q, r);
    UngroupGroup(a as int, b as int, 0);
    assert Ungroup(p, q, r, 0)[..2] == [a, b];
  }

  lemma {:induction false} DecodeEncodeGroups(data: Bytes)
    ensures DecodeGroups(Encode(data)) == Some(data)
  {
    if |data| >= 3 {
      DecodeEncodeGroups(data[3..]);
      DecodeGroup(data[0] as int, data[1] as int, data[2] as int, Encode(data[3..]));
      assert data == [data[0], data[1], data[2]] + data[3..];
    } else if |data| == 1 {
      DecodeEncodeOne(data[0]);
      assert data == [data[0]];
    } else if |data| == 2 {
      DecodeEncodeTwo(data[0], data[1]);
      assert data == [data[0], data[1]];
    }
  }

  predicate InAlphabet(c: byte) {
    Value(c).Some? || c == PAD
  }

  /** Four characters for every three bytes begun, all of them letters of the alphabet or padding. */
  lemma {:induction false} EncodeShape(data: Bytes)
    ensures |Encode(data)| == 4 * ((|data| + 2) / 3)
    ensures forall c | c in Encode(data) :: InAlphabet(c) && c != NEWLINE && c != RETURN
  {
    forall v: Sextet
      ensures InAlphabet(Letter(v)) && Letter(v) != NEWLINE && Letter(v) != RETURN
    {
      LetterValue(v);
    }
    if |data| >= 3 {
      EncodeShape(data[3..]);
      assert (|data| - 3 + 2) / 3 == (|data| + 2) / 3 - 1;
    }
  }

  lemma {:induction false} StripNothing(text: Bytes)
    requires forall c | c in text :: c != NEWLINE && c != RETURN
    ensures Strip(text) == text
  {
    if text != [] {
      assert text[0] in text && forall c | c in text[1..] :: c in text;
      StripNothing(text[1..]);
    }
  }

  /** Decoding an encoding gives the bytes back, for every byte sequence. */
  lemma DecodeEncode(data: Bytes)
    ensures Decode(Encode(data)) == Some(data)
  {
    EncodeShape(data);
    StripNothing(Encode(data));
    DecodeEncodeGroups(data);
  }

  /** Table 1 of RFC 4648: three runs of letters and digits, and two signs. */
  lemma LetterTable(v: Sextet)
    ensures Letter(0) as char == 'A' && Letter(25) as char == 'Z' && Letter(26) as char == 'a'
            && Letter(51) as char == 'z'
    ensures Letter(52) as char == '0' && Letter(61) as char == '9' && Letter(62) as char == '+'
            && Letter(63) as char == '/'
    ensures v != 25 && v != 51 && v < 61 ==> Letter(v + 1) == Letter(v) + 1
  {
  }

  /** A group is its 24 bits, read six at a time. */
  lemma GroupBits(a: int, b: int, c: int)
    requires 0 <= a < 256 && 0 <= b < 256 && 0 <= c < 256
    ensures var p: Sextet, q: Sextet, r: Sextet, s: Sextet := a / 4, a % 4 * 16 + b / 16, b % 16 * 4 + c / 64, c % 64;
            && Group(a, b, c) == [Letter(p), Letter(q), Letter(r), Letter(s)]
            && ((p * 64 + q) * 64 + r) * 64 + s == (a * 256 + b) * 256 + c
  {
  }

  /** Line breaks in a text, as in wrapped base64, do not matter. */
  lemma {:induction false} StripConcat(a: Bytes, b: Bytes)
    ensures Strip(a + b) == Strip(a) + Strip(b)
  {
    if a == [] {
      assert a + b == b;
    } else {
      assert (a + b)[1..] == a[1..] + b;
      StripConcat(a[1..], b);
    }
  }

  lemma DecodeWrapped(a: Bytes, b: Bytes)
    ensures Decode(a + [NEWLINE] + b) == Decode(a + b) == Decode(a + [RETURN, NEWLINE] + b)
  {
    StripConcat(a, b);
    StripConcat(a, [NEWLINE]);
    StripConcat(a + [NEWLINE], b);
    StripConcat(a, [RETURN, NEWLINE]);
    StripConcat(a + [RETURN, NEWLINE], b);
    assert [NEWLINE][1..] == [];
    assert Strip([NEWLINE]) == [];
    assert Strip(a) + [] == Strip(a);
    assert [RETURN, NEWLINE][1..] == [NEWLINE];
    assert Strip([RETURN, NEWLINE]) == [];
  }

  /** `pads` characters of padding at the end of letters, in groups of four. */
  predicate Padded(text: Bytes, pads: nat) {
    && |text| % 4 == 0 && pads <= |text|
    && (forall i | 0 <= i < |text| - pads :: Value(text[i]).Some?)
    && (forall i | |text| - pads <= i < |text| :: text[i] == PAD)
  }

  /** The texts that decode: letters in groups of four, the last group with at most two characters of padding. */
  lemma {:induction false} DecodesIff(text: Bytes)
    ensures DecodeGroups(text).Some? <==> Padded(text, 0) || Padded(text, 1) || Padded(text, 2)
  {
    assert Value(PAD).None?;
    if |text| >= 8 {
      DecodesIff(text[4..]);
      PaddedTail(text, 0);
      PaddedTail(text, 1);
      PaddedTail(text, 2);
    } else if |text| == 4 {
      assert text[4..] == [];
    }
  }

  lemma PaddedTail(text: Bytes, pads: nat)
    requires |text| >= 8 && pads <= 2
    ensures Padded(text, pads) <==>
              && Padded(text[4..], pads)
              && Value(text[0]).Some? && Value(text[1]).Some? && Value(text[2]).Some? && Value(text[3]).Some?
  {
    assert forall i | 4 <= i < |text| :: text[i] == text[4..][i - 4];
  }

  /** The test vectors of section 10 of RFC 4648, up to three bytes. */
  lemma TestVectors()
    ensures Encode([102]) == [90, 103, 61, 61]
    ensures Encode([102, 111]) == [90, 109, 56, 61]
    ensures Encode([102, 111, 111]) == [90, 109, 57, 118]
  {
    assert [102, 111, 111][3..] == [];
  }

  /** The bits of the last group that no byte uses are zero. */
  predicate CleanTail(text: Bytes) {
    var n := |text|;
    n >= 4 && text[n - 1] == PAD ==>
      if text[n - 2] == PAD then Value(text[n - 3]).Some? && Value(text[n - 3]).value % 16 == 0
      else Value(text[n - 2]).Some? && Value(text[n - 2]).value % 4 == 0
  }

  /** The other direction: encoding what a text decodes to gives the text back, line breaks removed, exactly when its
      unused bits are zero. Other texts are accepted as well and read like the canonical one. */
  lemma EncodeDecodeIff(text: Bytes)
    requires Decode(text).Some?
    ensures Encode(Decode(text).value) == Strip(text) <==> CleanTail(Strip(text))
  {
    EncodeDecodeGroups(Strip(text));
  }

  lemma ClearedLetter(v: Sextet, k: int)
    requires k == 4 || k == 16
    ensures Letter(v / k * k) == Letter(v) <==> v % k == 0
  {
    LetterValue(v / k * k);
    LetterValue(v);
  }

  lemma EncodeDecodeOne(p: Sextet, q: Sextet)
    ensures Encode(Ungroup(p, q, 0, 0)[..1]) == [Letter(p), Letter(q / 16 * 16), PAD, PAD]
  {
    var a := p * 4 + q / 16;
    assert Ungroup(p, q, 0, 0)[..1] == [a as byte];
    Joined(p, q / 16, 4);
  }

  lemma EncodeDecodeTwo(p: Sextet, q: Sextet, r: Sextet)
    ensures Encode(Ungroup(p, q, r, 0)[..2]) == [Letter(p), Letter(q), Letter(r / 4 * 4), PAD]
  {
    var a, b := p * 4 + q / 16, q % 16 * 16 + r / 4;
    assert Ungroup(p, q, r, 0)[..2] == [a as byte, b as byte];
    Joined(p, q / 16, 4);
    Joined(q % 16, r / 4, 16);
    GroupLetters(a, b, 0, p, q, r / 4 * 4, 0);
  }

  lemma EncodeDecodeThree(p: Sextet, q: Sextet, r: Sextet, s: Sextet, rest: Bytes)
    ensures Encode(Ungroup(p, q, r, s) + rest) == [Letter(p), Letter(q), Letter(r), Letter(s)] + Encode(rest)
  {
    GroupUngroup(p, q, r, s);
    assert (Ungroup(p, q, r, s) + rest)[3..] == rest;
  }

  lemma {:induction false} EncodeDecodeGroups(text: Bytes)
    requires DecodeGroups(text).Some?
    ensures Encode(DecodeGroups(text).value) == text <==> CleanTail(text)
  {
    if text != [] {
      if text[2] == PAD {
        LastGroupOfOne(text);
      } else if text[3] == PAD {
        LastGroupOfTwo(text);
      } else {
        EncodeDecodeGroups(text[4..]);
        FirstGroup(text);
        CleanTailAfter(text);
      }
    }
  }

  lemma PaddedOne(p: Sextet, q: Sextet)
    ensures var text := [Letter(p), Letter(q), PAD, PAD];
            DecodeGroups(text).Some? && (Encode(DecodeGroups(text).value) == text <==> q % 16 == 0)
  {
    DecodeOne(p, q);
    EncodeDecodeOne(p, q);
    ClearedLetter(q, 16);
  }

  lemma PaddedTwo(p: Sextet, q: Sextet, r: Sextet)
    ensures var text := [Letter(p), Letter(q), Letter(r), PAD];
            DecodeGroups(text).Some? && (Encode(DecodeGroups(text).value) == text <==> r % 4 == 0)
  {
    DecodeTwo(p, q, r);
    EncodeDecodeTwo(p, q, r);
    ClearedLetter(r, 4);
  }

  lemma LastGroupOfOne(text: Bytes)
    requires |text| == 4 && Value(text[0]).Some? && Value(text[1]).Some? && text[2] == text[3] == PAD
    ensures DecodeGroups(text).Some? && (Encode(DecodeGroups(text).value) == text <==> CleanTail(text))
  {
    var p, q := Value(text[0]).value, Value(text[1]).value;
    ValueLetter(text[0]);
    ValueLetter(text[1]);
    assert text == [Letter(p), Letter(q), PAD, PAD];
    PaddedOne(p, q);
  }

  lemma LastGroupOfTwo(text: Bytes)
    requires |text| == 4 && Value(text[0]).Some? && Value(text[1]).Some? && Value(text[2]).Some? && text[3] == PAD
    ensures DecodeGroups(text).Some? && (Encode(DecodeGroups(text).value) == text <==> CleanTail(text))
  {
    var p, q, r := Value(text[0]).value, Value(text[1]).value, Value(text[2]).value;
    ValueLetter(text[0]);
    ValueLetter(text[1]);
    ValueLetter(text[2]);
    assert Value(PAD).None?;
    assert CleanTail(text) <==> r % 4 == 0;
    assert text == [Letter(p), Letter(q), Letter(r), PAD];
    PaddedTwo(p, q, r);
  }

  /** A full group ahead of a text that decodes is kept as it is. */
  lemma FirstGroup(text: Bytes)
    requires |text| >= 4
    requires Value(text[0]).Some? && Value(text[1]).Some? && Value(text[2]).Some? && Value(text[3]).Some?
    requires DecodeGroups(text[4..]).Some?
    ensures DecodeGroups(text).Some?
    ensures Encode(DecodeGroups(text).value) == text <==> Encode(DecodeGroups(text[4..]).value) == text[4..]
  {
    var p, q, r, s := Value(text[0]).value, Value(text[1]).value, Value(text[2]).value, Value(text[3]).value;
    ValueLetter(text[0]);
    ValueLetter(text[1]);
    ValueLetter(text[2]);
    ValueLetter(text[3]);
    assert text == [Letter(p), Letter(q), Letter(r), Letter(s)] + text[4..];
    GroupAhead(p, q, r, s, text[4..]);
  }

  lemma GroupAhead(p: Sextet, q: Sextet, r: Sextet, s: Sextet, rest: Bytes)
    requires DecodeGroups(rest).Some?
    ensures var text := [Letter(p), Letter(q), Letter(r), Letter(s)] + rest;
            && DecodeGroups(text).Some?
            && (Encode(DecodeGroups(text).value) == text <==> Encode(DecodeGroups(rest).value) == rest)
  {
    var head, tail := [Letter(p), Letter(q), Letter(r), Letter(s)], DecodeGroups(rest).value;
    DecodeLetters(p, q, r, s, rest);
    EncodeDecodeThree(p, q, r, s, tail);
    assert (head + rest)[4..] == rest;
    SameHead(head + rest, head, Encode(tail));
  }

  lemma DecodeLetters(p: Sextet, q: Sextet, r: Sextet, s: Sextet, rest: Bytes)
    requires DecodeGroups(rest).Some?
    ensures DecodeGroups([Letter(p), Letter(q), Letter(r), Letter(s)] + rest) ==
            Some(Ungroup(p, q, r, s) + DecodeGroups(rest).value)
  {
    LetterValue(p);
    LetterValue(q);
    LetterValue(r);
    LetterValue(s);
    assert ([Letter(p), Letter(q), Letter(r), Letter(s)] + rest)[4..] == rest;
  }

  lemma SameHead(text: Bytes, head: Bytes, tail: Bytes)
    requires |text| >= |head| && head == text[..|head|]
    ensures head + tail == text <==> tail == text[|head|..]
  {
    assert text == head + text[|head|..];
    assert (head + tail)[|head|..] == tail;
  }

  lemma CleanTailAfter(text: Bytes)
    requires |text| >= 4 && text[3] != PAD && (|text| == 4 || |text| >= 8)
    ensures CleanTail(text) <==> CleanTail(text[4..])
  {
  }
}
