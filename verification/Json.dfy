/** JSON text as Go's encoder prints it and its decoder reads it (RFC 8259): null, booleans, 64-bit integers, strings
    with their escapes, arrays, and objects printed in key order. Strings are byte strings, as in Go; a byte that is not
    part of well-formed UTF-8 is printed as an escaped replacement character. */
module Json {
  import opened Kube
  import opened Base64
  import Utf8

  type Int64 = n: int | -0x8000_0000_0000_0000 <= n < 0x8000_0000_0000_0000

  datatype Value = Null | Bool(b: bool) | Num(n: Int64) | Str(s: Bytes) | Arr(elems: seq<Value>)
                 | Obj(fields: map<Bytes, Value>)

  // --- decimals ---

  function Digit(d: int): char
    requires 0 <= d < 10
  {
    (48 + d) as char
  }

  predicate IsDigit(c: char) {
    '0' <= c <= '9'
  }

  function Digits(n: nat): (r: string)
    ensures r != [] && forall c | c in r :: IsDigit(c)
    ensures r[0] == '0' ==> n == 0 && |r| == 1
  {
    if n < 10 then [Digit(n)] else Digits(n / 10) + [Digit(n % 10)]
  }

  function Decimal(n: int): string {
    if n < 0 then "-" + Digits(-n) else Digits(n)
  }

  /** How many digits a text starts with. */
  function Run(t: string): (n: nat)
    ensures n <= |t| && (forall i | 0 <= i < n :: IsDigit(t[i]))
    ensures n < |t| ==> !IsDigit(t[n])
  {
    if t == [] || !IsDigit(t[0]) then 0 else 1 + Run(t[1..])
  }

  function Reading(digits: string): nat
    requires forall c | c in digits :: IsDigit(c)
  {
    if digits == [] then 0
    else
      var last := digits[|digits| - 1];
      assert last in digits && IsDigit(last);
      Reading(digits[..|digits| - 1]) * 10 + (last as int - 48)
  }

  lemma {:induction false} ReadingDigits(n: nat)
    ensures Reading(Digits(n)) == n
  {
    if n >= 10 {
      ReadingDigits(n / 10);
      var digits := Digits(n);
      assert digits[..|digits| - 1] == Digits(n / 10);
    } else {
      assert Digits(n)[..0] == [];
    }
  }

  /** A decimal of any size: digits, with a minus sign or without. */
  function ReadDecimal(t: string): Option<int> {
    var minus := t != [] && t[0] == '-';
    var digits := if minus then t[1..] else t;
    if digits == [] || Run(digits) < |digits| then None
    else
      assert forall c | c in digits :: IsDigit(c);
      var n: int := Reading(digits);
      Some(if minus then -n else n)
  }

  lemma {:induction false} RunAll(digits: string, rest: string)
    requires forall c | c in digits :: IsDigit(c)
    requires rest != [] ==> !IsDigit(rest[0])
    ensures Run(digits + rest) == |digits|
  {
    if digits == [] {
      assert digits + rest == rest;
    } else {
      assert digits[0] in digits && forall c | c in digits[1..] :: c in digits;
      RunAll(digits[1..], rest);
      assert (digits + rest)[1..] == digits[1..] + rest;
    }
  }

  /** Printing an integer and reading it back, for every integer. */
  lemma DecimalRoundTrip(n: int)
    ensures ReadDecimal(Decimal(n)) == Some(n)
  {
    var m: nat := if n < 0 then -n else n;
    var digits := Digits(m);
    ReadingDigits(m);
    RunAll(digits, []);
    assert digits + [] == digits;
    assert Run(digits) == |digits| && digits[0] in digits && digits[0] != '-';
    if n < 0 {
      var t := "-" + digits;
      assert t[0] == '-' && t[1..] == digits;
    }
  }

  // --- the order of keys ---

  predicate Before(a: Bytes, b: Bytes) {
    a == [] || (b != [] && (a[0] < b[0] || (a[0] == b[0] && Before(a[1..], b[1..]))))
  }

  lemma {:induction false} BeforeTotal(a: Bytes, b: Bytes)
    ensures Before(a, b) || Before(b, a)
    ensures Before(a, b) && Before(b, a) ==> a == b
  {
    if a != [] && b != [] {
      BeforeTotal(a[1..], b[1..]);
      assert a == [a[0]] + a[1..] && b == [b[0]] + b[1..];
    }
  }

  lemma {:induction false} BeforeTransitive(a: Bytes, b: Bytes, c: Bytes)
    requires Before(a, b) && Before(b, c)
    ensures Before(a, c)
  {
    if a != [] && b != [] && c != [] && a[0] == b[0] == c[0] {
      BeforeTransitive(a[1..], b[1..], c[1..]);
    }
  }

  /** The order is that of the bytes at the first difference; a prefix comes first. */
  lemma {:induction false} BeforeIff(a: Bytes, b: Bytes)
    ensures Before(a, b) <==> a <= b || exists i: nat :: DifferAt(a, b, i) && a[i] < b[i]
  {
    if a != [] && b != [] && a[0] == b[0] {
      var x, y := a[1..], b[1..];
      BeforeIff(x, y);
      assert a <= b <==> x <= y;
      forall i: nat
        ensures DifferAt(a, b, i + 1) <==> DifferAt(x, y, i)
      {
        DifferLater(a, b, i);
      }
      if Before(x, y) && !(x <= y) {
        var i: nat :| DifferAt(x, y, i) && x[i] < y[i];
        assert DifferAt(a, b, i + 1);
      }
      if i: nat :| DifferAt(a, b, i) && a[i] < b[i] {
        assert DifferAt(x, y, i - 1);
      }
    } else if a != [] && b != [] {
      assert DifferAt(a, b, 0);
      forall i: nat | i > 0
        ensures !DifferAt(a, b, i)
      {
        assert i <= |a| && i <= |b| ==> a[..i][0] == a[0] && b[..i][0] == b[0];
      }
    }
  }

  predicate DifferAt(a: Bytes, b: Bytes, i: nat) {
    i < |a| && i < |b| && a[..i] == b[..i] && a[i] != b[i]
  }

  lemma DifferLater(a: Bytes, b: Bytes, i: nat)
    requires a != [] && b != [] && a[0] == b[0]
    ensures DifferAt(a, b, i + 1) <==> DifferAt(a[1..], b[1..], i)
  {
    if i < |a| - 1 && i < |b| - 1 {
      assert a[..i + 1] == [a[0]] + a[1..][..i] && b[..i + 1] == [b[0]] + b[1..][..i];
      assert a[..i + 1][1..] == a[1..][..i] && b[..i + 1][1..] == b[1..][..i];
    }
  }

  predicate IsFirst(k: Bytes, keys: set<Bytes>) {
    k in keys && forall o | o in keys :: Before(k, o)
  }

  lemma {:induction false} FirstExists(keys: set<Bytes>)
    requires keys != {}
    ensures exists k :: IsFirst(k, keys)
    ensures forall a, b | IsFirst(a, keys) && IsFirst(b, keys) :: a == b
  {
    var x :| x in keys;
    if keys == {x} {
      BeforeTotal(x, x);
      assert IsFirst(x, keys);
    } else {
      FirstExists(keys - {x});
      var y :| IsFirst(y, keys - {x});
      BeforeTotal(x, y);
      BeforeTotal(x, x);
      var k := if Before(x, y) then x else y;
      forall o | o in keys
        ensures Before(k, o)
      {
        if o != x && Before(x, y) {
          BeforeTransitive(x, y, o);
        }
      }
      assert IsFirst(k, keys);
    }
    forall a, b | IsFirst(a, keys) && IsFirst(b, keys)
      ensures a == b
    {
      BeforeTotal(a, b);
    }
  }

  /** The keys of an object in the order they are printed. */
  function Sorted(keys: set<Bytes>): (r: seq<Bytes>)
    ensures forall k :: k in r <==> k in keys
    ensures forall i, j | 0 <= i < j < |r| :: r[i] != r[j] && Before(r[i], r[j])
  {
    if keys == {} then []
    else
      FirstExists(keys);
      var k :| IsFirst(k, keys);
      [k] + Sorted(keys - {k})
  }

  // --- printing ---

  function Hex(d: int): char
    requires 0 <= d < 16
  {
    if d < 10 then (48 + d) as char else (87 + d) as char
  }

  function Unicode(n: int): string
    requires 0 <= n < 0x10000
  {
    ['\\', 'u', Hex(n / 4096), Hex(n / 256 % 16), Hex(n / 16 % 16), Hex(n % 16)]
  }

  function EscapeChar(c: char): string {
    if c == '"' then "\\\""
    else if c == '\\' then "\\\\"
    else if c == '\n' then "\\n"
    else if c == '\r' then "\\r"
    else if c == '\t' then "\\t"
    else if c < ' ' || c == '<' || c == '>' || c == '&' || c == '\U{2028}' || c == '\U{2029}' then Unicode(c as int)
    else [c]
  }

  /** The escaped text of the first character of some bytes. */
  function EscapeFirst(s: Bytes): string
    requires s != []
  {
    var (c, width) := Utf8.DecodeChar(s);
    if c == Utf8.REPLACEMENT && width == 1 then Unicode(Utf8.REPLACEMENT as int) else EscapeChar(c)
  }

  function Escape(s: Bytes): string {
    if s == [] then [] else EscapeFirst(s) + Escape(s[Utf8.DecodeChar(s).1..])
  }

  function Quote(s: Bytes): string {
    "\"" + Escape(s) + "\""
  }

  function Print(v: Value): string
    decreases v, 1
  {
    match v
    case Null => "null"
    case Bool(b) => if b then "true" else "false"
    case Num(n) => Decimal(n)
    case Str(s) => Quote(s)
    case Arr(elems) => "[" + PrintElems(elems) + "]"
    case Obj(fields) => "{" + PrintFields(v, Sorted(fields.Keys)) + "}"
  }

  function PrintElems(elems: seq<Value>): string
    decreases elems, 0
  {
    if elems == [] then []
    else if |elems| == 1 then Print(elems[0])
    else Print(elems[0]) + "," + PrintElems(elems[1..])
  }

  function FieldText(key: Bytes, text: string): string {
    Quote(key) + ":" + text
  }

  function PrintFields(v: Value, keys: seq<Bytes>): string
    requires v.Obj? && forall k | k in keys :: k in v.fields
    decreases v, 0, |keys|
  {
    if keys == [] then []
    else
      var field := FieldText(keys[0], Print(v.fields[keys[0]]));
      if |keys| == 1 then field else field + "," + PrintFields(v, keys[1..])
  }

  // --- parsing ---

  predicate IsSpace(c: char) {
    c == ' ' || c == '\n' || c == '\r' || c == '\t'
  }

  function Skip(t: string): (r: string)
    ensures |r| <= |t|
  {
    if t != [] && IsSpace(t[0]) then Skip(t[1..]) else t
  }

  function HexValue(c: char): Option<int> {
    if '0' <= c <= '9' then Some(c as int - 48)
    else if 'a' <= c <= 'f' then Some(c as int - 87)
    else if 'A' <= c <= 'F' then Some(c as int - 55)
    else None
  }

  /** The code unit after `\u`. */
  function ReadUnit(t: string): Option<int> {
    if |t| < 4 then None
    else
      var a, b, c, d := HexValue(t[0]), HexValue(t[1]), HexValue(t[2]), HexValue(t[3]);
      if a.None? || b.None? || c.None? || d.None? then None
      else Some(a.value * 4096 + b.value * 256 + c.value * 16 + d.value)
  }

  /** One escape, after its backslash: the character and what follows. Two surrogate escapes make one character, a
      lone one reads as the replacement character. */
  function ReadEscape(t: string): (r: Option<(char, string)>)
    ensures r.Some? ==> |r.value.1| < |t|
  {
    if t == [] then None
    else
      match t[0]
      case '"' => Some(('"', t[1..]))
      case '\\' => Some(('\\', t[1..]))
      case '/' => Some(('/', t[1..]))
      case 'b' => Some((8 as char, t[1..]))
      case 'f' => Some((12 as char, t[1..]))
      case 'n' => Some(('\n', t[1..]))
      case 'r' => Some(('\r', t[1..]))
      case 't' => Some(('\t', t[1..]))
      case 'u' =>
        var u := ReadUnit(t[1..]);
        if u.None? then None
        else if 0xD800 <= u.value < 0xE000 then
          var low := if |t| >= 7 && t[5] == '\\' && t[6] == 'u' then ReadUnit(t[7..]) else None;
          if u.value < 0xDC00 && low.Some? && 0xDC00 <= low.value < 0xE000 then
            Some((((u.value - 0xD800) * 1024 + (low.value - 0xDC00) + 0x10000) as char, t[11..]))
          else Some(('\U{FFFD}', t[5..]))
        else if 0 <= u.value < 0x10000 then Some((u.value as char, t[5..]))
        else None
      case _ => None
  }

  /** The rest of a string, after its opening quote. */
  function ReadString(t: string): (r: Option<(string, string)>)
    ensures r.Some? ==> |r.value.1| < |t|
    decreases |t|
  {
    if t == [] || t[0] < ' ' then None
    else if t[0] == '"' then Some(("", t[1..]))
    else
      var one := if t[0] == '\\' then ReadEscape(t[1..]) else Some((t[0], t[1..]));
      if one.None? then None
      else
        var rest := ReadString(one.value.1);
        if rest.None? then None else Some(([one.value.0] + rest.value.0, rest.value.1))
  }

  /** What makes a number more than an integer. */
  predicate IsPoint(c: char) {
    c == '.' || c == 'e' || c == 'E'
  }

  /** The digits of an integer literal: no leading zero, no fraction, no exponent. */
  function ReadDigits(t: string): (r: Option<(nat, string)>)
    ensures r.Some? ==> |r.value.1| < |t|
  {
    var n := Run(t);
    if n == 0 || (t[0] == '0' && n > 1) || (n < |t| && IsPoint(t[n])) then None
    else
      assert forall c | c in t[..n] :: IsDigit(c);
      Some((Reading(t[..n]), t[n..]))
  }

  /** An integer literal within 64 bits; other numbers are not part of the model. */
  function ReadNumber(t: string): (r: Option<(Value, string)>)
    ensures r.Some? ==> |r.value.1| < |t|
  {
    var minus := t != [] && t[0] == '-';
    var size := ReadDigits(if minus then t[1..] else t);
    if size.None? then None
    else
      var n: int := if minus then -(size.value.0 as int) else size.value.0;
      if -0x8000_0000_0000_0000 <= n < 0x8000_0000_0000_0000 then Some((Num(n), size.value.1)) else None
  }

  function Literal(t: string, word: string, v: Value): (r: Option<(Value, string)>)
    requires word != []
    ensures r.Some? ==> |r.value.1| < |t|
  {
    if word <= t then Some((v, t[|word|..])) else None
  }

  function Collect(pairs: seq<(Bytes, Value)>): map<Bytes, Value> {
    if pairs == [] then map[]
    else
      var n := |pairs| - 1;
      Collect(pairs[..n])[pairs[n].0 := pairs[n].1]
  }

  function ReadValue(text: string): (r: Option<(Value, string)>)
    ensures r.Some? ==> |r.value.1| < |text|
    decreases |text|, 0
  {
    var t := Skip(text);
    if t == [] then None
    else if t[0] == 'n' then Literal(t, "null", Null)
    else if t[0] == 't' then Literal(t, "true", Bool(true))
    else if t[0] == 'f' then Literal(t, "false", Bool(false))
    else if t[0] == '"' then
      var s := ReadString(t[1..]);
      if s.None? then None else Some((Str(Utf8.Encode(s.value.0)), s.value.1))
    else if t[0] == '[' then ReadArr(t[1..])
    else if t[0] == '{' then ReadObj(t[1..])
    else ReadNumber(t)
  }

  /** The rest of an array, after its bracket. */
  function ReadArr(text: string): (r: Option<(Value, string)>)
    ensures r.Some? ==> |r.value.1| < |text|
    decreases |text|, 2
  {
    var t := Skip(text);
    if t != [] && t[0] == ']' then Some((Arr([]), t[1..]))
    else
      var elems := ReadElems(t);
      if elems.None? then None else Some((Arr(elems.value.0), elems.value.1))
  }

  /** The rest of an object, after its brace; the last of two equal keys wins. */
  function ReadObj(text: string): (r: Option<(Value, string)>)
    ensures r.Some? ==> |r.value.1| < |text|
    decreases |text|, 3
  {
    var t := Skip(text);
    if t != [] && t[0] == '}' then Some((Obj(map[]), t[1..]))
    else
      var pairs := ReadFields(t);
      if pairs.None? then None else Some((Obj(Collect(pairs.value.0)), pairs.value.1))
  }

  function ReadElems(t: string): (r: Option<(seq<Value>, string)>)
    ensures r.Some? ==> |r.value.1| < |t|
    decreases |t|, 1
  {
    var first := ReadValue(t);
    if first.None? then None
    else
      var u := Skip(first.value.1);
      if u == [] then None
      else if u[0] == ']' then Some(([first.value.0], u[1..]))
      else if u[0] == ',' then
        var rest := ReadElems(u[1..]);
        if rest.None? then None else Some(([first.value.0] + rest.value.0, rest.value.1))
      else None
  }

  /** One key, its colon and its value. */
  function ReadField(text: string): (r: Option<((Bytes, Value), string)>)
    ensures r.Some? ==> |r.value.1| < |text|
    decreases |text|, 1
  {
    var t := Skip(text);
    if t == [] || t[0] != '"' then None
    else
      var key := ReadString(t[1..]);
      if key.None? then None
      else
        var u := Skip(key.value.1);
        if u == [] || u[0] != ':' then None
        else
          var v := ReadValue(u[1..]);
          if v.None? then None else Some(((Utf8.Encode(key.value.0), v.value.0), v.value.1))
  }

  function ReadFields(text: string): (r: Option<(seq<(Bytes, Value)>, string)>)
    ensures r.Some? ==> |r.value.1| < |text|
    decreases |text|, 2
  {
    var field := ReadField(text);
    if field.None? then None
    else
      var t := Skip(field.value.1);
      if t == [] then None
      else if t[0] == '}' then Some(([field.value.0], t[1..]))
      else if t[0] == ',' then
        var rest := ReadFields(t[1..]);
        if rest.None? then None else Some(([field.value.0] + rest.value.0, rest.value.1))
      else None
  }

  /** A whole document. */
  function Parse(text: string): Option<Value> {
    var v := ReadValue(text);
    if v.None? || Skip(v.value.1) != [] then None else Some(v.value.0)
  }

  // --- values as they are read back ---

  function CleanString(s: Bytes): Bytes {
    Utf8.Encode(Utf8.Decode(s))
  }

  /** The value with every ill-formed byte of its strings replaced; of two keys that become equal the one printed last
      stays. */
  function Clean(v: Value): Value
    decreases v, 1
  {
    match v
    case Null => Null
    case Bool(_) => v
    case Num(_) => v
    case Str(s) => Str(CleanString(s))
    case Arr(elems) => Arr(CleanElems(elems))
    case Obj(fields) => Obj(Collect(CleanFields(v, Sorted(fields.Keys))))
  }

  function CleanElems(elems: seq<Value>): seq<Value>
    decreases elems, 0
  {
    if elems == [] then [] else [Clean(elems[0])] + CleanElems(elems[1..])
  }

  function CleanFields(v: Value, keys: seq<Bytes>): seq<(Bytes, Value)>
    requires v.Obj? && forall k | k in keys :: k in v.fields
    decreases v, 0, |keys|
  {
    if keys == [] then []
    else [(CleanString(keys[0]), Clean(v.fields[keys[0]]))] + CleanFields(v, keys[1..])
  }

  /** Every string in the value is well-formed UTF-8. */
  predicate IsText(v: Value) {
    match v
    case Null => true
    case Bool(_) => true
    case Num(_) => true
    case Str(s) => Utf8.WellFormed(s)
    case Arr(elems) => forall i | 0 <= i < |elems| :: IsText(elems[i])
    case Obj(fields) => forall k | k in fields :: Utf8.WellFormed(k) && IsText(fields[k])
  }

  lemma {:induction false} CollectMembers(pairs: seq<(Bytes, Value)>)
    ensures forall k | k in Collect(pairs) :: (k, Collect(pairs)[k]) in pairs
  {
    if pairs != [] {
      var n := |pairs| - 1;
      CollectMembers(pairs[..n]);
      assert pairs[n] in pairs && forall p | p in pairs[..n] :: p in pairs;
    }
  }

  /** What is read back is text. */
  lemma {:induction false} CleanIsText(v: Value)
    ensures IsText(Clean(v))
    decreases v, 1
  {
    match v {
      case Null =>
      case Bool(_) =>
      case Num(_) =>
      case Str(s) => Utf8.EncodeWellFormed(Utf8.Decode(s));
      case Arr(elems) => CleanElemsAreText(elems);
      case Obj(fields) =>
        CleanFieldsAreText(v, Sorted(fields.Keys));
        CollectMembers(CleanFields(v, Sorted(fields.Keys)));
    }
  }

  lemma {:induction false} CleanElemsAreText(elems: seq<Value>)
    ensures |CleanElems(elems)| == |elems|
    ensures forall i | 0 <= i < |elems| :: IsText(CleanElems(elems)[i])
    decreases elems, 0
  {
    if elems != [] {
      CleanIsText(elems[0]);
      CleanElemsAreText(elems[1..]);
    }
  }

  lemma {:induction false} CleanFieldsAreText(v: Value, keys: seq<Bytes>)
    requires v.Obj? && forall k | k in keys :: k in v.fields
    ensures forall p | p in CleanFields(v, keys) :: Utf8.WellFormed(p.0) && IsText(p.1)
    decreases v, 0, |keys|
  {
    if keys != [] {
      Utf8.EncodeWellFormed(Utf8.Decode(keys[0]));
      CleanIsText(v.fields[keys[0]]);
      CleanFieldsAreText(v, keys[1..]);
    }
  }

  lemma {:induction false} TextIsClean(v: Value)
    requires IsText(v)
    ensures Clean(v) == v
    decreases v, 1
  {
    match v {
      case Null =>
      case Bool(_) =>
      case Num(_) =>
      case Str(s) => Utf8.EncodeDecodeIff(s);
      case Arr(elems) => TextElemsAreClean(elems);
      case Obj(fields) =>
        TextFieldsAreClean(v, Sorted(fields.Keys));
        CollectPairs(fields, Sorted(fields.Keys));
    }
  }

  lemma {:induction false} TextElemsAreClean(elems: seq<Value>)
    requires forall i | 0 <= i < |elems| :: IsText(elems[i])
    ensures CleanElems(elems) == elems
    decreases elems, 0
  {
    if elems != [] {
      TextIsClean(elems[0]);
      TextElemsAreClean(elems[1..]);
    }
  }

  lemma {:induction false} TextFieldsAreClean(v: Value, keys: seq<Bytes>)
    requires v.Obj? && IsText(v) && forall k | k in keys :: k in v.fields
    ensures CleanFields(v, keys) == Pairs(v.fields, keys)
    decreases v, 0, |keys|
  {
    if keys != [] {
      var key := keys[0];
      Utf8.EncodeDecodeIff(key);
      TextIsClean(v.fields[key]);
      TextFieldsAreClean(v, keys[1..]);
      assert Pairs(v.fields, keys) == [(key, v.fields[key])] + Pairs(v.fields, keys[1..]);
    }
  }

  function Pairs(fields: map<Bytes, Value>, keys: seq<Bytes>): seq<(Bytes, Value)>
    requires forall k | k in keys :: k in fields
  {
    seq(|keys|, i requires 0 <= i < |keys| => (keys[i], fields[keys[i]]))
  }

  lemma {:induction false} CollectPrefix(fields: map<Bytes, Value>, keys: seq<Bytes>, n: nat)
    requires n <= |keys| && forall k | k in keys :: k in fields
    ensures Collect(Pairs(fields, keys)[..n]) == map k | k in keys[..n] && k in fields :: fields[k]
  {
    if n > 0 {
      CollectPrefix(fields, keys, n - 1);
      assert Pairs(fields, keys)[..n][..n - 1] == Pairs(fields, keys)[..n - 1];
      assert keys[..n] == keys[..n - 1] + [keys[n - 1]];
    }
  }

  lemma CollectPairs(fields: map<Bytes, Value>, keys: seq<Bytes>)
    requires forall k :: k in keys <==> k in fields
    ensures Collect(Pairs(fields, keys)) == fields
  {
    CollectPrefix(fields, keys, |keys|);
    assert Pairs(fields, keys)[..|keys|] == Pairs(fields, keys);
    assert keys[..|keys|] == keys;
  }

  /** A value is read back as itself exactly when its strings are text. */
  lemma CleanIff(v: Value)
    ensures Clean(v) == v <==> IsText(v)
  {
    CleanIsText(v);
    if IsText(v) {
      TextIsClean(v);
    }
  }

  // --- the round trip ---

  lemma HexRead(d: int)
    requires 0 <= d < 16
    ensures HexValue(Hex(d)) == Some(d)
  {
  }

  lemma HexSum(n: int)
    requires 0 <= n < 0x10000
    ensures n == n / 4096 * 4096 + n / 256 % 16 * 256 + n / 16 % 16 * 16 + n % 16
  {
    var a := n / 16;
    var b := a / 16;
    assert n / 256 == b && n / 4096 == b / 16;
    assert n == 16 * a + n % 16 && a == 16 * b + a % 16 && b == 16 * (b / 16) + b % 16;
  }

  lemma ReadUnitUnicode(n: int, rest: string)
    requires 0 <= n < 0x10000
    ensures ReadUnit(Unicode(n)[2..] + rest) == Some(n)
  {
    var t := Unicode(n)[2..] + rest;
    HexRead(n / 4096);
    HexRead(n / 256 % 16);
    HexRead(n / 16 % 16);
    HexRead(n % 16);
    assert t[0] == Hex(n / 4096) && t[1] == Hex(n / 256 % 16) && t[2] == Hex(n / 16 % 16) && t[3] == Hex(n % 16);
    HexSum(n);
  }

  lemma ReadEscaped(c: char, rest: string)
    requires |EscapeChar(c)| > 1
    ensures EscapeChar(c)[0] == '\\'
    ensures ReadEscape(EscapeChar(c)[1..] + rest) == Some((c, rest))
  {
    var t := EscapeChar(c)[1..] + rest;
    if |EscapeChar(c)| == 6 {
      ReadUnitUnicode(c as int, rest);
      assert t[1..] == Unicode(c as int)[2..] + rest;
      assert t[5..] == rest;
    } else {
      assert t[1..] == rest;
    }
  }

  lemma ReadStringStep(c: char, tail: string)
    requires ReadString(tail).Some?
    ensures ReadString(EscapeChar(c) + tail) == Some(([c] + ReadString(tail).value.0, ReadString(tail).value.1))
  {
    var t := EscapeChar(c) + tail;
    if |EscapeChar(c)| > 1 {
      ReadEscaped(c, tail);
      assert t[1..] == EscapeChar(c)[1..] + tail;
    } else {
      assert t[1..] == tail;
    }
  }

  lemma ReadStringFirst(s: Bytes, tail: string)
    requires s != [] && ReadString(tail).Some?
    ensures ReadString(EscapeFirst(s) + tail) ==
            Some(([Utf8.DecodeChar(s).0] + ReadString(tail).value.0, ReadString(tail).value.1))
  {
    var (c, width) := Utf8.DecodeChar(s);
    if c == Utf8.REPLACEMENT && width == 1 {
      ReadReplacement(tail);
    } else {
      ReadStringStep(c, tail);
    }
  }

  lemma ReadReplacement(tail: string)
    requires ReadString(tail).Some?
    ensures ReadString(Unicode(Utf8.REPLACEMENT as int) + tail) ==
            Some(([Utf8.REPLACEMENT] + ReadString(tail).value.0, ReadString(tail).value.1))
  {
    var n := Utf8.REPLACEMENT as int;
    var t := Unicode(n) + tail;
    ReadUnitUnicode(n, tail);
    assert t[1..][1..] == Unicode(n)[2..] + tail;
    assert t[1..][5..] == tail;
  }

  lemma {:induction false} ReadStringQuote(s: Bytes, rest: string)
    ensures ReadString(Escape(s) + "\"" + rest) == Some((Utf8.Decode(s), rest))
    decreases |s|
  {
    if s == [] {
      assert (Escape(s) + "\"" + rest)[1..] == rest;
    } else {
      var next := s[Utf8.DecodeChar(s).1..];
      var tail := Escape(next) + "\"" + rest;
      ReadStringQuote(next, rest);
      assert Escape(s) + "\"" + rest == EscapeFirst(s) + tail;
      ReadStringFirst(s, tail);
    }
  }

  // --- texts other programs write ---

  /** The escapes of section 7 of RFC 8259 that have a letter of their own. */
  lemma ShortEscapes(rest: string)
    ensures ReadEscape("\"" + rest) == Some(('"', rest)) && ReadEscape("\\" + rest) == Some(('\\', rest))
    ensures ReadEscape("/" + rest) == Some(('/', rest))
    ensures ReadEscape("b" + rest) == Some((8 as char, rest)) && ReadEscape("f" + rest) == Some((12 as char, rest))
    ensures ReadEscape("n" + rest) == Some(('\n', rest)) && ReadEscape("r" + rest) == Some(('\r', rest))
    ensures ReadEscape("t" + rest) == Some(('\t', rest))
  {
    assert ("\"" + rest)[1..] == ("\\" + rest)[1..] == ("/" + rest)[1..] == ("b" + rest)[1..] == rest;
    assert ("f" + rest)[1..] == ("n" + rest)[1..] == ("r" + rest)[1..] == ("t" + rest)[1..] == rest;
  }

  /** Every character of the first plane outside the surrogates is read from its four hex digits. */
  lemma PlainUnit(n: int, rest: string)
    requires 0 <= n < 0xD800 || 0xE000 <= n < 0x10000
    ensures ReadEscape(Unicode(n)[1..] + rest) == Some((n as char, rest))
  {
    var t := Unicode(n)[1..] + rest;
    ReadUnitUnicode(n, rest);
    assert t[1..] == Unicode(n)[2..] + rest && t[5..] == rest;
  }

  /** The two surrogates of a character beyond the first plane (section 7 of RFC 8259) are read as that character. */
  lemma SurrogatePair(c: char, rest: string)
    requires c as int >= 0x10000
    ensures var n := c as int - 0x10000;
            ReadEscape(Unicode(0xD800 + n / 1024)[1..] + Unicode(0xDC00 + n % 1024) + rest) == Some((c, rest))
  {
    var n := c as int - 0x10000;
    var high, low := 0xD800 + n / 1024, 0xDC00 + n % 1024;
    PairText(high, low, rest);
    assert n / 1024 * 1024 + n % 1024 == n;
    ReadPair(Unicode(high)[1..] + Unicode(low) + rest, high, low, c);
  }

  lemma ReadPair(t: string, high: int, low: int, c: char)
    requires |t| >= 11 && t[0] == 'u' && t[5] == '\\' && t[6] == 'u'
    requires ReadUnit(t[1..]) == Some(high) && 0xD800 <= high < 0xDC00
    requires ReadUnit(t[7..]) == Some(low) && 0xDC00 <= low < 0xE000
    requires (high - 0xD800) * 1024 + (low - 0xDC00) + 0x10000 == c as int
    ensures ReadEscape(t) == Some((c, t[11..]))
  {
  }

  lemma PairText(high: int, low: int, rest: string)
    requires 0 <= high < 0x10000 && 0 <= low < 0x10000
    ensures var t := Unicode(high)[1..] + Unicode(low) + rest;
            && |t| >= 11 && t[0] == 'u' && t[5] == '\\' && t[6] == 'u' && t[11..] == rest
            && ReadUnit(t[1..]) == Some(high) && ReadUnit(t[7..]) == Some(low)
  {
    var t := Unicode(high)[1..] + Unicode(low) + rest;
    ReadUnitUnicode(high, Unicode(low) + rest);
    ReadUnitUnicode(low, rest);
    assert t[1..] == Unicode(high)[2..] + (Unicode(low) + rest);
    assert t[7..] == Unicode(low)[2..] + rest;
  }

  /** A high surrogate that no low one follows reads as the replacement character, and what follows is read on. */
  lemma LoneSurrogate(n: int, rest: string)
    requires 0xD800 <= n < 0xE000
    requires |rest| < 2 || rest[0] != '\\' || rest[1] != 'u'
    ensures ReadEscape(Unicode(n)[1..] + rest) == Some(('\U{FFFD}', rest))
  {
    var t := Unicode(n)[1..] + rest;
    ReadUnitUnicode(n, rest);
    assert t[1..] == Unicode(n)[2..] + rest && t[5..] == rest;
    assert |rest| >= 2 ==> t[5] == rest[0] && t[6] == rest[1];
  }

  /** A blank before a value, a key or a closing bracket does not matter. */
  lemma BlankAhead(blank: char, t: string)
    requires blank == ' ' || blank == '\n' || blank == '\r' || blank == '\t'
    ensures Skip([blank] + t) == Skip(t) && ReadValue([blank] + t) == ReadValue(t)
            && ReadField([blank] + t) == ReadField(t)
  {
    assert ([blank] + t)[1..] == t;
  }

  /** A blank after an element, a key, a field or the whole text does not matter. */
  lemma BlankAfter(blank: char, t: string, u: string, v: Value, rest: string)
    requires blank == ' ' || blank == '\n' || blank == '\r' || blank == '\t'
    requires ReadValue(t) == Some((v, [blank] + rest)) && ReadValue(u) == Some((v, rest))
    ensures ReadElems(t) == ReadElems(u) && Parse(t) == Parse(u)
  {
    BlankAhead(blank, rest);
  }

  lemma BlankAfterField(blank: char, t: string, u: string, field: (Bytes, Value), rest: string)
    requires blank == ' ' || blank == '\n' || blank == '\r' || blank == '\t'
    requires ReadField(t) == Some((field, [blank] + rest)) && ReadField(u) == Some((field, rest))
    ensures ReadFields(t) == ReadFields(u)
  {
    BlankAhead(blank, rest);
  }

  lemma BlankAfterKey(blank: char, t: string, u: string, key: string, rest: string)
    requires blank == ' ' || blank == '\n' || blank == '\r' || blank == '\t'
    requires ReadString(t) == Some((key, [blank] + rest)) && ReadString(u) == Some((key, rest))
    ensures ReadField("\"" + t) == ReadField("\"" + u)
  {
    BlankAhead(blank, rest);
    assert ("\"" + t)[1..] == t && ("\"" + u)[1..] == u;
  }

  lemma BlankInBrackets(blank: char, t: string)
    requires blank == ' ' || blank == '\n' || blank == '\r' || blank == '\t'
    ensures ReadArr([blank] + t) == ReadArr(t) && ReadObj([blank] + t) == ReadObj(t)
  {
    BlankAhead(blank, t);
  }

  // --- what is refused ---

  /** Text after a value is refused, blanks excepted. */
  lemma TrailingTextRefused(v: Value, rest: string)
    requires Ends(rest) && Skip(rest) != []
    ensures Parse(Print(v) + rest).None?
  {
    ReadPrinted(v, rest);
  }

  /** A control character as it is, an unknown escape, or a missing quote is refused in a string. */
  lemma BadStringsRefused(c: char, t: string)
    ensures c < ' ' ==> ReadString([c] + t).None?
    ensures ReadString("").None?
    ensures c !in "\"\\/bfnrtu" ==> ReadEscape([c] + t).None?
  {
  }

  /** Anything but a comma or the closing bracket after an element or a field is refused, as is anything but a colon
      after a key, and a key that is no string. */
  lemma BadSeparatorsRefused(t: string, v: Value, field: (Bytes, Value), key: string, rest: string)
    ensures ReadValue(t) == Some((v, rest)) && (Skip(rest) == [] || Skip(rest)[0] !in "],") ==> ReadElems(t).None?
    ensures ReadField(t) == Some((field, rest)) && (Skip(rest) == [] || Skip(rest)[0] !in "},") ==> ReadFields(t).None?
    ensures ReadString(t) == Some((key, rest)) && (Skip(rest) == [] || Skip(rest)[0] != ':') ==>
              ReadField("\"" + t).None?
    ensures Skip(t) == [] || Skip(t)[0] != '"' ==> ReadField(t).None?
  {
    assert ("\"" + t)[1..] == t;
  }

  /** No value begins with any other character. */
  lemma BadStartRefused(t: string)
    requires Skip(t) == [] || (Skip(t)[0] !in "ntf\"[{-" && !IsDigit(Skip(t)[0]))
    ensures ReadValue(t).None?
  {
  }

  /** A leading zero, a fraction, or no digit at all is refused in an integer. */
  lemma BadNumbersRefused(c: char, t: string)
    ensures IsDigit(c) ==> ReadDigits("0" + [c] + t).None?
    ensures ReadDigits("").None? && (!IsDigit(c) ==> ReadDigits([c] + t).None?)
    ensures c == '.' || c == 'e' || c == 'E' ==> ReadDigits("1" + [c] + t).None?
  {
    var one := "1" + [c] + t;
    assert one[1..] == [c] + t;
    if IsDigit(c) {
      var u := "0" + [c] + t;
      assert u[0] == '0' && u[1..][0] == c;
      assert Run(u) == 1 + Run(u[1..]) && Run(u[1..]) >= 1;
    }
  }

  /** Hex digits of either case. */
  lemma HexCases(d: int)
    requires 10 <= d < 16
    ensures HexValue(('a' as int + d - 10) as char) == HexValue(('A' as int + d - 10) as char) == Some(d)
  {
  }

  /** Of two equal keys the last one wins. */
  lemma {:induction false} LastKeyWins(pairs: seq<(Bytes, Value)>, i: nat)
    requires i < |pairs| && forall j | i < j < |pairs| :: pairs[j].0 != pairs[i].0
    ensures pairs[i].0 in Collect(pairs) && Collect(pairs)[pairs[i].0] == pairs[i].1
  {
    var n := |pairs| - 1;
    if i < n {
      assert pairs[..n][i] == pairs[i];
      LastKeyWins(pairs[..n], i);
    }
  }

  // --- what printed text looks like ---

  /** A character that may stand in printed text as it is: no control character, none that matters to HTML, no line or
      paragraph separator. */
  predicate Plain(c: char) {
    c >= ' ' && c != '<' && c != '>' && c != '&' && c != '\U{2028}' && c != '\U{2029}'
  }

  predicate AllPlain(t: string) {
    forall c | c in t :: Plain(c)
  }

  lemma {:induction false} DigitsPlain(n: nat)
    ensures AllPlain(Digits(n))
  {
    assert forall c | c in Digits(n) :: IsDigit(c);
  }

  /** The escapes the encoder chooses: a letter for quote, backslash and the common controls, four small hex digits for
      the rest. */
  lemma ChosenEscapes()
    ensures EscapeChar('"') == "\\\"" && EscapeChar('\\') == "\\\\"
    ensures EscapeChar('\n') == "\\n" && EscapeChar('\r') == "\\r" && EscapeChar('\t') == "\\t"
    ensures EscapeChar('<') == "\\u003c" && EscapeChar('>') == "\\u003e" && EscapeChar('&') == "\\u0026"
    ensures EscapeChar('\U{2028}') == "\\u2028" && EscapeChar('\U{2029}') == "\\u2029"
    ensures EscapeChar('\U{8}') == "\\u0008" && EscapeChar('\U{1F}') == "\\u001f"
    ensures EscapeChar('/') == "/" && EscapeChar('\U{7F}') == "\U{7F}" && EscapeFirst([0xFF]) == "\\ufffd"
  {
  }

  lemma UnitPlain(n: int)
    requires 0 <= n < 0x10000
    ensures AllPlain(Unicode(n))
  {
  }

  lemma EscapeCharPlain(c: char)
    ensures AllPlain(EscapeChar(c))
  {
    if c as int < 0x10000 {
      UnitPlain(c as int);
    }
  }

  lemma {:induction false} EscapePlain(s: Bytes)
    ensures AllPlain(Escape(s))
    decreases |s|
  {
    if s != [] {
      EscapePlain(s[Utf8.DecodeChar(s).1..]);
      UnitPlain(Utf8.REPLACEMENT as int);
      EscapeCharPlain(Utf8.DecodeChar(s).0);
    }
  }

  /** Printed text is plain, whatever the strings hold. */
  lemma {:induction false} PrintPlain(v: Value)
    ensures AllPlain(Print(v))
    decreases v, 1
  {
    match v {
      case Null =>
      case Bool(_) =>
      case Num(n) => DigitsPlain(if n < 0 then -(n as int) else n);
      case Str(s) => EscapePlain(s);
      case Arr(elems) => ElemsPlain(elems);
      case Obj(fields) => FieldsPlain(v, Sorted(fields.Keys));
    }
  }

  lemma {:induction false} ElemsPlain(elems: seq<Value>)
    ensures AllPlain(PrintElems(elems))
    decreases elems, 0
  {
    if elems != [] {
      PrintPlain(elems[0]);
      ElemsPlain(elems[1..]);
    }
  }

  lemma {:induction false} FieldsPlain(v: Value, keys: seq<Bytes>)
    requires v.Obj? && forall k | k in keys :: k in v.fields
    ensures AllPlain(PrintFields(v, keys))
    decreases v, 0, |keys|
  {
    if keys != [] {
      EscapePlain(keys[0]);
      PrintPlain(v.fields[keys[0]]);
      FieldsPlain(v, keys[1..]);
    }
  }

  /** What may follow a printed value. */
  predicate Ends(rest: string) {
    rest == [] || rest[0] == ',' || rest[0] == ']' || rest[0] == '}' || rest[0] == '\n'
  }

  lemma ReadPrintedDigits(m: nat, rest: string)
    requires Ends(rest)
    ensures ReadDigits(Digits(m) + rest) == Some((m, rest))
    ensures (Digits(m) + rest)[0] != '-'
  {
    var digits := Digits(m);
    RunAll(digits, rest);
    ReadingDigits(m);
    assert digits[0] in digits;
    assert (digits + rest)[..|digits|] == digits && (digits + rest)[|digits|..] == rest;
  }

  lemma ReadNegative(m: nat, rest: string)
    requires Ends(rest) && m <= 0x8000_0000_0000_0000
    ensures ReadNumber("-" + Digits(m) + rest) == Some((Num(-(m as int)), rest))
  {
    ReadPrintedDigits(m, rest);
    Signed(Digits(m), rest);
  }

  lemma Signed(digits: string, rest: string)
    ensures ("-" + digits + rest)[0] == '-' && ("-" + digits + rest)[1..] == digits + rest
  {
  }

  lemma ReadNumberDecimal(n: Int64, rest: string)
    requires Ends(rest)
    ensures ReadNumber(Decimal(n) + rest) == Some((Num(n), rest))
  {
    if n < 0 {
      ReadNegative(-(n as int), rest);
    } else {
      ReadPrintedDigits(n, rest);
    }
  }

  /** A printed value starts with a character that says what it is. */
  lemma PrintStarts(v: Value)
    ensures Print(v) != []
    ensures var c := Print(v)[0];
            match v
            case Null => c == 'n'
            case Bool(b) => c == 't' || c == 'f'
            case Num(_) => c == '-' || IsDigit(c)
            case Str(_) => c == '"'
            case Arr(_) => c == '['
            case Obj(_) => c == '{'
  {
    if v.Num? {
      var digits := Digits(if v.n < 0 then -(v.n as int) else v.n);
      assert digits[0] in digits;
    }
  }

  /** Which reader takes a text, by its first character. */
  lemma Dispatch(t: string)
    requires t != []
    ensures !IsSpace(t[0]) ==> Skip(t) == t
    ensures t[0] == '"' && ReadString(t[1..]).Some?
      ==> ReadValue(t) == Some((Str(Utf8.Encode(ReadString(t[1..]).value.0)), ReadString(t[1..]).value.1))
    ensures t[0] == '[' ==> ReadValue(t) == ReadArr(t[1..])
    ensures t[0] == '{' ==> ReadValue(t) == ReadObj(t[1..])
    ensures t[0] == '-' || IsDigit(t[0]) ==> ReadValue(t) == ReadNumber(t)
  {
  }

  lemma ReadWord(word: string, rest: string)
    requires word == "null" || word == "true" || word == "false"
    ensures ReadValue(word + rest) == Some((if word == "null" then Null else Bool(word == "true"), rest))
  {
    assert (word + rest)[|word|..] == rest;
  }

  lemma ReadQuoted(s: Bytes, rest: string)
    ensures var t := Quote(s) + rest;
            t != [] && t[0] == '"' && ReadString(t[1..]) == Some((Utf8.Decode(s), rest))
  {
    ReadStringQuote(s, rest);
    QuoteParts(Escape(s), rest);
  }

  lemma QuoteParts(inner: string, rest: string)
    ensures ("\"" + inner + "\"" + rest)[0] == '"'
    ensures ("\"" + inner + "\"" + rest)[1..] == inner + "\"" + rest
  {
  }

  lemma {:induction false} ReadPrinted(v: Value, rest: string)
    requires Ends(rest)
    ensures ReadValue(Print(v) + rest) == Some((Clean(v), rest))
    decreases v, 1
  {
    match v {
      case Null => ReadWord("null", rest);
      case Bool(b) => ReadWord(if b then "true" else "false", rest);
      case Num(n) =>
        ReadNumberDecimal(n, rest);
        PrintStarts(v);
        Dispatch(Decimal(n) + rest);
      case Str(s) =>
        ReadQuoted(s, rest);
        Dispatch(Quote(s) + rest);
      case Arr(elems) =>
        ReadPrintedArr(elems, rest);
        OpenBracket("[", PrintElems(elems) + ("]" + rest));
        Regroup("[", PrintElems(elems), "]", rest);
      case Obj(fields) =>
        var inner := PrintFields(v, Sorted(fields.Keys));
        ReadPrintedObj(v, rest);
        OpenBracket("{", inner + ("}" + rest));
        Regroup("{", inner, "}", rest);
    }
  }

  lemma OpenBracket(open: string, inner: string)
    requires open == "[" || open == "{"
    ensures ReadValue(open + inner) == if open == "[" then ReadArr(inner) else ReadObj(inner)
  {
    Dispatch(open + inner);
    assert (open + inner)[1..] == inner;
  }

  lemma {:induction false} ReadPrintedArr(elems: seq<Value>, rest: string)
    ensures ReadArr(PrintElems(elems) + ("]" + rest)) == Some((Arr(CleanElems(elems)), rest))
    decreases elems, 1
  {
    var inner := PrintElems(elems) + ("]" + rest);
    if elems == [] {
      assert inner == "]" + rest && inner[1..] == rest;
    } else {
      PrintStarts(elems[0]);
      ReadPrintedElems(elems, rest);
      assert inner[0] == Print(elems[0])[0];
      assert Skip(inner) == inner;
    }
  }

  lemma ReadObjOf(t: string)
    requires t != [] && t[0] == '"'
    ensures ReadFields(t).Some? ==> ReadObj(t) == Some((Obj(Collect(ReadFields(t).value.0)), ReadFields(t).value.1))
  {
    Dispatch(t);
  }

  lemma {:induction false} ReadPrintedObj(v: Value, rest: string)
    requires v.Obj?
    ensures ReadObj(PrintFields(v, Sorted(v.fields.Keys)) + ("}" + rest)) == Some((Clean(v), rest))
    decreases v, 0
  {
    var keys := Sorted(v.fields.Keys);
    var inner := PrintFields(v, keys) + ("}" + rest);
    if keys == [] {
      assert v.fields.Keys == {};
      assert Clean(v) == Obj(map[]) && PrintFields(v, []) == [];
      assert inner == "}" + rest && inner[0] == '}' && inner[1..] == rest;
      Dispatch(inner);
    } else {
      FieldsStart(v, keys);
      ReadPrintedFields(v, keys, rest);
      ReadObjOf(inner);
    }
  }

  lemma {:induction false} ReadPrintedElems(elems: seq<Value>, rest: string)
    requires elems != []
    ensures ReadElems(PrintElems(elems) + ("]" + rest)) == Some((CleanElems(elems), rest))
    decreases elems, 0
  {
    var t := PrintElems(elems) + ("]" + rest);
    if |elems| == 1 {
      ReadPrinted(elems[0], "]" + rest);
      assert CleanElems(elems) == [Clean(elems[0])] && ("]" + rest)[1..] == rest;
    } else {
      var more := "," + (PrintElems(elems[1..]) + ("]" + rest));
      assert t == Print(elems[0]) + more;
      ReadPrinted(elems[0], more);
      ReadPrintedElems(elems[1..], rest);
      assert more[1..] == PrintElems(elems[1..]) + ("]" + rest);
      assert CleanElems(elems) == [Clean(elems[0])] + CleanElems(elems[1..]);
    }
  }

  lemma ReadFieldText(key: Bytes, text: string, value: Value, more: string)
    requires ReadValue(text + more) == Some((value, more))
    ensures ReadField(FieldText(key, text) + more) == Some(((CleanString(key), value), more))
  {
    var after := ":" + (text + more);
    ReadQuoted(key, after);
    Regroup(Quote(key), ":", text, more);
    assert after[1..] == text + more;
    ReadFieldOf(Quote(key) + after, Utf8.Decode(key), after, value, more);
  }

  lemma Regroup(a: string, b: string, c: string, d: string)
    ensures a + b + c + d == a + (b + (c + d))
  {
  }

  lemma ReadFieldOf(t: string, key: string, after: string, value: Value, more: string)
    requires t != [] && t[0] == '"' && ReadString(t[1..]) == Some((key, after))
    requires after != [] && after[0] == ':' && ReadValue(after[1..]) == Some((value, more))
    ensures ReadField(t) == Some(((Utf8.Encode(key), value), more))
  {
    assert Skip(t) == t && Skip(after) == after;
  }

  lemma ReadFieldsLast(t: string, field: (Bytes, Value), rest: string)
    requires ReadField(t) == Some((field, "}" + rest))
    ensures ReadFields(t) == Some(([field], rest))
  {
    Dispatch("}" + rest);
    assert ("}" + rest)[1..] == rest;
  }

  lemma ReadFieldsMore(t: string, field: (Bytes, Value), next: string)
    requires ReadField(t) == Some((field, "," + next)) && ReadFields(next).Some?
    ensures ReadFields(t) == Some(([field] + ReadFields(next).value.0, ReadFields(next).value.1))
  {
    Dispatch("," + next);
    assert ("," + next)[1..] == next;
  }

  lemma FieldsStart(v: Value, keys: seq<Bytes>)
    requires v.Obj? && keys != [] && forall k | k in keys :: k in v.fields
    ensures PrintFields(v, keys) != [] && PrintFields(v, keys)[0] == '"'
  {
    var field := FieldText(keys[0], Print(v.fields[keys[0]]));
    assert field[0] == '"' && field <= PrintFields(v, keys);
  }

  lemma FieldsMore(v: Value, keys: seq<Bytes>)
    requires v.Obj? && |keys| > 1 && forall k | k in keys :: k in v.fields
    ensures PrintFields(v, keys) == FieldText(keys[0], Print(v.fields[keys[0]])) + "," + PrintFields(v, keys[1..])
    ensures CleanFields(v, keys) == [(CleanString(keys[0]), Clean(v.fields[keys[0]]))] + CleanFields(v, keys[1..])
  {
  }

  lemma FieldsOne(v: Value, keys: seq<Bytes>)
    requires v.Obj? && |keys| == 1 && keys[0] in v.fields
    ensures PrintFields(v, keys) == FieldText(keys[0], Print(v.fields[keys[0]]))
    ensures CleanFields(v, keys) == [(CleanString(keys[0]), Clean(v.fields[keys[0]]))]
  {
  }

  lemma {:induction false} ReadPrintedFields(v: Value, keys: seq<Bytes>, rest: string)
    requires v.Obj? && keys != [] && forall k | k in keys :: k in v.fields
    ensures ReadFields(PrintFields(v, keys) + ("}" + rest)) == Some((CleanFields(v, keys), rest))
    decreases v, 0, |keys|
  {
    var key, value := keys[0], v.fields[keys[0]];
    if |keys| == 1 {
      ReadPrinted(value, "}" + rest);
      ReadFieldText(key, Print(value), Clean(value), "}" + rest);
      ReadFieldsLast(FieldText(key, Print(value)) + ("}" + rest), (CleanString(key), Clean(value)), rest);
      FieldsOne(v, keys);
    } else {
      var others := PrintFields(v, keys[1..]);
      ReadPrinted(value, "," + (others + ("}" + rest)));
      ReadPrintedFields(v, keys[1..], rest);
      ReadFieldThenMore(key, Print(value), Clean(value), others, CleanFields(v, keys[1..]), rest);
      FieldsMore(v, keys);
    }
  }

  lemma ReadFieldThenMore(key: Bytes, text: string, value: Value, others: string, pairs: seq<(Bytes, Value)>,
                          rest: string)
    requires ReadValue(text + ("," + (others + ("}" + rest)))) == Some((value, "," + (others + ("}" + rest))))
    requires ReadFields(others + ("}" + rest)) == Some((pairs, rest))
    ensures ReadFields(FieldText(key, text) + "," + others + ("}" + rest)) ==
            Some(([(CleanString(key), value)] + pairs, rest))
  {
    var field, next := FieldText(key, text), others + ("}" + rest);
    ReadFieldText(key, text, value, "," + next);
    ReadFieldsMore(field + ("," + next), (CleanString(key), value), next);
    Regroup(field, ",", others, "}" + rest);
  }

  /** Reading what was printed, with or without the newline Go's encoder adds, gives the value with its ill-formed
      bytes replaced. */
  lemma ParsePrint(v: Value)
    ensures Parse(Print(v)) == Some(Clean(v))
    ensures Parse(Print(v) + "\n") == Some(Clean(v))
  {
    ReadPrinted(v, []);
    assert Print(v) + [] == Print(v);
    ReadPrinted(v, "\n");
    assert Skip("\n") == Skip("\n"[1..]);
  }
}
