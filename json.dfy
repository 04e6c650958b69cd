/**
 * The JSON form of a `TemperatureReading` (`#[derive(Serialize, Deserialize)]`
 * on a struct with the fields `humidity` and `temperature`, both `i32`): a
 * decoder that accepts a subset of what `serde_json::from_str` accepts for
 * that schema (an object whose keys are the two field names, in either
 * order, with integer values, whitespace anywhere between tokens; README.md
 * lists the differences), and the compact
 * encoding `serde_json::to_string` produces, in field declaration order.
 */
module Json {
  import opened Wrappers

  const MinI32: int := -0x8000_0000
  const MaxI32: int := 0x7FFF_FFFF

  /** Rust's `i32`. */
  newtype i32 = x: int | MinI32 <= x <= MaxI32

  datatype TemperatureReading = TemperatureReading(humidity: i32, temperature: i32)

  /** Why decoding failed, after the kinds of error `serde_json` reports. */
  datatype DecodeError =
    | EofWhileParsingValue
    | EofWhileParsingObject
    | EofWhileParsingString
    | ExpectedValue
    | ExpectedColon
    | ExpectedCommaOrEnd
    | KeyMustBeAString
    | TrailingComma
    | InvalidNumber
    | InvalidType
    | NumberOutOfRange
    | ControlCharacterInString
    | UnsupportedEscape
    | UnknownField(name: string)
    | DuplicateField(name: string)
    | MissingField(name: string)
    | TrailingCharacters

  /** The text of an error, as printed by the caller. */
  function Message(e: DecodeError): (m: string)
    ensures |m| > 0
  {
    match e
    case EofWhileParsingValue => "EOF while parsing a value"
    case EofWhileParsingObject => "EOF while parsing an object"
    case EofWhileParsingString => "EOF while parsing a string"
    case ExpectedValue => "expected value"
    case ExpectedColon => "expected `:`"
    case ExpectedCommaOrEnd => "expected `,` or `}`"
    case KeyMustBeAString => "key must be a string"
    case TrailingComma => "trailing comma"
    case InvalidNumber => "invalid number"
    case InvalidType => "invalid type"
    case NumberOutOfRange => "invalid value: integer out of range for i32"
    case ControlCharacterInString => "control character found while parsing a string"
    case UnsupportedEscape => "escape sequence in key"
    case UnknownField(name) => "unknown field `" + name + "`"
    case DuplicateField(name) => "duplicate field `" + name + "`"
    case MissingField(name) => "missing field `" + name + "`"
    case TrailingCharacters => "trailing characters"
  }

  /** A parsed value and the input that follows it. */
  datatype Parsed<T> = Parsed(value: T, rest: string)

  predicate IsSuffix(r: string, s: string) {
    |r| <= |s| && r == s[|s| - |r|..]
  }

  lemma {:induction false} SuffixTransitive(a: string, b: string, c: string)
    requires IsSuffix(a, b) && IsSuffix(b, c)
    ensures IsSuffix(a, c)
  {
    assert c[|c| - |b|..][|b| - |a|..] == c[|c| - |a|..];
  }

  // ---------------------------------------------------------------------
  // Lexical pieces

  predicate IsWs(c: char) {
    c == ' ' || c == '\t' || c == '\n' || c == '\r'
  }

  predicate IsDigit(c: char) {
    '0' <= c <= '9'
  }

  predicate AllDigits(s: string) {
    forall k :: 0 <= k < |s| ==> IsDigit(s[k])
  }

  /** A character that may stand unescaped inside a JSON string. */
  predicate IsPlain(c: char) {
    c != '"' && c != '\\' && c >= ' '
  }

  predicate AllPlain(s: string) {
    forall k :: 0 <= k < |s| ==> IsPlain(s[k])
  }

  /** Skips JSON whitespace. */
  function SkipWs(s: string): (r: string)
    ensures IsSuffix(r, s)
    ensures r == [] || !IsWs(r[0])
  {
    if |s| > 0 && IsWs(s[0]) then SkipWs(s[1..]) else s
  }

  /** The length of the run of digits at the front of `s`. */
  function DigitRun(s: string): (n: nat)
    ensures n <= |s|
  {
    if |s| > 0 && IsDigit(s[0]) then 1 + DigitRun(s[1..]) else 0
  }

  /** The length of the run of plain string characters at the front of `s`. */
  function PlainRun(s: string): (n: nat)
    ensures n <= |s|
  {
    if |s| > 0 && IsPlain(s[0]) then 1 + PlainRun(s[1..]) else 0
  }

  function DigitValue(c: char): nat {
    if IsDigit(c) then c as int - '0' as int else 0
  }

  /** The number a string of decimal digits denotes. */
  function DigitsValue(ds: string): nat {
    if ds == [] then 0 else DigitsValue(ds[..|ds| - 1]) * 10 + DigitValue(ds[|ds| - 1])
  }

  function Digit(d: nat): (c: char)
    requires d < 10
    ensures IsDigit(c) && DigitValue(c) == d
  {
    ('0' as int + d) as char
  }

  /** The decimal text of `n`, as `Display` prints it: digits only, without
      leading zeros, denoting `n`. */
  function NatText(n: nat): (s: string)
    ensures |s| >= 1 && AllDigits(s)
    ensures s[0] == '0' ==> n == 0 && |s| == 1
    ensures DigitsValue(s) == n
  {
    if n < 10 then
      [Digit(n)]
    else
      var s := NatText(n / 10) + [Digit(n % 10)];
      assert s[..|s| - 1] == NatText(n / 10);
      s
  }

  /** The decimal text of an `i32`, with a leading `-` when it is negative. */
  function IntText(v: i32): (s: string)
    ensures |s| >= 1
    ensures forall k :: 0 <= k < |s| ==> IsDigit(s[k]) || (k == 0 && s[k] == '-')
  {
    if v < 0 then "-" + NatText(-(v as int)) else NatText(v as int)
  }

  // ---------------------------------------------------------------------
  // Parsers: each returns the value it read and the input after it

  /** An integer in the range of `i32`: an optional minus sign and digits
      without a leading zero, not followed by a fraction or an exponent. */
  function ParseInt(s: string): (r: Result<Parsed<i32>, DecodeError>)
    ensures r.Ok? ==> |r.value.rest| < |s| && IsSuffix(r.value.rest, s)
    ensures r.Ok? && |s| > 0 && s[0] == '-' ==> r.value.value < 0
  {
    if |s| > 0 && s[0] == '-' then
      var r := ParseMagnitude(s[1..], true);
      if r.Ok? then SuffixTransitive(r.value.rest, s[1..], s); r else r
    else
      ParseMagnitude(s, false)
  }

  /** The digits of an integer after its sign has been read. A negative
      zero is read as the floating-point number `-0.0`, which is not an
      `i32`. */
  function ParseMagnitude(body: string, neg: bool): (r: Result<Parsed<i32>, DecodeError>)
    ensures r.Ok? ==> |r.value.rest| < |body| && IsSuffix(r.value.rest, body)
    ensures r.Ok? && neg ==> r.value.value < 0
  {
    var n := DigitRun(body);
    if n == 0 then
      Err(if |body| == 0 then EofWhileParsingValue else if neg then InvalidNumber else ExpectedValue)
    else if body[0] == '0' && n > 1 then
      Err(InvalidNumber)
    else if n < |body| && (body[n] == '.' || body[n] == 'e' || body[n] == 'E') then
      Err(InvalidType)
    else
      var magnitude := DigitsValue(body[..n]);
      var v: int := if neg then -(magnitude as int) else magnitude as int;
      if neg && magnitude == 0 then Err(InvalidType)
      else if MinI32 <= v <= MaxI32 then Ok(Parsed(v as i32, body[n..])) else Err(NumberOutOfRange)
  }

  /** An object key: a string of plain characters between double quotes. */
  function ParseKey(s: string): (r: Result<Parsed<string>, DecodeError>)
    ensures r.Ok? ==> |r.value.rest| < |s| && IsSuffix(r.value.rest, s)
  {
    if |s| == 0 then Err(EofWhileParsingObject)
    else if s[0] != '"' then Err(KeyMustBeAString)
    else
      var n := PlainRun(s[1..]);
      var tail := s[1 + n..];
      if |tail| == 0 then Err(EofWhileParsingString)
      else if tail[0] == '"' then Ok(Parsed(s[1..1 + n], tail[1..]))
      else if tail[0] == '\\' then Err(UnsupportedEscape)
      else Err(ControlCharacterInString)
  }

  /** The two fields of a reading. */
  datatype Field = Humidity | Temperature

  function FieldName(field: Field): string {
    match field
    case Humidity => "humidity"
    case Temperature => "temperature"
  }

  /** The field a key names, if any. */
  function FieldNamed(key: string): (r: Option<Field>)
    ensures r.Some? ==> FieldName(r.value) == key
    ensures r.None? ==> key != "humidity" && key != "temperature"
  {
    if key == "humidity" then Some(Humidity)
    else if key == "temperature" then Some(Temperature)
    else None
  }

  /** The fields seen so far while reading an object. */
  datatype Fields = Fields(humidity: Option<i32>, temperature: Option<i32>) {
    predicate Has(field: Field) {
      match field
      case Humidity => humidity.Some?
      case Temperature => temperature.Some?
    }

    function With(field: Field, v: i32): Fields {
      match field
      case Humidity => this.(humidity := Some(v))
      case Temperature => this.(temperature := Some(v))
    }
  }

  const NoFields := Fields(None, None)

  /** The `: value` part of a member, from just after its key. */
  function ParseValue(s: string): (r: Result<Parsed<i32>, DecodeError>)
    ensures r.Ok? ==> |r.value.rest| < |s| && IsSuffix(r.value.rest, s)
  {
    var t := SkipWs(s);
    if |t| == 0 then Err(EofWhileParsingObject)
    else if t[0] != ':' then Err(ExpectedColon)
    else
      var u := SkipWs(t[1..]);
      SuffixTransitive(u, t[1..], t);
      SuffixTransitive(u, t, s);
      var r := ParseInt(u);
      if r.Ok? then SuffixTransitive(r.value.rest, u, s); r else r
  }

  /** One `key: value` member. A key other than the two field names, or a
      field named for the second time, is refused before its value is read. */
  function ParseMember(s: string, f: Fields): (r: Result<Parsed<Fields>, DecodeError>)
    ensures r.Ok? ==> |r.value.rest| < |s| && IsSuffix(r.value.rest, s)
  {
    match ParseKey(s)
    case Err(e) => Err(e)
    case Ok(Parsed(key, afterKey)) =>
      match FieldNamed(key)
      case None => Err(UnknownField(key))
      case Some(field) =>
        if f.Has(field) then Err(DuplicateField(key))
        else
          match ParseValue(afterKey)
          case Err(e) => Err(e)
          case Ok(Parsed(v, rest)) =>
            SuffixTransitive(rest, afterKey, s);
            Ok(Parsed(f.With(field, v), rest))
  }

  /** What follows a member: a comma and the next key, or the closing brace. */
  datatype Separator = MoreMembers(next: string) | EndOfObject(rest: string)

  /** The separator after a member. A comma directly followed by the closing
      brace is refused. */
  function ParseSeparator(s: string): (r: Result<Separator, DecodeError>)
    ensures r.Ok? && r.value.MoreMembers? ==> |r.value.next| < |s| && IsSuffix(r.value.next, s)
    ensures r.Ok? && r.value.EndOfObject? ==> IsSuffix(r.value.rest, s)
    ensures r.Ok? && r.value.EndOfObject? ==> '}' in s[..|s| - |r.value.rest|]
  {
    var t := SkipWs(s);
    if |t| == 0 then Err(EofWhileParsingObject)
    else if t[0] == ',' then
      var u := SkipWs(t[1..]);
      SuffixTransitive(u, t[1..], t);
      SuffixTransitive(u, t, s);
      if |u| > 0 && u[0] == '}' then Err(TrailingComma) else Ok(MoreMembers(u))
    else if t[0] == '}' then
      SuffixTransitive(t[1..], t, s);
      assert s[..|s| - |t[1..]|][|s| - |t|] == '}';
      Ok(EndOfObject(t[1..]))
    else
      Err(ExpectedCommaOrEnd)
  }

  /** A character read before `t` in `r` was read before `t` in any text
      that `r` ends. */
  lemma {:induction false} ConsumedWithin(c: char, t: string, r: string, s: string)
    requires IsSuffix(t, r) && IsSuffix(r, s) && c in r[..|r| - |t|]
    ensures c in s[..|s| - |t|]
  {
    var k :| 0 <= k < |r| - |t| && r[..|r| - |t|][k] == c;
    assert s[..|s| - |t|][|s| - |r| + k] == c;
  }

  lemma {:induction false} ConsumedIn(c: char, t: string, s: string)
    requires |t| <= |s| && c in s[..|s| - |t|]
    ensures c in s
  {
    var k :| 0 <= k < |s| - |t| && s[..|s| - |t|][k] == c;
    assert s[k] == c;
  }

  /** The members of an object up to and including its closing brace; `s`
      starts at the first key. Success consumes a closing brace of `s`. */
  function ParseMembers(s: string, f: Fields): (r: Result<Parsed<Fields>, DecodeError>)
    ensures r.Ok? ==> IsSuffix(r.value.rest, s)
    ensures r.Ok? ==> '}' in s[..|s| - |r.value.rest|]
    decreases |s|
  {
    match ParseMember(s, f)
    case Err(e) => Err(e)
    case Ok(Parsed(g, rest)) =>
      match ParseSeparator(rest)
      case Err(e) => Err(e)
      case Ok(EndOfObject(after)) =>
        SuffixTransitive(after, rest, s);
        ConsumedWithin('}', after, rest, s);
        Ok(Parsed(g, after))
      case Ok(MoreMembers(next)) =>
        var r := ParseMembers(next, g);
        if r.Ok? then
          SuffixTransitive(next, rest, s);
          SuffixTransitive(r.value.rest, next, s);
          ConsumedWithin('}', r.value.rest, next, s);
          r
        else r
  }

  /** `serde_json::from_str::<TemperatureReading>`: an object with both
      fields, surrounded by nothing but whitespace. A reading can only be
      produced from text that holds a closing brace. */
  function Decode(s: string): (r: Result<TemperatureReading, DecodeError>)
    ensures r.Ok? ==> '}' in s
  {
    var t := SkipWs(s);
    if |t| == 0 then Err(EofWhileParsingValue)
    else if t[0] != '{' then Err(InvalidType)
    else
      var u := SkipWs(t[1..]);
      SuffixTransitive(u, t[1..], t);
      SuffixTransitive(u, t, s);
      var body: Result<Parsed<Fields>, DecodeError> :=
        if |u| > 0 && u[0] == '}' then
          assert u[0] == s[|s| - |u|];
          Ok(Parsed(NoFields, u[1..]))
        else
          var m := ParseMembers(u, NoFields);
          assert m.Ok? ==> '}' in s by {
            if m.Ok? {
              ConsumedWithin('}', m.value.rest, u, s);
              ConsumedIn('}', m.value.rest, s);
            }
          }
          m;
      match body
      case Err(e) => Err(e)
      case Ok(Parsed(f, rest)) =>
        if f.humidity.None? then Err(MissingField("humidity"))
        else if f.temperature.None? then Err(MissingField("temperature"))
        else if SkipWs(rest) != [] then Err(TrailingCharacters)
        else Ok(TemperatureReading(f.humidity.value, f.temperature.value))
  }

  // ---------------------------------------------------------------------
  // Encoding

  function Quoted(key: string): string {
    "\"" + key + "\""
  }

  /** A character that may appear in an encoding before its final `}`. */
  predicate IsInner(c: char) {
    c < 128 as char && c != '}' && c != '\r' && c != '\0'
  }

  predicate AllInner(s: string) {
    forall k :: 0 <= k < |s| ==> IsInner(s[k])
  }

  lemma {:induction false} AllInnerConcat(a: string, b: string)
    requires AllInner(a) && AllInner(b)
    ensures AllInner(a + b)
  {
  }

  lemma {:induction false} IntTextInner(v: i32)
    ensures AllInner(IntText(v))
  {
  }

  /** The members of the encoded object, without the braces. */
  function EncodedMembers(r: TemperatureReading): (s: string)
    ensures AllInner(s)
  {
    var h := "\"humidity\":";
    var t := ",\"temperature\":";
    assert AllInner(h) && AllInner(t);
    IntTextInner(r.humidity);
    IntTextInner(r.temperature);
    AllInnerConcat(h, IntText(r.humidity));
    AllInnerConcat(t, IntText(r.temperature));
    AllInnerConcat(h + IntText(r.humidity), t + IntText(r.temperature));
    assert h + IntText(r.humidity) + (t + IntText(r.temperature))
        == h + IntText(r.humidity) + t + IntText(r.temperature);
    h + IntText(r.humidity) + t + IntText(r.temperature)
  }

  /** Members between braces: ASCII, and the closing brace is the only one. */
  lemma {:induction false} BracedInner(m: string)
    requires AllInner(m)
    ensures var s := "{" + m + "}";
      && (forall k :: 0 <= k < |s| ==> s[k] < 128 as char)
      && (forall k :: 0 <= k < |s| - 1 ==> s[k] != '}' && s[k] != '\r' && s[k] != '\0')
  {
    var s := "{" + m + "}";
    assert forall k :: 1 <= k < |m| + 1 ==> s[k] == m[k - 1];
  }

  /** `serde_json::to_string` of a reading: `{"humidity":H,"temperature":T}`.
      The text is ASCII, starts with `{`, and its only `}` is the last
      character. */
  function Encode(r: TemperatureReading): (s: string)
    ensures |s| >= 2 && s[0] == '{' && s[|s| - 1] == '}'
    ensures forall k :: 0 <= k < |s| ==> s[k] < 128 as char
    ensures forall k :: 0 <= k < |s| - 1 ==> s[k] != '}' && s[k] != '\r' && s[k] != '\0'
  {
    BracedInner(EncodedMembers(r));
    "{" + EncodedMembers(r) + "}"
  }

  // ---------------------------------------------------------------------
  // Round trip

  lemma {:induction false} DigitRunOf(d: string, rest: string)
    requires AllDigits(d)
    requires rest == [] || !IsDigit(rest[0])
    ensures DigitRun(d + rest) == |d|
    decreases |d|
  {
    if |d| > 0 {
      assert (d + rest)[1..] == d[1..] + rest;
      DigitRunOf(d[1..], rest);
    }
  }

  lemma {:induction false} PlainRunOf(k: string, rest: string)
    requires AllPlain(k)
    requires rest == [] || !IsPlain(rest[0])
    ensures PlainRun(k + rest) == |k|
    decreases |k|
  {
    if |k| > 0 {
      assert (k + rest)[1..] == k[1..] + rest;
      PlainRunOf(k[1..], rest);
    }
  }

  predicate EndsNumber(rest: string) {
    rest == [] || (!IsDigit(rest[0]) && rest[0] != '.' && rest[0] != 'e' && rest[0] != 'E')
  }

  /** Canonical digits that end the number are read back as the number
      they denote. */
  lemma {:induction false} ParseMagnitudeDigits(digits: string, rest: string, neg: bool, v: i32)
    requires AllDigits(digits) && |digits| >= 1 && (digits[0] == '0' ==> |digits| == 1)
    requires EndsNumber(rest)
    requires neg ==> DigitsValue(digits) > 0
    requires v as int == if neg then -(DigitsValue(digits) as int) else DigitsValue(digits) as int
    ensures ParseMagnitude(digits + rest, neg) == Ok(Parsed(v, rest))
  {
    var body := digits + rest;
    DigitRunOf(digits, rest);
    var n := |digits|;
    assert body[0] == digits[0];
    assert n < |body| ==> body[n] == rest[0];
    assert body[..n] == digits;
    assert body[n..] == rest;
    var r := ParseMagnitude(body, neg);
    assert r.Ok?;
    assert r.value.value as int == v as int;
    assert r.value.rest == rest;
  }

  /** Reading back the text of an integer gives the integer, when it is not
      followed by more of a number. */
  lemma {:induction false} ParseIntText(v: i32, rest: string)
    requires EndsNumber(rest)
    ensures ParseInt(IntText(v) + rest) == Ok(Parsed(v, rest))
  {
    if v < 0 {
      ParseNegativeText(v, rest);
    } else {
      var digits := NatText(v as int);
      assert IntText(v) + rest == digits + rest;
      assert ParseMagnitude(digits + rest, false) == Ok(Parsed(v, rest)) by {
        ParseMagnitudeDigits(digits, rest, false, v);
      }
    }
  }

  lemma {:induction false} ParseNegativeText(v: i32, rest: string)
    requires v < 0 && EndsNumber(rest)
    ensures ParseInt(IntText(v) + rest) == Ok(Parsed(v, rest))
  {
    var s := IntText(v) + rest;
    var digits := NatText(-(v as int));
    assert s[1..] == digits + rest && s[0] == '-' by {
      assert s == "-" + (digits + rest);
    }
    assert ParseMagnitude(s[1..], true) == Ok(Parsed(v, rest)) by {
      ParseMagnitudeDigits(digits, rest, true, v);
    }
  }

  /** `-0` is refused as an `i32`, whatever ends the number. */
  lemma {:induction false} NegativeZeroRefused(rest: string)
    requires |rest| == 0 || !IsDigit(rest[0])
    ensures ParseInt("-0" + rest) == Err(InvalidType)
  {
    var s := "-0" + rest;
    assert s[1..] == "0" + rest;
    DigitRunOf("0", rest);
    assert s[1..][..1] == "0";
  }

  /** Reading back a quoted key gives the key. */
  lemma {:induction false} ParseKeyQuoted(key: string, rest: string)
    requires AllPlain(key)
    ensures ParseKey(Quoted(key) + rest) == Ok(Parsed(key, rest))
  {
    var s := Quoted(key) + rest;
    assert s[1..] == key + ("\"" + rest);
    PlainRunOf(key, "\"" + rest);
    assert s[1 + |key|..] == "\"" + rest;
    assert s[1..1 + |key|] == key;
  }

  /** An encoded `: value` is read back as the value. */
  lemma {:induction false} ParseValueText(v: i32, rest: string)
    requires EndsNumber(rest)
    ensures ParseValue(":" + IntText(v) + rest) == Ok(Parsed(v, rest))
  {
    var text := IntText(v) + rest;
    var s := ":" + text;
    assert ":" + IntText(v) + rest == s;
    assert SkipWs(s) == s;
    assert s[1..] == text;
    assert text[0] == IntText(v)[0];
    assert SkipWs(text) == text;
    ParseIntText(v, rest);
  }

  lemma {:induction false} FieldNamedName(field: Field)
    ensures FieldNamed(FieldName(field)) == Some(field)
  {
  }

  /** A member whose key names a field not yet seen and whose value reads
      well sets that field. */
  lemma {:induction false} ParseMemberOf(s: string, f: Fields, key: string, afterKey: string, field: Field, v: i32, rest: string)
    requires ParseKey(s) == Ok(Parsed(key, afterKey))
    requires FieldNamed(key) == Some(field) && !f.Has(field)
    requires ParseValue(afterKey) == Ok(Parsed(v, rest))
    ensures ParseMember(s, f) == Ok(Parsed(f.With(field, v), rest))
  {
  }

  /** One encoded member is read back into the field it names. */
  lemma {:induction false} ParseMemberText(field: Field, v: i32, rest: string, f: Fields)
    requires !f.Has(field)
    requires EndsNumber(rest)
    ensures ParseMember(Quoted(FieldName(field)) + (":" + IntText(v) + rest), f)
         == Ok(Parsed(f.With(field, v), rest))
  {
    var afterKey := ":" + IntText(v) + rest;
    var s := Quoted(FieldName(field)) + afterKey;
    assert ParseKey(s) == Ok(Parsed(FieldName(field), afterKey)) by {
      ParseKeyQuoted(FieldName(field), afterKey);
    }
    assert ParseValue(afterKey) == Ok(Parsed(v, rest)) by {
      ParseValueText(v, rest);
    }
    FieldNamedName(field);
    ParseMemberOf(s, f, FieldName(field), afterKey, field, v, rest);
  }

  /** A closing brace alone ends the object. */
  lemma {:induction false} SeparatorClose()
    ensures ParseSeparator("}") == Ok(EndOfObject([]))
  {
    assert SkipWs("}") == "}";
    assert "}"[1..] == [];
  }

  /** A member followed by the closing brace ends the object. */
  lemma {:induction false} ParseMembersLast(s: string, f: Fields, g: Fields)
    requires ParseMember(s, f) == Ok(Parsed(g, "}"))
    ensures ParseMembers(s, f) == Ok(Parsed(g, []))
  {
    SeparatorClose();
  }

  /** The second encoded member and the closing brace end the object. */
  lemma {:induction false} ParseLastMember(v: i32, f: Fields)
    requires !f.Has(Temperature)
    ensures ParseMembers(Quoted("temperature") + (":" + IntText(v) + "}"), f)
         == Ok(Parsed(f.With(Temperature, v), []))
  {
    var s := Quoted("temperature") + (":" + IntText(v) + "}");
    assert ParseMember(s, f) == Ok(Parsed(f.With(Temperature, v), "}")) by {
      ParseMemberText(Temperature, v, "}", f);
    }
    ParseMembersLast(s, f, f.With(Temperature, v));
  }

  /** A member followed by a comma: reading goes on after the comma. */
  lemma {:induction false} ParseMembersStep(s: string, f: Fields, g: Fields, more: string)
    requires |more| > 0 && more[0] == '"'
    requires ParseMember(s, f) == Ok(Parsed(g, "," + more))
    ensures ParseMembers(s, f) == ParseMembers(more, g)
  {
    var t := "," + more;
    assert ParseSeparator(t) == Ok(MoreMembers(more)) by {
      assert SkipWs(t) == t;
      assert t[1..] == more;
      assert SkipWs(more) == more;
    }
    ParseMembersNext(s, f, g, t, more);
  }

  /** A member and a separator that announces more: reading goes on with
      the next member. */
  lemma {:induction false} ParseMembersNext(s: string, f: Fields, g: Fields, rest: string, next: string)
    requires ParseMember(s, f) == Ok(Parsed(g, rest))
    requires ParseSeparator(rest) == Ok(MoreMembers(next))
    ensures ParseMembers(s, f) == ParseMembers(next, g)
  {
  }

  /** The first encoded member is read into the humidity field. */
  lemma {:induction false} ParseHumidityMember(v: i32, rest: string)
    requires EndsNumber(rest)
    ensures ParseMember(Quoted("humidity") + (":" + IntText(v) + rest), NoFields)
         == Ok(Parsed(NoFields.With(Humidity, v), rest))
  {
    ParseMemberText(Humidity, v, rest, NoFields);
  }

  /** After the first encoded member and a comma, reading goes on with the
      members that follow. */
  lemma {:induction false} ParseFirstMember(v: i32, more: string, out: Parsed<Fields>)
    requires |more| > 0 && more[0] == '"'
    requires ParseMembers(more, NoFields.With(Humidity, v)) == Ok(out)
    ensures ParseMembers(Quoted("humidity") + (":" + IntText(v) + ("," + more)), NoFields) == Ok(out)
  {
    ParseHumidityMember(v, "," + more);
    ParseMembersStep(Quoted("humidity") + (":" + IntText(v) + ("," + more)), NoFields, NoFields.With(Humidity, v), more);
  }

  /** The members' text regrouped the way the members are read. */
  lemma {:induction false} MembersRegrouped(h: string, t: string)
    ensures "\"humidity\":" + h + ",\"temperature\":" + t + "}"
         == Quoted("humidity") + (":" + h + ("," + (Quoted("temperature") + (":" + t + "}"))))
  {
  }

  /** The encoding after its opening brace, as the members are read. */
  lemma {:induction false} EncodingAfterBrace(r: TemperatureReading)
    ensures Encode(r)[1..] == Quoted("humidity") + (":" + IntText(r.humidity) + ("," +
      (Quoted("temperature") + (":" + IntText(r.temperature) + "}"))))
  {
    var m := EncodedMembers(r);
    assert Encode(r)[1..] == m + "}";
    MembersRegrouped(IntText(r.humidity), IntText(r.temperature));
  }

  /** Both encoded members and the closing brace are read as both fields. */
  lemma {:induction false} ParseEncodedMembers(r: TemperatureReading)
    ensures ParseMembers(Encode(r)[1..], NoFields)
         == Ok(Parsed(Fields(Some(r.humidity), Some(r.temperature)), []))
  {
    var second := Quoted("temperature") + (":" + IntText(r.temperature) + "}");
    var out := Parsed(Fields(Some(r.humidity), Some(r.temperature)), []);
    assert ParseMembers(second, NoFields.With(Humidity, r.humidity)) == Ok(out) by {
      ParseLastMember(r.temperature, NoFields.With(Humidity, r.humidity));
    }
    EncodingAfterBrace(r);
    ParseFirstMember(r.humidity, second, out);
  }

  /** Decoding the encoding of a reading gives the reading back. */
  lemma {:induction false} DecodeEncode(r: TemperatureReading)
    ensures Decode(Encode(r)) == Ok(r)
  {
    var s := Encode(r);
    assert SkipWs(s) == s;
    assert SkipWs(s[1..]) == s[1..];
    ParseEncodedMembers(r);
  }

  /** Every proper prefix of an encoding fails to decode: a truncated
      reading is never accepted. */
  lemma {:induction false} TruncatedEncodingFails(r: TemperatureReading, n: nat)
    requires n < |Encode(r)|
    ensures Decode(Encode(r)[..n]).Err?
  {
    var s := Encode(r)[..n];
    assert '}' !in s;
  }

  /** The empty text is not a reading. */
  lemma {:induction false} DecodeEmpty()
    ensures Decode("") == Err(EofWhileParsingValue)
  {
  }
}
