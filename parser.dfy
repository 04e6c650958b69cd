/**
 * `process_data`: the raw serial buffer is decoded lossily as UTF-8, the
 * characters NUL, CR and LF are trimmed off both ends, the text is split on
 * CR LF, and the second segment (or the whole text when there is no
 * separator) is handed to the JSON decoder.
 */
module Parser {
  import opened Wrappers
  import opened Text
  import opened Json

  newtype byte = b: int | 0 <= b < 256

  /** What `String::from_utf8_lossy` puts in place of bytes it cannot decode. */
  const Replacement: char := '\U{FFFD}'

  /** One byte of the lossy decoding: ASCII stands for itself, every other
      byte becomes the replacement character. */
  function DecodeByte(b: byte): char {
    if b < 128 then (b as int) as char else Replacement
  }

  /** `String::from_utf8_lossy` on the buffer, one character per byte. The
      characters trimmed later are exactly the bytes 0, 10 and 13. */
  function Lossy(data: seq<byte>): (text: string)
    ensures |text| == |data|
    ensures forall k :: 0 <= k < |data| ==> (IsClean(text[k]) <==> data[k] == 0 || data[k] == 10 || data[k] == 13)
    ensures forall k :: 0 <= k < |data| ==> (text[k] == '}' <==> data[k] == 125)
  {
    seq(|data|, k requires 0 <= k < |data| => DecodeByte(data[k]))
  }

  lemma {:induction false} LossyAppend(a: seq<byte>, b: seq<byte>)
    ensures Lossy(a + b) == Lossy(a) + Lossy(b)
  {
    assert forall k :: 0 <= k < |a| ==> (a + b)[k] == a[k];
    assert forall k :: |a| <= k < |a| + |b| ==> (a + b)[k] == b[k - |a|];
  }

  predicate IsAscii(s: string) {
    forall k :: 0 <= k < |s| ==> s[k] < 128 as char
  }

  /** The bytes of ASCII text. */
  function AsciiBytes(s: string): (data: seq<byte>)
    requires IsAscii(s)
    ensures |data| == |s|
    ensures Lossy(data) == s
  {
    seq(|s|, k requires 0 <= k < |s| => s[k] as int as byte)
  }

  // ---------------------------------------------------------------------
  // Choosing the segment

  /** The segment after the first separator when there is one, otherwise the
      whole text. */
  function SelectLine(text: string): (line: string)
    ensures !ContainsCrlf(line)
    ensures !ContainsCrlf(text) ==> line == text
    ensures ContainsCrlf(text) ==> exists a, b :: SecondSegmentOf(text, a, line, b)
  {
    var parts := Split(text);
    SplitManyIffCrlf(text);
    if |parts| >= 2 then
      SecondOfSplit(text);
      parts[1]
    else
      text
  }

  /** `text` is `a`, a separator, `line` and `b`, where neither `a` nor `line`
      holds a separator and `b` is empty or starts with one: `line` runs from
      the first separator to the next one or to the end. */
  ghost predicate SecondSegmentOf(text: string, a: string, line: string, b: string) {
    && text == a + Crlf + line + b
    && !ContainsCrlf(a) && !ContainsCrlf(line)
    && (b == [] || HasCrlfAt(b, 0))
  }

  lemma {:induction false} SecondOfSplit(text: string)
    requires |Split(text)| >= 2
    ensures SecondSegmentOf(text, Split(text)[0], Split(text)[1], if |Split(text)| == 2 then [] else Crlf + Join(Split(text)[2..]))
  {
    var parts := Split(text);
    var tail := parts[1..];
    assert Join(parts) == parts[0] + Crlf + Join(tail);
    assert tail[0] == parts[1];
    if |parts| > 2 {
      assert tail[1..] == parts[2..];
      assert Join(tail) == parts[1] + Crlf + Join(parts[2..]);
      assert parts[0] + Crlf + (parts[1] + Crlf + Join(parts[2..]))
          == parts[0] + Crlf + parts[1] + (Crlf + Join(parts[2..]));
    } else {
      assert Join(tail) == parts[1];
    }
  }

  /** The converse of the choice: whatever the text after the second segment,
      the segment between the first separator and the next is the one
      chosen. */
  lemma {:induction false} SecondLineSelected(a: string, line: string, b: string)
    requires !ContainsCrlf(a) && !ContainsCrlf(line)
    requires b == [] || HasCrlfAt(b, 0)
    ensures SelectLine(a + Crlf + line + b) == line
  {
    var text := a + Crlf + line + b;
    assert text == a + Crlf + (line + b);
    SplitAtFirstCrlf(a, line + b);
    if b == [] {
      assert line + b == line;
      SplitWithoutCrlf(line);
    } else {
      assert b == Crlf + b[2..];
      assert line + b == line + Crlf + b[2..];
      SplitAtFirstCrlf(line, b[2..]);
    }
  }

  // ---------------------------------------------------------------------
  // process_data

  /** The text handed to the decoder. */
  function Payload(data: seq<byte>): string {
    SelectLine(Trim(Lossy(data)))
  }

  /** `process_data`. A reading can only come from a buffer that holds the
      byte of a closing brace. */
  function ProcessData(data: seq<byte>): (r: Result<TemperatureReading, DecodeError>)
    ensures r.Ok? ==> 125 in data
  {
    var r := Decode(Payload(data));
    if r.Ok? then
      PayloadWithin(data);
      var text := Lossy(data);
      var k :| 0 <= k < |text| && text[k] == '}';
      assert data[k] == 125;
      r
    else
      r
  }

  /** Every character of a chosen segment is a character of the text. */
  lemma {:induction false} SelectLineWithin(text: string, c: char)
    requires c in SelectLine(text)
    ensures c in text
  {
    if ContainsCrlf(text) {
      var a, b :| SecondSegmentOf(text, a, SelectLine(text), b);
      var line := SelectLine(text);
      var k :| 0 <= k < |line| && line[k] == c;
      assert text[|a| + 2 + k] == c;
    }
  }

  /** A closing brace in the payload is a closing brace of the decoded buffer. */
  lemma {:induction false} PayloadWithin(data: seq<byte>)
    requires '}' in Payload(data)
    ensures '}' in Lossy(data)
  {
    SelectLineWithin(Trim(Lossy(data)), '}');
    TrimWithin(Lossy(data), '}');
  }

  /** Bytes that decode to NUL, CR and LF only. */
  predicate AllPadding(pad: seq<byte>) {
    forall k :: 0 <= k < |pad| ==> pad[k] == 0 || pad[k] == 10 || pad[k] == 13
  }

  /** A buffer of nothing but NUL, CR and LF bytes (the empty buffer among
      them) gives the decoder the empty text, and so no reading. */
  lemma {:induction false} PaddingOnlyFails(data: seq<byte>)
    requires AllPadding(data)
    ensures Payload(data) == []
    ensures ProcessData(data) == Err(EofWhileParsingValue)
  {
    var text := Lossy(data);
    assert AllClean(text);
    TrimAllClean(text);
    assert !ContainsCrlf([]);
    DecodeEmpty();
  }

  /** The all-NUL buffer the loop hands over when nothing was read. */
  lemma {:induction false} UnreadBufferFails(n: nat)
    ensures ProcessData(seq(n, _ => 0 as byte)) == Err(EofWhileParsingValue)
  {
    PaddingOnlyFails(seq(n, _ => 0 as byte));
  }

  /** A suffix of text without a separator has none. */
  lemma {:induction false} SuffixWithoutCrlf(s: string, i: nat)
    requires i <= |s| && !ContainsCrlf(s)
    ensures !ContainsCrlf(s[i..])
  {
    forall k | 0 <= k < |s| - i && HasCrlfAt(s[i..], k) ensures false {
      assert HasCrlfAt(s, i + k);
    }
  }

  /** An encoding holds no separator. */
  lemma {:induction false} EncodingWithoutCrlf(r: TemperatureReading)
    ensures !ContainsCrlf(Encode(r))
  {
    var s := Encode(r);
    assert forall k :: 0 <= k < |s| ==> !HasCrlfAt(s, k);
  }

  /** The decoded buffer of a line, a reading and padding. */
  lemma {:induction false} FramedText(banner: seq<byte>, r: TemperatureReading, pad: seq<byte>)
    ensures Lossy(banner + [13, 10] + AsciiBytes(Encode(r)) + pad)
         == Lossy(banner) + Crlf + Encode(r) + Lossy(pad)
  {
    var e := AsciiBytes(Encode(r));
    LossyAppend(banner + [13, 10] + e, pad);
    LossyAppend(banner + [13, 10], e);
    LossyAppend(banner, [13, 10]);
    assert Lossy([13, 10]) == Crlf;
  }

  /** Trimming a banner, a separator, an encoding and clean padding, when the
      banner is not all clean: only the banner's clean front and the padding
      go. */
  lemma {:induction false} TrimFramedBanner(l: string, e: string, q: string)
    requires TrimStart(l) != []
    requires |e| > 0 && !IsClean(e[|e| - 1]) && AllClean(q)
    ensures Trim(l + Crlf + e + q) == TrimStart(l) + Crlf + e
  {
    var text := l + Crlf + e + q;
    var t := TrimStart(l);
    var i := |l| - |t|;
    var j := |l| + 2 + |e|;
    assert text[..i] == l[..i];
    assert text[j..] == q;
    assert text[i..j] == t + Crlf + e;
    TrimUnique(text, i, j);
  }

  /** Clean text on both sides of an unbordered middle is trimmed away. */
  lemma {:induction false} TrimPadded(l: string, e: string, q: string)
    requires AllClean(l) && AllClean(q)
    requires |e| > 0 && !IsClean(e[0]) && !IsClean(e[|e| - 1])
    ensures Trim(l + e + q) == e
  {
    var text := l + e + q;
    var i := |l|;
    var j := i + |e|;
    assert text[..i] == l;
    assert text[j..] == q;
    assert text[i..j] == e;
    TrimUnique(text, i, j);
  }

  /** A buffer whose payload is the encoding of a reading gives that
      reading. */
  lemma {:induction false} PayloadDecoded(data: seq<byte>, r: TemperatureReading)
    requires Payload(data) == Encode(r)
    ensures ProcessData(data) == Ok(r)
  {
    DecodeEncode(r);
  }

  /** A line whose ends are not clean, after a banner line that is not all
      clean, and clean padding: the line is chosen. */
  lemma {:induction false} LineAfterBanner(l: string, e: string, q: string)
    requires !ContainsCrlf(l) && TrimStart(l) != []
    requires |e| > 0 && !IsClean(e[0]) && !IsClean(e[|e| - 1]) && !ContainsCrlf(e)
    requires AllClean(q)
    ensures SelectLine(Trim(l + Crlf + e + q)) == e
  {
    var t := TrimStart(l);
    TrimFramedBanner(l, e, q);
    SuffixWithoutCrlf(l, |l| - |t|);
    SecondLineSelected(t, e, []);
    assert t + Crlf + e + [] == t + Crlf + e;
  }

  /** The same after an all-clean banner, which is trimmed away with the
      separator: the line is the whole text. */
  lemma {:induction false} LineAfterCleanBanner(l: string, e: string, q: string)
    requires TrimStart(l) == []
    requires |e| > 0 && !IsClean(e[0]) && !IsClean(e[|e| - 1]) && !ContainsCrlf(e)
    requires AllClean(q)
    ensures SelectLine(Trim(l + Crlf + e + q)) == e
  {
    assert l[..|l|] == l;
    AllCleanConcat(l, Crlf);
    assert l + Crlf + e + q == (l + Crlf) + e + q;
    TrimPadded(l + Crlf, e, q);
  }

  /** The payload of a banner line, an encoded reading and padding is the
      encoding. */
  lemma {:induction false} FramedPayload(banner: seq<byte>, r: TemperatureReading, pad: seq<byte>)
    requires !ContainsCrlf(Lossy(banner))
    requires AllPadding(pad)
    ensures Payload(banner + [13, 10] + AsciiBytes(Encode(r)) + pad) == Encode(r)
  {
    var l := Lossy(banner);
    var e := Encode(r);
    var q := Lossy(pad);
    FramedText(banner, r, pad);
    assert AllClean(q);
    EncodingWithoutCrlf(r);
    if TrimStart(l) != [] {
      LineAfterBanner(l, e, q);
    } else {
      LineAfterCleanBanner(l, e, q);
    }
  }

  /** A reading sent as a line after a banner line, with padding after it,
      is extracted exactly. */
  lemma {:induction false} FramedReadingExtracted(banner: seq<byte>, r: TemperatureReading, pad: seq<byte>)
    requires !ContainsCrlf(Lossy(banner))
    requires AllPadding(pad)
    ensures ProcessData(banner + [13, 10] + AsciiBytes(Encode(r)) + pad) == Ok(r)
  {
    FramedPayload(banner, r, pad);
    PayloadDecoded(banner + [13, 10] + AsciiBytes(Encode(r)) + pad, r);
  }

  /** The payload of an encoded reading with padding on both sides is the
      encoding. */
  lemma {:induction false} BarePayload(lead: seq<byte>, r: TemperatureReading, pad: seq<byte>)
    requires AllPadding(lead) && AllPadding(pad)
    ensures Payload(lead + AsciiBytes(Encode(r)) + pad) == Encode(r)
  {
    var e := Encode(r);
    LossyAppend(lead + AsciiBytes(e), pad);
    LossyAppend(lead, AsciiBytes(e));
    TrimPadded(Lossy(lead), e, Lossy(pad));
    EncodingWithoutCrlf(r);
  }

  /** A reading alone, with padding on both sides, is extracted exactly. */
  lemma {:induction false} BareReadingExtracted(lead: seq<byte>, r: TemperatureReading, pad: seq<byte>)
    requires AllPadding(lead) && AllPadding(pad)
    ensures ProcessData(lead + AsciiBytes(Encode(r)) + pad) == Ok(r)
  {
    BarePayload(lead, r, pad);
    PayloadDecoded(lead + AsciiBytes(Encode(r)) + pad, r);
  }
}
