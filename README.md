# temperature-probe, modelled in Dafny

`temperature-probe` is a small bridge daemon. It reads one reading at a
time from a temperature/humidity probe on a serial port, and posts the
temperature to an HTTP controller. Every pass of its endless loop does four things:
- it announces the configured port (`COM_PORT`);
- it enumerates the serial ports;
- for each port whose name is the configured one, it opens the port, reads
  one 256-byte buffer, and turns the buffer into a reading with
  `process_data`;
- for each reading it gets, it posts `{"id": PROBE_ID, "temp": temperature}`
  with `send_data`.

The model has six modules, one per file:

- `Wrappers`: `Option` and `Result`.
- `Text`: trimming NUL, CR and LF off both ends (`trim_matches`), and
  splitting on the two-character separator CR LF (`split("\r\n")`).
- `Json`: the JSON form of `TemperatureReading`. It has a decoder for the
  two-field schema, which stands in for `serde_json::from_str`, and the
  compact encoder `serde_json::to_string`.
- `Parser`: `process_data`.
  - The buffer is decoded lossily, byte by byte.
  - The text is trimmed.
  - The second CR-LF segment is chosen, or the whole text when there is no
    separator.
  - The chosen text is decoded.
- `Delivery`: `send_data`. It builds the body map and classifies what the
  HTTP client returned.
- `PollLoop`: one pass of the loop.
  - `Pass` is a method with a `for` loop over the enumerated port names.
  - Its loop body `VisitPort` reads into a fresh `array<byte>` with
    `ReadInto`.
  - Each method is proved against the trace function `PassTrace`, `Steps` or
    `Visit`, which lists the events of the pass in order.
  - The lemmas about the pass are stated over those trace functions.

The serial ports and the HTTP client are not modelled: a `World` value gives,
for the port at each position of the enumeration:
- whether opening it succeeds;
- the bytes one read delivers;
- what the client returns when a reading from it is posted.

The trace functions take the extraction function as a parameter. So their
lemmas hold for any parser, and `LoopBody` (the loop's body in `main`) is
`Pass` with `ProcessData`.

## Model

| member | source | states |
|---|---|---|
| Text.TrimStart | src/main.rs:90-91 | the result is a suffix of the text, everything cut off is NUL, CR or LF, and the result is empty or starts with another character |
| Text.TrimEnd | src/main.rs:90-91 | the result is a prefix of the text, everything cut off is NUL, CR or LF, and the result is empty or ends with another character |
| Text.Trim | src/main.rs:90-91 | the trimmed text is a contiguous slice of the text, only NUL, CR and LF surround it, and neither of its ends is NUL, CR or LF |
| Text.TrimUnique | src/main.rs:90-91 | any slice of the text surrounded only by NUL, CR and LF and with neither end one of those characters is exactly the trimmed text |
| Text.TrimKeepsUnbordered | src/main.rs:90-91 | text whose ends are not NUL, CR or LF is left unchanged |
| Text.TrimIdempotent | src/main.rs:90-91 | trimming twice gives the same text as trimming once |
| Text.TrimAllClean | src/main.rs:90-91 | text made only of NUL, CR and LF trims to the empty string |
| Text.TrimWithin | src/main.rs:90-91 | every character of the trimmed text occurs in the text |
| Text.Split | src/main.rs:92 | there is at least one segment, no segment contains CR LF, and joining the segments with CR LF gives the text back |
| Text.SplitWithoutCrlf | src/main.rs:92 | text without CR LF is a single segment, itself |
| Text.SplitAtFirstCrlf | src/main.rs:92 | text made of a piece without CR LF, a CR LF and more text splits into that piece followed by the split of the rest |
| Text.SplitJoin | src/main.rs:92 | splitting the joined segments gives exactly those segments back, when none of them contains CR LF |
| Text.SplitManyIffCrlf | src/main.rs:92-93 | there are two or more segments exactly when the text contains CR LF |
| Parser.Lossy | src/main.rs:91 | one character per byte; a character is NUL, CR or LF exactly when its byte is 0, 13 or 10, and is `}` exactly when its byte is 125 |
| Parser.LossyAppend | src/main.rs:91 | decoding a concatenation gives the concatenation of the decodings |
| Parser.AsciiBytes | src/main.rs:91 | the bytes of ASCII text decode back to that text |
| Parser.SelectLine | src/main.rs:92-97 | without CR LF the chosen text is the whole text; with CR LF, the chosen text lies between the first CR LF and the next CR LF or the end; in both cases it holds no CR LF |
| Parser.SecondLineSelected | src/main.rs:92-97 | conversely, for a text made of a piece, CR LF, a line and then nothing or another CR LF, the line is what is chosen |
| Parser.SelectLineWithin | src/main.rs:92-97 | every character of the chosen text occurs in the text |
| Parser.ProcessData | src/main.rs:89-98 | a reading can only come from a buffer that holds the byte of a closing brace |
| Parser.PayloadWithin | src/main.rs:89-98 | a closing brace in the decoder's input comes from the decoded buffer |
| Parser.PaddingOnlyFails | src/main.rs:89-98 | a buffer of only 0, 10 and 13 bytes, the empty buffer among them, gives the decoder the empty text and fails with "EOF while parsing a value" |
| Parser.UnreadBufferFails | src/main.rs:39-41 | the zeroed buffer left by a read that delivered nothing gives no reading |
| Parser.FramedReadingExtracted | src/main.rs:89-98 | a banner line without CR LF, then CR LF, then an encoded reading, then NUL/CR/LF padding, gives exactly that reading |
| Parser.FramedPayload | src/main.rs:89-98 | for such a buffer the text handed to the decoder is the encoded reading |
| Parser.BareReadingExtracted | src/main.rs:89-98 | an encoded reading with padding on both sides and no banner gives exactly that reading |
| Json.Decode | src/main.rs:11-15 | a reading can only be decoded from text that holds a closing brace |
| Json.ParseMembers | src/main.rs:11-15 | a successful read of the members leaves a suffix of the input, and the part it consumed holds a closing brace |
| Json.ParseMember | src/main.rs:11-15 | a member that reads successfully consumes part of the input and leaves a suffix |
| Json.ParseInt | src/main.rs:13-14 | an integer that reads successfully consumes part of the input and leaves a suffix, and one read after a minus sign is negative (a negative zero is refused) |
| Json.NegativeZeroRefused | src/main.rs:13-14 | `-0`, when no further digit follows, is refused as not an `i32`: it is read as the floating-point number -0.0 |
| Json.NatText | src/main.rs:11 | the decimal text of a number is digits only, has no leading zero, and denotes that number |
| Json.Encode | src/main.rs:11 | the encoding is ASCII, starts with `{`, and its only `}` is its last character, before which there is no CR and no NUL |
| Json.ParseIntText | src/main.rs:13-14 | the text of any `i32`, when no further digit, `.`, `e` or `E` follows, reads back as that `i32` |
| Json.ParseKeyQuoted | src/main.rs:13-14 | a quoted key of plain characters reads back as the key |
| Json.ParseMemberText | src/main.rs:13-14 | an encoded member reads back into the field it names |
| Json.DecodeEncode | src/main.rs:11-15 | round trip: decoding the encoding of any reading gives that reading back |
| Json.TruncatedEncodingFails | src/main.rs:11-15 | every proper prefix of an encoding fails to decode |
| Json.DecodeEmpty | src/main.rs:94-96 | decoding the empty text fails with "EOF while parsing a value" |
| Json.Message | src/main.rs:46 | the message of every decoding error is non-empty |
| Delivery.MakeBody | src/main.rs:59-61 | the body has exactly the keys `id` and `temp`, with the probe id and the temperature, and no `humidity` |
| Delivery.BodyIgnoresHumidity | src/main.rs:59-61 | readings with the same temperature give the same body, whatever their humidity |
| Delivery.BodyIsIdAndTemp | src/main.rs:59-61 | the body is the two-entry map from `id` to the probe id and from `temp` to the temperature |
| Delivery.MakeRequest | src/main.rs:66-68 | the request goes to the configured URL with the configured token, and its body has exactly the keys `id` and `temp`, mapped to the probe id and the temperature |
| Delivery.Classify | src/main.rs:72-77 | delivered exactly for 200..299, rejected by the server exactly for 500..599, otherwise unknown carrying the status and the text; never a transport failure |
| Delivery.StatusClassesPartition | src/main.rs:72-77 | every status code falls into exactly one of the three classes |
| Delivery.Deliver | src/main.rs:63-85 | a transport failure happens exactly when no response came back (the client could not be built, or sending failed), and it carries that error; a response is classified by its status |
| PollLoop.Overlay | src/main.rs:40 | after a read the buffer keeps its length; its front holds the bytes that arrived, as many as fit, and the rest is unchanged |
| PollLoop.ReadInto | src/main.rs:40 | the array afterwards holds the old contents overlaid with the bytes that arrived |
| PollLoop.FilledPads | src/main.rs:39-40 | the freshly zeroed buffer after a read is the bytes read followed by zeros up to 256 |
| PollLoop.VisitPort | src/main.rs:31-53 | the body of the `for` loop produces exactly the events of that port in order: found; then, for the configured name, the open attempt; then, if it opened, the read, and the reading and its post or the parse error |
| PollLoop.Pass | src/main.rs:27-54 | the trace is the announcement followed by the events of every enumerated port in enumeration order, or by the enumeration failure |
| PollLoop.LoopBody | src/main.rs:27-54 | the same pass with each buffer handed to `ProcessData` |
| PollLoop.Matching | src/main.rs:30-32 | a position is listed exactly when it is among the first n and its port has the configured name, and the listed positions are strictly increasing |
| PollLoop.OpensFollowMatches | src/main.rs:30-35 | exactly one open is attempted for each port with the configured name, in enumeration order, and none for any other |
| PollLoop.PassOpensFollowMatches | src/main.rs:27-35 | the same for the whole pass |
| PollLoop.NoMatchOnlyFinds | src/main.rs:30-32 | when no port has the configured name, the pass only reports the ports it found: nothing is opened, read or posted |
| PollLoop.StepsJustified | src/main.rs:37-47 | every read directly follows a successful open; every post directly follows a successful open, the read of a buffer and the reading extracted from that buffer; it posts the request for that reading, with the outcome the client returned for that port |
| PollLoop.PassJustified | src/main.rs:27-47 | the same for the whole pass |
| PollLoop.VisitCounts | src/main.rs:32-47 | a port yields at most one post, only if it opened, and it opens only if it has the configured name |
| PollLoop.PostsAtMostOpens | src/main.rs:30-47 | a pass posts at most once per port it opened, and opens no more ports than have the configured name: nothing is retried |
| PollLoop.OpenFailureStops | src/main.rs:49-51 | for a pass over the configured port alone, when that port does not open, the trace is the announcement, the port found and the failed open: nothing is read or posted |
| PollLoop.SinglePortPass | src/main.rs:30-47 | a pass over the configured port alone, when it opens and a reading is extracted, posts that reading once with what the client returned |
| PollLoop.BannerScenario | src/main.rs:30-47 | the device sends `BANNER`, CR LF, `{"humidity":45,"temperature":22}` and two NULs, and the controller answers 200: the pass posts `{"id": probe id, "temp": 22}`, and the outcome is delivered |
| PollLoop.ServerErrorScenario | src/main.rs:72-75 | a reading posted to a controller answering 500 ends as rejected by the server, and it is posted once only |

## Left out

- Start-up configuration is taken as a `Config` value: `.env` loading, the environment variables and the integer parsing of `PROBE_ID` (src/main.rs:18-23).
- The endless `loop` and the 500 ms `sleep` (src/main.rs:25-26) are left out. Only one pass is modelled, as `Pass`.
- The serial port timeout of 2000 ms and the baud rate constant (src/main.rs:9, 34) are not modelled. They only configure the foreign serial library.
- Serial enumeration, open and read go through the `serialport` crate (src/main.rs:28, 33-35, 40). They are foreign I/O, modelled as the `World` parameter. An enumeration failure, which panics through `expect`, ends the trace with `EnumerationFailed`.
- The HTTP client build and POST go through `reqwest` (src/main.rs:63-69). They are foreign network I/O. A `World` value gives what the client returned. The bearer header and the JSON serialization of the body map are not modelled beyond the `Request` value.
- All `println!` output is not modelled. The trace records the events that the messages report.
- Parser.Lossy: `String::from_utf8_lossy` is modelled one byte at a time. A byte below 128 stands for itself, and every other byte becomes U+FFFD. Valid multi-byte UTF-8 sequences are therefore not decoded into their characters. The delimiters NUL, CR, LF and every character the decoder accepts outside a key are ASCII, so this changes only the name in an unknown-field error, never whether a reading is produced.
- Json.Decode, Json.ParseMember, Json.ParseKey: this is a decoder for the two-field schema, not all of `serde_json`. `Json.ParseMember` refuses unknown keys and `Json.ParseKey` refuses keys with escape sequences.
  - Unknown keys are rejected here; serde skips their values by default.
  - Escape sequences inside keys are refused.
  - The JSON-array form `[h, t]` that serde also accepts for a struct is refused.
  - The error kinds are coarser than serde's, and the messages leave out line and column.
- Json.ParseInt: integers too large for 64 bits are reported as out of range. serde reads such integers as floating point and reports an invalid type.
- Json.Encode: only the encoding of a `TemperatureReading` is modelled; it is used for the round trip.
