# USB UART Click `SimpleSerial` message framer, in Dafny

The USB UART Click driver of MikroBus.Net for TinyCLR wraps its UART in a small
helper class, `SimpleSerial`. The helper reads whatever text the UART holds and
cuts it into messages that end in a delimiter (by default `"\r\n"`). The
unterminated tail of the text is kept in the `_remainder` field. On the next
read it is put in front of the new text, so a message cut in two by the timing
of the reads is still returned whole.

This project models that framer and proves its properties:

- `stringsplit.dfy` (module `StringSplit`): the library call the framer rests
  on, `input.Split(delimiter.ToCharArray())`, as a pure recursive function. The
  delimiter is a SET of separator characters, not a substring. With `"\r\n"`,
  a lone `'\r'` and a lone `'\n'` each end a segment, and `"\r\n"` leaves an
  empty segment between its two characters. n separator occurrences give
  n + 1 segments, so the result is never empty.
- `framing.dfy` (module `Framing`): what `SplitString` and `ScrubStringArray`
  compute, as functions (`SplitMessages`, `SplitRemainder`, `Scrub`), and the
  lemmas about them. The lemmas cover the remainder's shape, the absence of
  empty messages, conservation of characters, the round trip with a sender
  that terminates each message, the documented example and chunk-boundary
  independence. Most of them go through an independent reference framer,
  `CharFramer`. It reads one character at a time: a separator closes the
  pending text as a message unless that text is empty; any other character
  is appended to the pending text. `SplitIsCharFramer` proves that it agrees
  with `SplitString` on every input.
- `simpleserial.dfy` (module `UsbUart`): the class `SimpleSerial` with its
  `remainder` field. `Enable` and `Deserialize` update that field. The static
  methods `SplitString` and `ScrubStringArray` work over arrays the way the
  source does: `SplitString` overwrites the last slot of the split result in
  place, and `ScrubStringArray` runs a counting loop and then a filling loop
  into a new array. Each method is proved against the functions of `Framing`.

The `_remainder` field holds a null reference until `Enable` or `Deserialize`
first assigns it. It is modelled as `Option<string>`, where `None` is null. In
C#, `null + s` is `s`, which is what `PendingText` returns for `None`.

`ReadExisting` is not modelled. The text one call of it returns is the
`chunk` parameter of `Deserialize`.

Two facts about the code shape the model:

- The delimiter is split character by character (`SimpleSerial.cs:187`), not
  matched as a string.
- `Deserialize`'s delimiter defaults to `"\r\n"` (`SimpleSerial.cs:129`).

The `Remainder` property is documented (`SimpleSerial.cs:49-51`) as holding a
message not yet terminated by a delimiter. This is proved in the form that the
remainder holds no separator character at all (`RemainderIsTrailingRun`).

## Model

| member | source | states |
|---|---|---|
| `StringSplit.Split` | Drivers/UsbUartClick/SimpleSerial.cs:187 | `String.Split(char[])` returns one segment more than there are separator characters in the input, so never an empty array and the index `Length - 1` is always valid |
| `StringSplit.SplitReassembles` | Drivers/UsbUartClick/SimpleSerial.cs:187 | putting the separator characters back between the segments gives the input again: the split loses and reorders nothing |
| `StringSplit.SegmentsSeparatorFree` | Drivers/UsbUartClick/SimpleSerial.cs:187 | no segment of the split contains a separator character |
| `StringSplit.SplitSeparatorFree` | Drivers/UsbUartClick/SimpleSerial.cs:187 | a string with no separator character splits into itself alone |
| `Framing.ScrubLength` | Drivers/UsbUartClick/SimpleSerial.cs:219-228 | `ScrubStringArray`'s output has exactly as many entries as the input has entries different from `removeString` |
| `Framing.ScrubKeepsOrder` | Drivers/UsbUartClick/SimpleSerial.cs:230-236 | every kept input entry k appears in the output, with the delimiter appended, at the position equal to the number of entries kept before k |
| `Framing.ScrubEntryOrigin` | Drivers/UsbUartClick/SimpleSerial.cs:228-238 | output entry m is the m-th kept input entry with the delimiter appended, so the output holds nothing else and keeps the input order |
| `Framing.ScrubAppend` | Drivers/UsbUartClick/SimpleSerial.cs:231-236 | scrubbing two arrays one after the other gives the scrub of their concatenation: the scrub works entry by entry |
| `Framing.SplitIsCharFramer` | Drivers/UsbUartClick/SimpleSerial.cs:185-202 | `SplitString`'s messages and remainder equal those of the independent one-character-at-a-time framer, on every input and for both values of `includeDelimiterInOutput` |
| `Framing.SplitSnoc` | Drivers/UsbUartClick/SimpleSerial.cs:187-201 | one more input character changes `SplitString`'s result by the framer's rule: a separator turns a non-empty remainder into a message, any other character extends the remainder |
| `Framing.RemainderIsTrailingRun` | Drivers/UsbUartClick/SimpleSerial.cs:187-199 | the remainder holds no separator; it is empty exactly when the input is empty or ends in a separator; otherwise it is the input's tail after its last separator, or the whole input when there is none |
| `Framing.MessagesWellFormed` | Drivers/UsbUartClick/SimpleSerial.cs:201 | every message is a non-empty, separator-free body followed by the full delimiter when `includeDelimiterInOutput` holds, and by nothing otherwise |
| `Framing.NoEmptyMessages` | Drivers/UsbUartClick/SimpleSerial.cs:185-239 | no message is empty, so back-to-back separators such as the `'\r'` and `'\n'` of `"\r\n"` never yield one; without the delimiter appended no message contains a separator |
| `Framing.IncludedDelimiter` | Drivers/UsbUartClick/SimpleSerial.cs:201 | with `includeDelimiterInOutput` the messages are the same as without it, one for one, each with the delimiter appended |
| `Framing.Conservation` | Drivers/UsbUartClick/SimpleSerial.cs:185-202 | the messages concatenated, followed by the remainder, are exactly the input with its separator characters deleted: no other character is dropped or reordered |
| `Framing.NoSeparatorNoMessage` | Drivers/UsbUartClick/SimpleSerial.cs:185-202 | an input with no separator character gives no message, and all of it becomes the remainder; for the empty input that is no message and an empty remainder |
| `Framing.AllSeparatorsNoMessage` | Drivers/UsbUartClick/SimpleSerial.cs:185-202 | an input made only of separator characters gives no message and an empty remainder |
| `Framing.TerminatedRoundTrip` | Drivers/UsbUartClick/SimpleSerial.cs:185-202 | non-empty, separator-free messages, each followed by the delimiter and then an unterminated separator-free tail, split back into exactly those messages and that tail |
| `Framing.DocumentedExample` | Drivers/UsbUartClick/SimpleSerial.cs:144-182 | `"First message.\r\nSecond message.\r\nThird message.\r\nFourth me"` gives the three messages, with or without the delimiter appended, and the remainder `"Fourth me"` |
| `Framing.SplitAppend` | Drivers/UsbUartClick/SimpleSerial.cs:129-132 | splitting `a + b` gives the messages of `a` followed by those of `a`'s remainder plus `b`, and the same final remainder |
| `Framing.ChunkBoundaryIndependence` | Drivers/UsbUartClick/SimpleSerial.cs:129-132 | one `Deserialize` call per chunk returns, all together and in order, the messages of one call on the concatenated text, and leaves the same remainder |
| `UsbUart.SimpleSerial.constructor` | Drivers/UsbUartClick/SimpleSerial.cs:31-42 | a new helper has no remainder yet (the null `_remainder`) |
| `UsbUart.SimpleSerial.Enable` | Drivers/UsbUartClick/SimpleSerial.cs:112-116 | the remainder becomes the empty string |
| `UsbUart.SimpleSerial.Deserialize` | Drivers/UsbUartClick/SimpleSerial.cs:129-132 | returns, in a new array, the messages of the old remainder followed by the chunk, without delimiters, and replaces the remainder with that text's unterminated tail |
| `UsbUart.SimpleSerial.SplitString` | Drivers/UsbUartClick/SimpleSerial.cs:185-202 | returns a new array holding `SplitMessages` of the input, and the out parameter holds `SplitRemainder`, the functions the lemmas of `Framing` are about |
| `UsbUart.SimpleSerial.ScrubStringArray` | Drivers/UsbUartClick/SimpleSerial.cs:217-239 | the new array holds the entries different from `removeString`, in order, each with the delimiter appended (`Scrub`, about which `ScrubLength`, `ScrubKeepsOrder` and `ScrubEntryOrigin` are proved) |
| `UsbUart.EnableThenDeserialize` | Drivers/UsbUartClick/SimpleSerial.cs:112-132 | after `Enable`, one `Deserialize` of a chunk returns `SplitMessages` of the chunk alone and stores `SplitRemainder` of it, whatever the port held before; `SplitString` on the chunk returns the same messages and remainder |
| `UsbUart.DeserializeTwoChunks` | Drivers/UsbUartClick/SimpleSerial.cs:129-132 | two `Deserialize` calls with the same delimiter return between them the messages of one call on both chunks together, and leave the same remainder |

## Left out

- UART I/O is not modelled: the constructor's `ClearReadBuffer` and `ClearWriteBuffer` calls, `Write` and `WriteLine`, `ReadExistingBinary`, and the `_serial.Enable()` call in `Enable`. They are calls into the TinyCLR UART driver. `Write` passing `txt.Length` as the byte count is therefore not modelled either.
- `ReadExisting`: the UTF-8 decoding and the swallowing of its exceptions are library behaviour. The text it returns is an arbitrary `chunk` passed to `Deserialize`.
- Empty delimiter: `StringSplit.Split` then takes as separators the characters `Char.IsWhiteSpace` accepts, as the .NET `String.Split(char[])` documents for an empty separator array. TinyCLR's own native `Split` is not part of this model.
- Characters: a Dafny `char` is a Unicode scalar value, while a C# `char` is a UTF-16 code unit. For a delimiter outside the Basic Multilingual Plane, `ToCharArray()` yields its two surrogates as separate separators; the model treats the whole character as one separator, so it splits such input differently. The default `"\r\n"` is not affected.
- Null delimiter: a null `delimiter` makes line 187 throw a `NullReferenceException`; Dafny strings cannot be null, so that case is not represented.
- 32-bit bounds on array lengths and on the counters of `ScrubStringArray` are not modelled; Dafny's integers are unbounded.
- `Framing.ChunkBoundaryIndependence`: with no chunk at all there is no `Deserialize` call, so the lemma then requires the starting remainder to be free of separators, which every remainder a split leaves behind is.
- Concurrency: `SimpleSerial` takes no lock, and the model assumes one caller at a time.
- Drivers/GnssZoeClick/GnssZoeClick.cs is not part of this model: it is SPI setup, a polling thread with a lock and sleeps, and a handler that forwards to `SerialListener` and `GPSUtilities`.
- `SerialListener` and `GPSUtilities` (the NMEA sentence framer, classifier, parser, event dispatch and frame counter) are not part of this model. They are separate classes: `SimpleSerial` neither calls them nor is called by them, and `GnssZoeClick` (not `SimpleSerial`) feeds them.
- Examples/Gnss4Click/Program.cs is event wiring and debug output, with no logic to model.
