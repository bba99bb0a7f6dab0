# AIS message 5 decoder — a Dafny model

This project models `AISMessage05Parser` of marine-api. The class decodes
AIS message 5, "Ship static and voyage related data" (ITU-R M.1371,
Annex 8, section 3.3), from the decoded six-bit payload of an AIVDM/AIVDO
sentence. Its constructor works in three steps:

1. It checks that the payload is between 424 and 550 bits long.
2. It reads each field through a table of 0-based, end-exclusive bit ranges
   (`FROM`/`TO`).
3. It keeps the values in final fields, which the getters return.

The reads are unsigned big-endian integers (`getInt`), six-bit ASCII texts
passed through `String.trim()` (`getString`), and one flag (`getBoolean`).
`getMaximumDraught` scales the stored tenths of a metre to metres.

The model is pure, like the class it models. The object is constructed once
and never changes afterwards.

- The payload is a `seq<bool>` and the record is a datatype.
- The constructor is `AisMessage05.Decode`, which returns `Ok(message)` or
  the length error.

Modules:

- `Bits` holds unsigned big-endian integers over bit strings.
- `Sixbit` holds range extraction and the six-bit ASCII table.
- `JavaString` holds `String.trim()`.
- `AisParser` holds the envelope check of the parser base class and the
  result type.
- `FieldTable` covers field tables in general: well-formedness, and how a
  payload is laid out by one.
- `AisMessage05` holds the table, the record and the decoder, with their
  properties.
- `AisMessage05Encoding` holds a transmitter-side encoder laid out by the
  same table. It is the partner of the decoder, and the round trip
  `Decode(Encode(header, m)) == Ok(m)` is proved for every valid `m` after any
  38-bit header.

## Model

| member | source | states |
|---|---|---|
| AisMessage05.TableIsWellFormed | src/main/java/net/sf/marineapi/ais/parser/AISMessage05Parser.java:79-81 | The table has 16 starts and 17 ends. Every range is non-empty, and each range starts where the previous one ends. The first range starts after the 38-bit common header and the destination ends at bit 422. The DTE flag is read at bit 423, which is below the 424-bit minimum. |
| AisMessage05.WidthsMatchLayout | src/main/java/net/sf/marineapi/ais/parser/AISMessage05Parser.java:32-53 | The width of each range equals the layout's bit count: version 2, IMO 30, call sign 42 (7 characters), name 120 (20), ship type 8, bow 9, stern 9, port 6, starboard 6 (together the 30-bit dimension), EPFD 4, ETA month 4, day 5, hour 5, minute 6, draught 8, destination 120 (20). |
| AisMessage05.ReadsInBounds | src/main/java/net/sf/marineapi/ais/parser/AISMessage05Parser.java:108-129 | A payload that passed the 424-bit minimum holds every range and the DTE bit, so no read is out of bounds. |
| AisMessage05.DimensionIsOneField | src/main/java/net/sf/marineapi/ais/parser/AISMessage05Parser.java:115-118 | Read as one number, the documented 30-bit dimension field (layout line 42) is bow, stern, port and starboard side by side: ((bow·512 + stern)·64 + port)·64 + starboard. |
| FieldTable.Ordered | src/main/java/net/sf/marineapi/ais/parser/AISMessage05Parser.java:79-81 | In a contiguous table of non-empty ranges, an earlier field ends at or before a later one starts, so no two fields overlap. |
| FieldTable.Span | src/main/java/net/sf/marineapi/ais/parser/AISMessage05Parser.java:79-81 | Every range of such a table lies between the first start and the last end. |
| FieldTable.FieldOfConcat | src/main/java/net/sf/marineapi/ais/parser/AISMessage05Parser.java:79-81 | A payload built from a header of `FROM[0]` bits and one piece per field, each as wide as its range, has field k's piece exactly at `[FROM[k], TO[k])`. |
| AisParser.CheckLength | src/main/java/net/sf/marineapi/ais/parser/AISMessage05Parser.java:108 | A payload is accepted iff its bit count lies in [min, max]. Otherwise the error carries the length and the envelope. |
| AisMessage05.Decode | src/main/java/net/sf/marineapi/ais/parser/AISMessage05Parser.java:107-130 | Decoding succeeds iff 424 ≤ length ≤ 550. A payload outside the envelope gives exactly the length error and no message. The DTE flag is the bit at `TO[DTE]`. |
| AisMessage05.IntField | src/main/java/net/sf/marineapi/ais/parser/AISMessage05Parser.java:109-127 | The integer field i, read with `getInt(FROM[i], TO[i])`, is below 2^width. |
| AisMessage05.TextField | src/main/java/net/sf/marineapi/ais/parser/AISMessage05Parser.java:111-128 | The text field i, read with `getString(FROM[i], TO[i]).trim()`, has at most width/6 characters, all from the six-bit alphabet, and is trimmed at both ends. |
| AisMessage05.DecodedFields | src/main/java/net/sf/marineapi/ais/parser/AISMessage05Parser.java:109-129 | Each getter of a decoded message returns the value of its own bit range in the layout's positions. For example, the call sign is `trim(getString(70,112))`, the draught is `getInt(294,302)`, and the DTE flag is bit 423. |
| AisMessage05.TrimmedFieldText | src/main/java/net/sf/marineapi/ais/parser/AISMessage05Parser.java:111-112 | A trimmed six-bit text is no longer than the text before trimming, stays in the alphabet, and has nothing at or below the space at either end. |
| AisMessage05.DecodedIsValid | src/main/java/net/sf/marineapi/ais/parser/AISMessage05Parser.java:109-128 | Every decoded message has in-range fields: version < 4, IMO < 2^30, ship type < 256, bow and stern < 512, port and starboard < 64, EPFD and month < 16, day and hour < 32, minute < 64, draught < 256. Call sign, name and destination are trimmed six-bit texts of at most 7, 20 and 20 characters. |
| AisMessage05.Message05.MaximumDraught | src/main/java/net/sf/marineapi/ais/parser/AISMessage05Parser.java:203-205 | `getMaximumDraught` is non-negative, and ten times it is the stored raw draught. |
| AisMessage05.DecodedDraughtRange | src/main/java/net/sf/marineapi/ais/parser/AISMessage05Parser.java:203-205 | The draught of any decoded message lies in [0, 25.5] metres. |
| AisMessage05.DraughtExample | src/main/java/net/sf/marineapi/ais/parser/AISMessage05Parser.java:203-205 | A raw draught of 78 tenths reads as 7.8 metres. |
| AisMessage05.FieldsAgree | src/main/java/net/sf/marineapi/ais/parser/AISMessage05Parser.java:109-128 | Two payloads of the same length that agree on every range of the table read the same integer and text fields. |
| AisMessage05.DecodeReadsOnlyTable | src/main/java/net/sf/marineapi/ais/parser/AISMessage05Parser.java:107-130 | The decoder depends only on the length, the table's ranges and the DTE bit. Payloads that agree there decode alike, whatever the header, bit 422 and the bits after 423 hold. |
| AisMessage05.Bit422IsNotRead | src/main/java/net/sf/marineapi/ais/parser/AISMessage05Parser.java:129 | Flipping bit 422 never changes the decoded message. The layout (line 50) documents the DTE flag at 1-based position 423, which is 0-based bit 422, but `getBoolean(TO[DTE])` reads bit 423. |
| AisMessage05Encoding.ValueFits | src/main/java/net/sf/marineapi/ais/parser/AISMessage05Parser.java:32-53 | Every value of a valid message fits the width of its range, and every text value is trimmed. |
| AisMessage05Encoding.EncodedRange | src/main/java/net/sf/marineapi/ais/parser/AISMessage05Parser.java:79-81 | In an encoded payload, range i holds exactly the bits of field i. |
| AisMessage05Encoding.EncodedDte | src/main/java/net/sf/marineapi/ais/parser/AISMessage05Parser.java:129 | An encoded payload is 424 bits long, and its bit 423 is the DTE flag. |
| AisMessage05Encoding.TextReadsBack | src/main/java/net/sf/marineapi/ais/parser/AISMessage05Parser.java:111-112 | A trimmed six-bit text, space-padded into a range, reads back after `getString` and `trim` as the same text. |
| AisMessage05Encoding.AtPaddingIsKept | src/main/java/net/sf/marineapi/ais/parser/AISMessage05Parser.java:111-112 | A trimmed six-bit text padded with any number of '@' characters (six-bit value 0) reads back through `getString` and `trim` with its '@' padding intact, because `trim` removes only characters at or below the space. |
| AisMessage05Encoding.FieldReadsBack | src/main/java/net/sf/marineapi/ais/parser/AISMessage05Parser.java:109-128 | In a laid-out payload, each range reads back as the value it carries: a number through `getInt`, a text through `getString` and `trim`. |
| AisMessage05Encoding.DecodeLaidOut | src/main/java/net/sf/marineapi/ais/parser/AISMessage05Parser.java:107-130 | Take a payload inside the envelope that holds the fields of a valid message in the table's ranges and its DTE flag at bit 423. It decodes to that message. |
| AisMessage05Encoding.DecodeEncode | src/main/java/net/sf/marineapi/ais/parser/AISMessage05Parser.java:107-130 | Round trip: a valid message, encoded after any 38-bit header, decodes to the same message. |
| JavaString.Trim | src/main/java/net/sf/marineapi/ais/parser/AISMessage05Parser.java:111 | `trim()` returns the contiguous middle of the string that starts after the leading characters at or below the space. It is no longer than the input, and neither end of it is at or below the space. |
| JavaString.TrimIsUnique | src/main/java/net/sf/marineapi/ais/parser/AISMessage05Parser.java:111 | Whatever cut of trimmable characters at both ends leaves a trimmed middle, `trim()` returns that middle. |
| JavaString.TrimOfTrimmed | src/main/java/net/sf/marineapi/ais/parser/AISMessage05Parser.java:112 | `trim()` leaves an already trimmed string unchanged. |
| JavaString.TrimIdempotent | src/main/java/net/sf/marineapi/ais/parser/AISMessage05Parser.java:128 | Applying `trim()` twice is the same as applying it once. |
| JavaString.TrimOfPadded | src/main/java/net/sf/marineapi/ais/parser/AISMessage05Parser.java:128 | A trimmed text followed by trailing spaces trims back to itself. |
| Sixbit.GetInt | src/main/java/net/sf/marineapi/ais/parser/AISMessage05Parser.java:109 | `getInt(from, to)` is the unsigned value of bits [from, to), below 2^(to−from). |
| Sixbit.GetIntSplit | src/main/java/net/sf/marineapi/ais/parser/AISMessage05Parser.java:115-118 | A range read as one number is the big-endian concatenation of its two parts at any split point. |
| Sixbit.GetString | src/main/java/net/sf/marineapi/ais/parser/AISMessage05Parser.java:111 | `getString(from, to)` has one character per six-bit group, and character k is the six-bit ASCII character of group k. |
| Sixbit.GetStringOfTextBits | src/main/java/net/sf/marineapi/ais/parser/AISMessage05Parser.java:111 | Text written as six-bit codes into a range reads back unchanged. |
| Sixbit.GetStringLocal | src/main/java/net/sf/marineapi/ais/parser/AISMessage05Parser.java:112 | `getString` reads nothing outside its range. |
| Sixbit.CharOf | src/main/java/net/sf/marineapi/ais/parser/AISMessage05Parser.java:111 | The six-bit ASCII table: 0–31 map to '@'–'_' (code + 64), and 32–63 map to ' '–'?' (the code itself). |
| Sixbit.ValueOfCharOf | src/main/java/net/sf/marineapi/ais/parser/AISMessage05Parser.java:111 | The six-bit table is one-to-one: a code's character gives that code back. |
| Sixbit.GetBoolean | src/main/java/net/sf/marineapi/ais/parser/AISMessage05Parser.java:129 | `getBoolean(index)` is true exactly when the one-bit range at 0-based index reads 1. |
| Bits.ToBitsOfUInt | src/main/java/net/sf/marineapi/ais/parser/AISMessage05Parser.java:109 | Big-endian reading and writing at a fixed width are inverse: writing back a string's value gives the string. |
| Bits.UIntAppend | src/main/java/net/sf/marineapi/ais/parser/AISMessage05Parser.java:109 | The value of a concatenation is the first part shifted left past the second, plus the second. |

## Left out

- The `Sixbit` class is not part of this model. Its de-armouring of the sentence characters into bits, its fill bits and its range checks are not modelled. The payload arrives here as the bit sequence it produces. `getInt`, `getString` and `getBoolean` are modelled from their names and their use: 0-based, end-exclusive, big-endian.
- `AISMessageParser` (the base class) is not part of this model beyond its envelope check. Its exception type is modelled as the `LengthError` result. The common header (message id, repeat indicator, MMSI; bits 0–37) is read by the base class, so it is not modelled.
- Sixbit.GetString: it requires the range to be a whole number of six-bit characters. All three text ranges of message 5 are (42, 120 and 120 bits), so the model does not say what a ragged range would give.
- Sixbit.GetBoolean: the model reads the 0-based bit `index`, like `getInt`. The index base of `getBoolean` is not visible in this source. The flag therefore comes from bit 423, although the layout comment places the DTE flag at 1-based position 423, which is bit 422. The table itself also supports the other reading. `TO` has one entry more than `FROM`, so under the table's own half-open convention the DTE range would be `[TO[DESTINATION], TO[DTE]) = [422, 423)`. A `getBoolean` that reads the bit ending at its index would therefore read the documented bit 422. `Bit422IsNotRead` states the consequence of the reading modelled here. No correction is modelled, because the intended reading cannot be settled without the `Sixbit` class.
- AisMessage05.Message05.MaximumDraught: it returns an exact `real`, not an IEEE double, so rounding is not modelled (78 tenths gives exactly 7.8).
- Java `int` width: every integer field is at most 30 bits wide, so it fits a Java `int` without overflow. Fields are therefore `nat`, with the width bound proved.
- `toString` (lines 217-231) is left out because it only formats text for display.
- `ZDASentence` is left out because it is unrelated to message 5.
- NMEA sentence framing, checksums and multi-sentence assembly happen before this class and are left out.
- The encoder in `AisMessage05Encoding` is not in the source. It exists to give the decoder a round-trip partner. It pads texts with spaces, and clears bit 422, which no range of the table reads (the layout comment puts the DTE flag there; see `Bit422IsNotRead`).
- Three behaviours of the code that a reader of ITU-R M.1371 may not expect:
  - `trim()` strips characters at or below the space at BOTH ends, so leading spaces are removed too.
  - `trim()` keeps the '@' padding character (six-bit value 0), as `AtPaddingIsKept` states.
  - Payloads longer than 550 bits are rejected, because the envelope `(424, 550)` is passed to the base class.
