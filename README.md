# NMEA sentence pipeline and GPX name trimmer, modelled in Dafny

This project models the NMEA 0183 sentence pipeline of namespace `NMEA` in
`Task1-Programming/parseNMEA.cpp`, and the name trimmer `format_name` of
`Task2-Refactoring/parseGPX.cpp`.

The pipeline turns GPS log lines of the shape `$GPxxx,f1,f2,...*HH` into
position requests. It has these stages:

1. The format registry: GLL, GGA and RMC.
2. The well-formedness gate.
3. The XOR checksum over the characters between `$` and `*`.
4. The splitter into a format code and comma-separated data fields.
5. The marker lookup (`getValueFromDataFields`).
6. The direction resolver (`directionAndValueFinder`).
7. The format-dependent interpreter.
8. The line-by-line log processor (`positionsFromLog`). It drops every
   line that fails any stage.

Files:

- `strings.dfy` (module `Strings`) holds the standard-library pieces the
  source relies on:
  - `isalpha` and `isxdigit` in the C locale;
  - `std::count` and `std::find`;
  - hex digit values;
  - comma splitting (`Split`), the fields repeated `std::getline` calls
    yield.

  It also holds `Join`, the inverse of `Split`. The source never joins;
  `Join` serves the proofs about the splitter.
- `nmea.dfy` (module `Nmea`) holds the stages. The registry, the gate and
  the checksum are boolean predicates, as in the source. The splitter's
  `getline` loop is an imperative method proved against the function
  `SentenceDataOf`. The lookup, the direction resolver and the
  interpreter are functions returning a `Result` whose error kinds are the
  source's exceptions:
  - `NotFound`;
  - `NoPrecedingValue`;
  - `UnsupportedFormat`;
  - `TooFewFields`.
- `nmea_log.dfy` (module `NmeaLog`) holds `positionsFromLog`. It is a
  loop over the log's lines, proved equal to the filter-map
  `LogPositions`. Lemmas cover order, soundness and the dropping of bad
  lines.
- `nmea_encode.dfy` (module `NmeaEncode`) holds a sentence writer, the
  inverse of the pipeline. It is the partner for the gate, the checksum and
  the splitter. A sentence it writes passes the gate and the checksum, and
  splits back into what was written.
- `nmea_example.dfy` (module `NmeaExample`) works the GLL sentence that
  the writer produces from the fields `4916.45,N,12311.12,W,225444,A`
  through `LinePosition`, the per-line step of the log processor.
- `gpx.dfy` (module `Gpx`) holds `format_name` as the code computes it, and
  the trimming its comment describes.

`GPS::Position` is declared in `earth.h`, which is not part of this model.
Its constructor becomes the parameter
`construct: PositionRequest -> Option<P>`. It either builds a position from
the five strings or rejects them. A rejection stands for the constructor
throwing, which `positionsFromLog` swallows.

Two behaviours of the code are modelled as written:

- A well-formed sentence with no comma. `find_first_of` returns `npos`,
  which becomes -1 as an `int`. The data region is then all the text before
  the `*`, so there is one field that includes `$GP` and the format code.
  There is not an empty field list. Such a line is always dropped, because
  one field is fewer than four (`SentenceWithoutCommaIsDropped`).
- The XOR of `std::accumulate` with `std::bit_xor<char>`. Its result is a
  `char` widened back to `int`. The model takes `char` to be signed, as on
  x86. A sum with the top bit set therefore never equals the checksum
  digits. For ASCII text this is the plain comparison
  (`ChecksumOfAsciiSentence`).

## Model

| member | source | states |
|---|---|---|
| `Nmea.IsSupportedSentenceFormat` | Task1-Programming/parseNMEA.cpp:10-16 | Membership in the registry of supported formats; a supported code has three characters. |
| `Nmea.SupportedFormatCodes` | Task1-Programming/parseNMEA.cpp:10-16 | A format is supported exactly when it is GLL, GGA or RMC. Each is a three-letter code. |
| `Nmea.IsWellFormedSentence` | Task1-Programming/parseNMEA.cpp:18-66 | The gate's checks in the source's order: length at least 10, at most one `*` and one `$`, `$GP`, three letters, `*` at length-3, two hex digits. An accepted sentence starts with `$` and has `*` at length-3. |
| `Nmea.WellFormedRejects` | Task1-Programming/parseNMEA.cpp:21-34 | Every string shorter than 10 characters is rejected. So is every string with more than one `*` or more than one `$`. |
| `Nmea.WellFormedShape` | Task1-Programming/parseNMEA.cpp:18-66 | Well-formed iff: length at least 10; exactly one `$` and one `*`; `$GP` at 0-2; letters at 3-5; `*` at length-3; hex digits (either case) at the last two places. |
| `Nmea.WellFormedDelimiters` | Task1-Programming/parseNMEA.cpp:27-56 | In a well-formed sentence the only `$` is at index 0 and the only `*` is at index length-3. |
| `Nmea.ChecksumRegion` | Task1-Programming/parseNMEA.cpp:77-82 | The checksummed text is the length-4 characters strictly between `$` and `*`. It holds neither delimiter. |
| `Nmea.HasCorrectChecksum` | Task1-Programming/parseNMEA.cpp:68-85 | True iff the XOR of the checksummed bytes is below 128 and equals the base-16 value of the last two characters. |
| `Nmea.XorOfAsciiIsAscii` | Task1-Programming/parseNMEA.cpp:82 | The running XOR of ASCII characters stays below 128. |
| `Nmea.ChecksumOfAsciiSentence` | Task1-Programming/parseNMEA.cpp:68-85 | For an ASCII sentence, the checksum holds iff the two hex digits equal the XOR of the characters at indices 1 to length-4. |
| `Nmea.FirstCommaBounds` | Task1-Programming/parseNMEA.cpp:96-100 | The first comma of a well-formed sentence lies after the format code and before the `*`. So the data substring is in range. |
| `Nmea.DataRegion` | Task1-Programming/parseNMEA.cpp:96-100 | The data text is the checksummed text after the first comma, so it lies strictly between that comma and the `*`. With no comma, `npos` becomes -1 and the region is everything before the `*`, `$` included. It never holds a `*`. |
| `Nmea.ReadField` | Task1-Programming/parseNMEA.cpp:107-108 | One `getline(ss, field, ',')` reads up to the next comma, or to the end of the text. |
| `Nmea.SplitFields` | Task1-Programming/parseNMEA.cpp:103-110 | The `while (ss.good())` loop, with the stream standing for the text it has not yet consumed, yields exactly `Split(region, ',')`: every field in order, empty ones included. |
| `Strings.JoinSplit` | Task1-Programming/parseNMEA.cpp:103-110 | Joining the fields of a split with the separator gives back the text: the splitter loses no character but the commas. |
| `Strings.SplitJoin` | Task1-Programming/parseNMEA.cpp:103-110 | Splitting fields joined by the separator gives back the fields, when none holds the separator. |
| `Strings.SplitCount` | Task1-Programming/parseNMEA.cpp:103-110 | A split has one field more than the text has separators. |
| `Nmea.ParseSentenceData` | Task1-Programming/parseNMEA.cpp:87-112 | The splitter returns `SentenceDataOf(sentence)`: the characters at 3-5, and the split data region. |
| `Nmea.SentenceDataShape` | Task1-Programming/parseNMEA.cpp:91-111 | The format has 3 letters. The fields joined by `,` give back the region between the first comma and the `*`. There is one more field than there are commas. No field holds a comma. |
| `Nmea.EmptyRegionGivesOneEmptyField` | Task1-Programming/parseNMEA.cpp:103-110 | An empty data region yields `[""]`. |
| `Nmea.SentenceWithoutCommaHasOneField` | Task1-Programming/parseNMEA.cpp:96-100 | With no comma, the single field is all the text before the `*`. |
| `Nmea.GetValueFromDataFields` | Task1-Programming/parseNMEA.cpp:114-130 | `NotFound` iff the marker is absent. `NoPrecedingValue` iff it is field 0. Otherwise returns the field just before the marker's first occurrence. |
| `Nmea.DirectionAndValueFinder` | Task1-Programming/parseNMEA.cpp:132-142 | When the positive marker occurs, its lookup decides, paired with the positive character. Otherwise the negative marker's lookup decides, and its failure is passed on unchanged. `NotFound` iff neither marker occurs. |
| `Nmea.ValueBeforeMarker` | Task1-Programming/parseNMEA.cpp:114-125 | At the marker's first occurrence, past field 0, the lookup returns the field just before it. |
| `Nmea.PositiveMarkerPreferred` | Task1-Programming/parseNMEA.cpp:134-137 | With both markers present and the positive one not first, the result is the positive direction and the value before it. |
| `Nmea.InterpretSentenceData` | Task1-Programming/parseNMEA.cpp:144-165 | Unsupported format gives `UnsupportedFormat`. Fewer than 4 fields gives `TooFewFields`. Success iff the elevation lookup (GGA only), latitude (N/S) and longitude (E/W) all succeed. Elevation is `"0"` except for GGA, where it is the value before `"M"`. |
| `Nmea.InterpretsTo` | Task1-Programming/parseNMEA.cpp:144-165 | Once the format, the field count, the GGA elevation lookup and both finders succeed, the request is the two directed values and the elevation, in that order. |
| `Nmea.InterpretFailureOrder` | Task1-Programming/parseNMEA.cpp:146-163 | A missing GGA elevation marker is reported before latitude. A latitude failure is reported unchanged, and so is a longitude failure once latitude succeeds. |
| `Nmea.InterpretGllExample` | Task1-Programming/parseNMEA.cpp:156-164 | The GLL fields `4916.45,N,12311.12,W,225444,A` give `("4916.45",'N',"12311.12",'W',"0")`. |
| `Nmea.InterpretGgaExample` | Task1-Programming/parseNMEA.cpp:156-164 | GGA fields with `545.4,M` take elevation `545.4`. |
| `NmeaLog.LinePosition` | Task1-Programming/parseNMEA.cpp:173-188 | A line yields a position iff it is well-formed, its checksum is correct, its format is supported, it interprets, and the constructor accepts the request. The position is the constructor's. |
| `NmeaLog.LogPositions` | Task1-Programming/parseNMEA.cpp:167-192 | The positions of a log are those of its lines in order, each line contributing its `LinePosition` or nothing; at most one per line. |
| `NmeaLog.PositionsFromLog` | Task1-Programming/parseNMEA.cpp:167-192 | The loop over the lines returns `LogPositions(log)`. |
| `NmeaLog.LogPositionsAppend` | Task1-Programming/parseNMEA.cpp:169-190 | The positions of `a + b` are those of `a` followed by those of `b`. Input order is kept, and no line affects another. |
| `NmeaLog.LogPositionsSingle` | Task1-Programming/parseNMEA.cpp:171-188 | A one-line log gives exactly that line's position, or nothing. |
| `NmeaLog.LogPositionsSound` | Task1-Programming/parseNMEA.cpp:182-185 | There are never more positions than lines. Every position is yielded by some line of the log. |
| `NmeaLog.LogPositionsNoneAccepted` | Task1-Programming/parseNMEA.cpp:174-188 | A log none of whose lines yields a position gives `[]`. This covers the empty log and a log of malformed lines. |
| `NmeaLog.OneAcceptedLineAmongRejected` | Task1-Programming/parseNMEA.cpp:171-190 | One accepted line between lines that yield nothing (malformed, bad checksum, unsupported, uninterpretable or refused by the constructor) gives exactly its position. |
| `NmeaLog.SentenceWithoutCommaIsDropped` | Task1-Programming/parseNMEA.cpp:151-153 | A well-formed line without a comma never yields a position. |
| `NmeaEncode.EncodeRoundTrip` | Task1-Programming/parseNMEA.cpp:18-111 | A written sentence passes the gate and has a correct checksum. It splits back into the written format and fields. The fields must be ASCII, free of delimiters, and at least one. |
| `NmeaEncode.EncodedLineYieldsPosition` | Task1-Programming/parseNMEA.cpp:167-192 | A written line whose data interprets gives the constructor's position for that request. |
| `NmeaExample.GllLinePosition` | Task1-Programming/parseNMEA.cpp:167-192 | The GLL example line yields the constructor's position for `("4916.45",'N',"12311.12",'W',"0")`. |
| `NmeaExample.MalformedLines` | Task1-Programming/parseNMEA.cpp:23-41 | A 9-character line and a line without the leading `$` are rejected. |
| `Gpx.FirstNonSpace` | Task2-Refactoring/parseGPX.cpp:38 | `find_first_not_of(' ')`: every character before the result is a space, and the result is a non-space or the end. |
| `Gpx.LastNonSpace` | Task2-Refactoring/parseGPX.cpp:39 | `find_last_not_of(' ')`: every character after the result is a space, and the result is a non-space or -1. |
| `Gpx.FormatName` | Task2-Refactoring/parseGPX.cpp:33-44 | Empty iff the name is blank. Never longer than the name. Otherwise a substring that starts at the first non-space (so not with `' '`) and is `min(len - first, last + 1)` long. |
| `Gpx.FormatNameWithoutLeadingSpace` | Task2-Refactoring/parseGPX.cpp:38-41 | With no leading space, the result is the name up to its last non-space. All trailing spaces are gone. |
| `Gpx.FormatNameKeepsOtherCharacters` | Task2-Refactoring/parseGPX.cpp:34-39 | Only `' '` is blank: a name without spaces, tabs and newlines included, is returned unchanged. |
| `Gpx.TrimSpaces` | Task2-Refactoring/parseGPX.cpp:32 | The trimming the comment describes: the name minus its leading and trailing spaces. |
| `Gpx.FormatNameTrimsIff` | Task2-Refactoring/parseGPX.cpp:38-41 | `format_name` equals trimming iff the name is blank, or does not start with a space, or does not end with one. |
| `Gpx.FormatNameKeepsTrailingSpaces` | Task2-Refactoring/parseGPX.cpp:40-41 | `"  a  "` becomes `"a  "`, where trimming gives `"a"`. |

## Findings

| source | as written | input that shows it | evidently intended | confidence | as-written member | corrected member |
|---|---|---|---|---|---|---|
| Task2-Refactoring/parseGPX.cpp:40-41 | `substr(first, last + 1)` passes a count where an end position is meant, so trailing spaces survive when there are leading ones | `"  a  "` gives `"a  "` | `"a"`: both leading and trailing spaces removed, as the comment at :32 says | high, not executed | `Gpx.FormatName`, `Gpx.FormatNameKeepsTrailingSpaces` | `Gpx.TrimSpaces`, `Gpx.FormatNameTrimsIff` |

## Left out

- Reading the stream. `std::getline` on the `istream` is I/O, so the log is the sequence of its lines, already cut at the newlines.
- `GPS::Position` and its numeric parsing and validation. They live in `earth.h`, which is not part of this model. The constructor is the parameter `construct`.
- Bytes of 0x80 and above. `isalpha`, `isxdigit` and `bit_xor<char>` on such bytes depend on the platform. The character classes are those of the C locale on ASCII. A character is read as the byte `c % 256`, and the XOR result is taken as a signed `char`. On platforms where `char` is unsigned, a sentence whose XOR is 0x80 or more would be checked differently.
- The `assert` aborts at parseNMEA.cpp:70 and :89. They become `requires IsWellFormedSentence(...)` on `HasCorrectChecksum`, `DataRegion`, `SentenceDataOf` and `ParseSentenceData`.
- `std::stoi` in base 16. It is modelled as the value of the two hex digits, which the gate guarantees.
- The error messages. The source's `std::invalid_argument` exceptions become the four `Error` kinds, without their text.
- NmeaExample.GllLinePosition: the line is written by `EncodeSentence`, so its checksum digits are the computed ones. That they are the characters `31` is not proved character by character.
- The rest of `Task2-Refactoring/parseGPX.cpp`. That is `convert_source`, which does file I/O and calls the XML parser, and the wrappers over the XML element API (`check_source_element_is_valid`, `get_name`, `get_next_position`, `validate_sub_element`, `get_track_data`, `parseRoute`, `parseTrack`). The XML library is not part of this model. `get_time` depends on locale time parsing.
- `Task2-Refactoring/parseGPX.h` holds declarations only.
- `Task3-Testing/maxSpeed.cpp` is a unit-test suite for `Track::maxSpeed`. That code is not part of this model, and its checks use floating-point tolerances.
