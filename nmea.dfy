/** The stages of the NMEA 0183 sentence pipeline in namespace NMEA of
    Task1-Programming/parseNMEA.cpp: format registry, well-formedness gate,
    checksum, splitter, marker lookup, direction resolution and the
    format-dependent interpreter. A sentence has the shape
    `$GPxxx,f1,f2,...*HH`. */
module Nmea {
  import opened Strings

  /** A split sentence: the three-letter format code and the data fields. */
  datatype SentenceData = SentenceData(format: string, dataFields: seq<string>)

  /** The failures the interpreter stages raise as std::invalid_argument. */
  datatype Error =
    | NotFound          // "Value not found."
    | NoPrecedingValue  // "Index found at position 0. No corresponding value found"
    | UnsupportedFormat // "Invalid data format."
    | TooFewFields      // "DataFields is not the required minimum size."

  datatype Result<T> = Success(value: T) | Failure(error: Error)

  /** A value together with the direction character that signs it. */
  datatype DirectedValue = DirectedValue(value: string, direction: char)

  /** The five strings handed to the GPS::Position constructor. */
  datatype PositionRequest = PositionRequest(
    latitude: string, latitudeDirection: char,
    longitude: string, longitudeDirection: char,
    elevation: string)

  /** The supported format codes, kept as data so that more can be added. */
  const SupportedFormats: seq<string> := ["GLL", "GGA", "RMC"]

  /** The only format that carries an elevation. */
  const ElevationFormat: string := "GGA"

  const MinSentenceLength: nat := 10

  /** A sentence needs latitude, its direction, longitude and its direction. */
  const MinDataFields: nat := 4

  // ---------------------------------------------------------------------
  // Format registry

  predicate IsSupportedSentenceFormat(format: string)
    ensures IsSupportedSentenceFormat(format) ==> |format| == 3
  {
    format in SupportedFormats
  }

  /** The registry holds GLL, GGA and RMC, each a three-letter code of the
      kind the well-formedness gate lets through. */
  lemma SupportedFormatCodes(format: string)
    ensures IsSupportedSentenceFormat(format) <==> format == "GLL" || format == "GGA" || format == "RMC"
    ensures IsSupportedSentenceFormat(format) ==>
              |format| == 3 && forall i :: 0 <= i < 3 ==> IsAlpha(format[i])
  {
  }

  // ---------------------------------------------------------------------
  // Well-formedness gate

  /** The structural gate, with its checks in the source's order. Only the
      counts of '*' and '$' are bounded here; their presence follows from the
      position checks after it. */
  predicate IsWellFormedSentence(s: string)
    ensures IsWellFormedSentence(s) ==> |s| >= MinSentenceLength && s[0] == '$' && s[|s| - 3] == '*'
  {
    if |s| < MinSentenceLength then false
    else if Count(s, '*') > 1 || Count(s, '$') > 1 then false
    else if s[..3] != "$GP" then false
    else if !(IsAlpha(s[3]) && IsAlpha(s[4]) && IsAlpha(s[5])) then false
    else if s[|s| - 3] != '*' then false
    else IsHexDigit(s[|s| - 2]) && IsHexDigit(s[|s| - 1])
  }

  /** The gate rejects every string shorter than ten characters and every
      string with a second '*' or a second '$'. */
  lemma WellFormedRejects(s: string)
    ensures |s| < 10 ==> !IsWellFormedSentence(s)
    ensures Count(s, '*') > 1 || Count(s, '$') > 1 ==> !IsWellFormedSentence(s)
  {
  }

  /** The gate as one conjunction: the prefix, the letters of the format
      code, the '*' three from the end and two hex digits; and exactly one
      '$' and exactly one '*'. */
  lemma WellFormedShape(s: string)
    ensures IsWellFormedSentence(s) <==>
      && |s| >= 10
      && Count(s, '$') == 1 && Count(s, '*') == 1
      && s[0] == '$' && s[1] == 'G' && s[2] == 'P'
      && IsAlpha(s[3]) && IsAlpha(s[4]) && IsAlpha(s[5])
      && s[|s| - 3] == '*'
      && IsHexDigit(s[|s| - 2]) && IsHexDigit(s[|s| - 1])
  {
    if |s| >= 10 {
      assert s[0] == '$' && s[1] == 'G' && s[2] == 'P' <==> s[..3] == "$GP";
    }
  }

  /** In a well-formed sentence the only '$' is the first character and the
      only '*' is the one three from the end. */
  lemma {:induction false} WellFormedDelimiters(s: string, i: nat)
    requires IsWellFormedSentence(s)
    requires i < |s|
    ensures s[i] == '$' <==> i == 0
    ensures s[i] == '*' <==> i == |s| - 3
  {
    assert s[0] == "$GP"[0];
    if i != 0 && s[i] == '$' {
      CountTwoPositions(s, '$', 0, i);
    }
    if i < |s| - 3 && s[i] == '*' {
      CountTwoPositions(s, '*', i, |s| - 3);
    }
  }

  // ---------------------------------------------------------------------
  // Checksum

  /** A character read as the byte std::string stores. */
  function Byte(c: char): bv8
  {
    ((c as int) % 256) as bv8
  }

  /** The running XOR of the bytes of `s`, left to right from 0, as
      std::accumulate with std::bit_xor<char> computes it. */
  function XorBytes(s: string): bv8
  {
    if s == [] then 0 else XorBytes(s[..|s| - 1]) ^ Byte(s[|s| - 1])
  }

  /** A byte read back as a signed char and widened to int. */
  function SignedChar(b: bv8): int
  {
    if b < 128 then b as int else b as int - 256
  }

  /** The two checksum digits read by std::stoi with base 16. */
  function ChecksumValue(s: string): (v: nat)
    requires |s| >= 2 && IsHexDigit(s[|s| - 2]) && IsHexDigit(s[|s| - 1])
    ensures v < 256
  {
    HexValue(s[|s| - 2]) * 16 + HexValue(s[|s| - 1])
  }

  /** The text the checksum covers: strictly between the '$' and the '*'. */
  function ChecksumRegion(s: string): (region: string)
    requires IsWellFormedSentence(s)
    ensures '$' !in region && '*' !in region
    ensures |region| == |s| - 4
  {
    var region := s[1..|s| - 3];
    assert forall k :: 0 <= k < |region| ==> region[k] == s[k + 1];
    forall k | 0 <= k < |region|
      ensures region[k] != '$' && region[k] != '*'
    {
      WellFormedDelimiters(s, k + 1);
    }
    region
  }

  /** The checksum comparison. The XOR is a signed char, so a sentence whose
      XOR has its top bit set never matches the non-negative digits; below
      that bit it is the plain comparison of the two values. */
  function HasCorrectChecksum(s: string): (r: bool)
    requires IsWellFormedSentence(s)
    ensures r <==> XorBytes(ChecksumRegion(s)) < 128
                   && XorBytes(ChecksumRegion(s)) as int == ChecksumValue(s)
  {
    ChecksumValue(s) == SignedChar(XorBytes(ChecksumRegion(s)))
  }

  predicate IsAscii(s: string)
  {
    forall k :: 0 <= k < |s| ==> s[k] < 128 as char
  }

  lemma {:induction false} XorOfAsciiIsAscii(s: string)
    requires IsAscii(s)
    ensures XorBytes(s) < 128
  {
    if s != [] {
      XorOfAsciiIsAscii(s[..|s| - 1]);
      var a, b := XorBytes(s[..|s| - 1]), Byte(s[|s| - 1]);
      assert b < 128;
      assert a ^ b < 128;
    }
  }

  /** For an ASCII sentence the checksum holds exactly when the two hex
      digits equal the XOR of the characters between '$' and '*'. */
  lemma ChecksumOfAsciiSentence(s: string)
    requires IsWellFormedSentence(s) && IsAscii(s)
    ensures HasCorrectChecksum(s) <==> XorBytes(s[1..|s| - 3]) as int == ChecksumValue(s)
  {
    assert IsAscii(s[1..|s| - 3]);
    XorOfAsciiIsAscii(s[1..|s| - 3]);
  }

  // ---------------------------------------------------------------------
  // Sentence splitter

  /** The index of the first comma of a well-formed sentence that has one:
      after the format code and before the '*'. */
  lemma FirstCommaBounds(s: string)
    requires IsWellFormedSentence(s) && ',' in s
    ensures 6 <= FirstIndex(s, ',') <= |s| - 4
  {
    WellFormedFrameHasNoComma(s);
  }

  /** The six characters of "$GP" and the format code, and the last three
      of "*HH", are never commas. */
  lemma WellFormedFrameHasNoComma(s: string)
    requires IsWellFormedSentence(s)
    ensures forall k :: 0 <= k < 6 ==> s[k] != ','
    ensures forall k :: |s| - 3 <= k < |s| ==> s[k] != ','
  {
    assert s[..3] == "$GP";
    assert s[0] == '$' && s[1] == 'G' && s[2] == 'P';
  }

  /** The text that is split into data fields: the part of the checksummed
      text after the first comma, so it lies strictly between that comma and
      the '*'. Without a comma std::string::npos turns into -1, and the
      substring taken is everything before the '*', the '$' included. */
  function DataRegion(s: string): (region: string)
    requires IsWellFormedSentence(s)
    ensures ',' in s ==> region == s[FirstIndex(s, ',') + 1..|s| - 3]
    ensures ',' !in s ==> region == s[..|s| - 3]
    ensures ',' in s ==> region == ChecksumRegion(s)[FirstIndex(s, ',')..]
    ensures ',' !in s ==> region == "$" + ChecksumRegion(s)
    ensures '*' !in region
  {
    var p := FirstIndex(s, ',');
    var checked := ChecksumRegion(s);
    if p < |s| then
      FirstCommaBounds(s);
      assert s[p + 1..|s| - 3] == checked[p..];
      s[p + 1..|s| - 3]
    else
      assert s[..3] == "$GP";
      assert s[..|s| - 3] == [s[0]] + checked;
      s[..|s| - 3]
  }

  /** What parseSentenceData returns for a well-formed sentence. */
  function SentenceDataOf(s: string): SentenceData
    requires IsWellFormedSentence(s)
  {
    SentenceData(s[3..6], Split(DataRegion(s), ','))
  }

  /** One std::getline(ss, field, ','): the length of the field at the
      front of the unread text, which ends at the next comma or at the end. */
  method ReadField(unread: string) returns (end: nat)
    ensures end == FirstIndex(unread, ',')
  {
    end := 0;
    while end < |unread| && unread[end] != ','
      invariant end <= |unread|
      invariant ',' !in unread[..end]
    {
      end := end + 1;
    }
    FirstIndexUnique(unread, ',', end);
  }

  /** The getline loop of the splitter: fields are read from a string
      stream over `region`, here the text it has not yet consumed, as long
      as the stream stays good. */
  method SplitFields(region: string) returns (fields: seq<string>)
    ensures fields == Split(region, ',')
  {
    fields := [];
    var unread := region;
    var good := true;
    while good
      invariant good ==> fields + Split(unread, ',') == Split(region, ',')
      invariant !good ==> fields == Split(region, ',')
      decreases |unread|, good
    {
      var end := ReadField(unread);
      SplitHead(unread, ',');
      var field := unread[..end];
      if end < |unread| {
        ghost var later := Split(unread[end + 1..], ',');
        assert Split(unread, ',') == [field] + later;
        assert fields + ([field] + later) == (fields + [field]) + later;
        fields := fields + [field];
        unread := unread[end + 1..];
      } else {
        assert field == unread && Split(unread, ',') == [field];
        fields := fields + [field];
        good := false;
      }
    }
  }

  /** The splitter, proved to compute SentenceDataOf. */
  method ParseSentenceData(sentence: string) returns (data: SentenceData)
    requires IsWellFormedSentence(sentence)
    ensures data == SentenceDataOf(sentence)
  {
    var format := sentence[3..6];
    var fields := SplitFields(DataRegion(sentence));
    data := SentenceData(format, fields);
  }

  /** The format code is the three letters after "$GP", and joining the
      fields with commas gives back exactly the data region: empty fields
      are kept in order, and there is one field more than there are commas
      in the region. */
  lemma SentenceDataShape(s: string)
    requires IsWellFormedSentence(s)
    ensures |SentenceDataOf(s).format| == 3
    ensures forall i :: 0 <= i < 3 ==> IsAlpha(SentenceDataOf(s).format[i])
    ensures Join(SentenceDataOf(s).dataFields, ',') == DataRegion(s)
    ensures |SentenceDataOf(s).dataFields| == Count(DataRegion(s), ',') + 1
    ensures forall k :: 0 <= k < |SentenceDataOf(s).dataFields| ==> ',' !in SentenceDataOf(s).dataFields[k]
  {
    var region := DataRegion(s);
    assert SentenceDataOf(s).dataFields == Split(region, ',');
    JoinSplit(region, ',');
    SplitCount(region, ',');
    SplitFieldsAvoidSeparator(region, ',');
  }

  /** A sentence whose data region is empty, such as "$GPGLL,*7C", yields
      a single empty field. */
  lemma EmptyRegionGivesOneEmptyField(s: string)
    requires IsWellFormedSentence(s) && DataRegion(s) == ""
    ensures SentenceDataOf(s).dataFields == [""]
  {
  }

  /** A well-formed sentence without a comma gives a single field: all of
      the text before the '*', "$GP" and format code included. */
  lemma SentenceWithoutCommaHasOneField(s: string)
    requires IsWellFormedSentence(s) && ',' !in s
    ensures SentenceDataOf(s).dataFields == [s[..|s| - 3]]
  {
    assert ',' !in s[..|s| - 3];
  }

  // ---------------------------------------------------------------------
  // Marker lookup and direction resolution

  /** The field just before the first field equal to `marker`. */
  function GetValueFromDataFields(data: SentenceData, marker: string): (r: Result<string>)
    ensures r == Failure(NotFound) <==> marker !in data.dataFields
    ensures r == Failure(NoPrecedingValue) <==>
              |data.dataFields| > 0 && data.dataFields[0] == marker
    ensures r.Failure? ==> r.error == NotFound || r.error == NoPrecedingValue
    ensures r.Success? ==>
              exists i :: 1 <= i < |data.dataFields| && data.dataFields[i] == marker
                          && marker !in data.dataFields[..i]
                          && r.value == data.dataFields[i - 1]
  {
    var i := FirstIndex(data.dataFields, marker);
    if i == |data.dataFields| then Failure(NotFound)
    else if i < 1 then Failure(NoPrecedingValue)
    else Success(data.dataFields[i - 1])
  }

  /** Tries the positive marker first and, only when it is absent from the
      fields, the negative one; the lookup's failure is passed on unchanged. */
  function DirectionAndValueFinder(data: SentenceData, positive: string, negative: string,
                                   positiveChar: char, negativeChar: char): (r: Result<DirectedValue>)
    ensures positive in data.dataFields ==>
              match GetValueFromDataFields(data, positive)
              case Success(v) => r == Success(DirectedValue(v, positiveChar))
              case Failure(e) => r == Failure(e)
    ensures positive !in data.dataFields ==>
              match GetValueFromDataFields(data, negative)
              case Success(v) => r == Success(DirectedValue(v, negativeChar))
              case Failure(e) => r == Failure(e)
    ensures r == Failure(NotFound) <==>
              positive !in data.dataFields && negative !in data.dataFields
  {
    var found := FirstIndex(data.dataFields, positive) != |data.dataFields|;
    var marker, direction := if found then positive else negative,
                             if found then positiveChar else negativeChar;
    match GetValueFromDataFields(data, marker)
    case Success(v) => Success(DirectedValue(v, direction))
    case Failure(e) => Failure(e)
  }

  /** When both markers are present the positive one wins, as long as it
      has a field before it. */
  lemma PositiveMarkerPreferred(data: SentenceData, positive: string, negative: string,
                                positiveChar: char, negativeChar: char)
    requires positive in data.dataFields && negative in data.dataFields
    requires data.dataFields[0] != positive
    ensures var r := DirectionAndValueFinder(data, positive, negative, positiveChar, negativeChar);
            r.Success? && r.value.direction == positiveChar
            && r.value.value == data.dataFields[FirstIndex(data.dataFields, positive) - 1]
  {
  }

  // ---------------------------------------------------------------------
  // Interpreter

  /** The request for GPS::Position built from split sentence data. */
  function InterpretSentenceData(data: SentenceData): (r: Result<PositionRequest>)
    ensures !IsSupportedSentenceFormat(data.format) ==> r == Failure(UnsupportedFormat)
    ensures IsSupportedSentenceFormat(data.format) && |data.dataFields| < MinDataFields ==>
              r == Failure(TooFewFields)
    ensures r.Success? <==>
              && IsSupportedSentenceFormat(data.format)
              && |data.dataFields| >= MinDataFields
              && (data.format == ElevationFormat ==> GetValueFromDataFields(data, "M").Success?)
              && DirectionAndValueFinder(data, "N", "S", 'N', 'S').Success?
              && DirectionAndValueFinder(data, "E", "W", 'E', 'W').Success?
    ensures r.Success? && data.format != ElevationFormat ==> r.value.elevation == "0"
    ensures r.Success? && data.format == ElevationFormat ==>
              GetValueFromDataFields(data, "M") == Success(r.value.elevation)
    ensures r.Success? ==>
              DirectionAndValueFinder(data, "N", "S", 'N', 'S')
                == Success(DirectedValue(r.value.latitude, r.value.latitudeDirection))
              && DirectionAndValueFinder(data, "E", "W", 'E', 'W')
                == Success(DirectedValue(r.value.longitude, r.value.longitudeDirection))
    ensures r.Success? ==>
              r.value.latitudeDirection in {'N', 'S'} && r.value.longitudeDirection in {'E', 'W'}
  {
    if !IsSupportedSentenceFormat(data.format) then Failure(UnsupportedFormat)
    else if |data.dataFields| < MinDataFields then Failure(TooFewFields)
    else
      var elevation :=
        if data.format == ElevationFormat then GetValueFromDataFields(data, "M")
        else Success("0");
      match elevation
      case Failure(e) => Failure(e)
      case Success(height) =>
        match DirectionAndValueFinder(data, "N", "S", 'N', 'S')
        case Failure(e) => Failure(e)
        case Success(latitude) =>
          match DirectionAndValueFinder(data, "E", "W", 'E', 'W')
          case Failure(e) => Failure(e)
          case Success(longitude) =>
            Success(PositionRequest(latitude.value, latitude.direction,
                                    longitude.value, longitude.direction, height))
  }

  /** The failures of the interpreter come in the source's order: the format
      first, then the field count, then the elevation marker of a GGA
      sentence, then latitude, then longitude. Each lookup failure is
      reported unchanged. */
  lemma InterpretFailureOrder(data: SentenceData)
    requires IsSupportedSentenceFormat(data.format) && |data.dataFields| >= MinDataFields
    ensures data.format == ElevationFormat && GetValueFromDataFields(data, "M").Failure? ==>
              InterpretSentenceData(data) == Failure(GetValueFromDataFields(data, "M").error)
    ensures (data.format == ElevationFormat ==> GetValueFromDataFields(data, "M").Success?)
            && DirectionAndValueFinder(data, "N", "S", 'N', 'S').Failure? ==>
              InterpretSentenceData(data)
                == Failure(DirectionAndValueFinder(data, "N", "S", 'N', 'S').error)
    ensures (data.format == ElevationFormat ==> GetValueFromDataFields(data, "M").Success?)
            && DirectionAndValueFinder(data, "N", "S", 'N', 'S').Success?
            && DirectionAndValueFinder(data, "E", "W", 'E', 'W').Failure? ==>
              InterpretSentenceData(data)
                == Failure(DirectionAndValueFinder(data, "E", "W", 'E', 'W').error)
  {
  }

  /** The lookup at a marker's first occurrence, which has a field before it. */
  lemma ValueBeforeMarker(data: SentenceData, marker: string, k: nat)
    requires 1 <= k < |data.dataFields| && data.dataFields[k] == marker
    requires marker !in data.dataFields[..k]
    ensures GetValueFromDataFields(data, marker) == Success(data.dataFields[k - 1])
  {
    FirstIndexUnique(data.dataFields, marker, k);
  }

  /** The request the interpreter builds once the format, the field count,
      the elevation lookup and both finders have succeeded. */
  lemma InterpretsTo(data: SentenceData, latitude: DirectedValue, longitude: DirectedValue,
                     height: string)
    requires IsSupportedSentenceFormat(data.format) && |data.dataFields| >= MinDataFields
    requires data.format == ElevationFormat ==> GetValueFromDataFields(data, "M") == Success(height)
    requires data.format != ElevationFormat ==> height == "0"
    requires DirectionAndValueFinder(data, "N", "S", 'N', 'S') == Success(latitude)
    requires DirectionAndValueFinder(data, "E", "W", 'E', 'W') == Success(longitude)
    ensures InterpretSentenceData(data) == Success(PositionRequest(latitude.value, latitude.direction,
                                                                   longitude.value, longitude.direction,
                                                                   height))
  {
  }

  // The example sentences below are checked one lookup at a time: each
  // helper sees only the fields and the one marker it is about.

  lemma GllNorth(data: SentenceData)
    requires data == SentenceData("GLL", ["4916.45", "N", "12311.12", "W", "225444", "A"])
    ensures GetValueFromDataFields(data, "N") == Success("4916.45")
  {
    ValueBeforeMarker(data, "N", 1);
  }

  lemma GllNoEast(data: SentenceData)
    requires data == SentenceData("GLL", ["4916.45", "N", "12311.12", "W", "225444", "A"])
    ensures "E" !in data.dataFields
  {
  }

  lemma GllWest(data: SentenceData)
    requires data == SentenceData("GLL", ["4916.45", "N", "12311.12", "W", "225444", "A"])
    ensures GetValueFromDataFields(data, "W") == Success("12311.12")
  {
    ValueBeforeMarker(data, "W", 3);
  }

  /** A GLL sentence: latitude north, longitude west, elevation defaulted. */
  lemma InterpretGllExample()
    ensures InterpretSentenceData(SentenceData("GLL", ["4916.45", "N", "12311.12", "W", "225444", "A"]))
            == Success(PositionRequest("4916.45", 'N', "12311.12", 'W', "0"))
  {
    var data := SentenceData("GLL", ["4916.45", "N", "12311.12", "W", "225444", "A"]);
    GllNorth(data);
    GllNoEast(data);
    GllWest(data);
    assert IsSupportedSentenceFormat("GLL") && "GLL" != ElevationFormat;
    InterpretsTo(data, DirectedValue("4916.45", 'N'), DirectedValue("12311.12", 'W'), "0");
  }

  lemma GgaHeight(data: SentenceData)
    requires data == SentenceData("GGA", ["4807.038", "N", "01131.000", "E", "545.4", "M"])
    ensures GetValueFromDataFields(data, "M") == Success("545.4")
  {
    ValueBeforeMarker(data, "M", 5);
  }

  lemma GgaNorth(data: SentenceData)
    requires data == SentenceData("GGA", ["4807.038", "N", "01131.000", "E", "545.4", "M"])
    ensures GetValueFromDataFields(data, "N") == Success("4807.038")
  {
    ValueBeforeMarker(data, "N", 1);
  }

  lemma GgaEast(data: SentenceData)
    requires data == SentenceData("GGA", ["4807.038", "N", "01131.000", "E", "545.4", "M"])
    ensures GetValueFromDataFields(data, "E") == Success("01131.000")
  {
    ValueBeforeMarker(data, "E", 3);
  }

  /** A GGA sentence: the elevation is the field before "M". */
  lemma InterpretGgaExample()
    ensures InterpretSentenceData(SentenceData("GGA", ["4807.038", "N", "01131.000", "E", "545.4", "M"]))
            == Success(PositionRequest("4807.038", 'N', "01131.000", 'E', "545.4"))
  {
    var data := SentenceData("GGA", ["4807.038", "N", "01131.000", "E", "545.4", "M"]);
    GgaHeight(data);
    GgaNorth(data);
    GgaEast(data);
    assert IsSupportedSentenceFormat("GGA") && "GGA" == ElevationFormat;
    InterpretsTo(data, DirectedValue("4807.038", 'N'), DirectedValue("01131.000", 'E'), "545.4");
  }
}
