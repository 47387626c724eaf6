/** The inverse of the sentence pipeline: writing a sentence `$GPxxx,f1,...*HH`
    with its NMEA 0183 checksum. It is the partner that the gate, the
    checksum and the splitter are proved against: every sentence written
    this way passes the first two and splits back into what was written. */
module NmeaEncode {
  import opened Strings
  import opened Nmea
  import opened NmeaLog

  /** The text between '$' and '*': talker "GP", format code, and fields. */
  function Body(format: string, fields: seq<string>): string
  {
    "GP" + format + "," + Join(fields, ',')
  }

  /** A byte as two upper-case hexadecimal digits. */
  function HexPair(b: bv8): (digits: string)
    ensures |digits| == 2 && IsHexDigit(digits[0]) && IsHexDigit(digits[1])
    ensures HexValue(digits[0]) * 16 + HexValue(digits[1]) == b as int
  {
    [HexDigit(b as int / 16), HexDigit(b as int % 16)]
  }

  function EncodeSentence(format: string, fields: seq<string>): string
  {
    var body := Body(format, fields);
    "$" + body + "*" + HexPair(XorBytes(body))
  }

  /** A format code and fields that a sentence can carry: three letters,
      at least one field, ASCII text, and no field holding a delimiter. */
  predicate Encodable(format: string, fields: seq<string>)
  {
    && |format| == 3 && IsAlpha(format[0]) && IsAlpha(format[1]) && IsAlpha(format[2])
    && |fields| >= 1
    && (forall k :: 0 <= k < |fields| ==>
          IsAscii(fields[k]) && ',' !in fields[k] && '*' !in fields[k] && '$' !in fields[k])
  }

  /** A character kept out of every field, other than the separator, is kept
      out of the joined text; ASCII fields join into ASCII text. */
  lemma {:induction false} JoinAvoids(fields: seq<string>, c: char)
    requires c != ','
    requires forall k :: 0 <= k < |fields| ==> c !in fields[k] && IsAscii(fields[k])
    ensures c !in Join(fields, ',')
    ensures IsAscii(Join(fields, ','))
  {
    if |fields| > 1 {
      JoinAvoids(fields[1..], c);
    }
  }

  /** The layout of an encoded sentence, index by index. */
  lemma EncodedLayout(format: string, fields: seq<string>)
    requires Encodable(format, fields)
    ensures var s := EncodeSentence(format, fields);
            && |s| == |Body(format, fields)| + 4
            && |s| >= 10
            && s[..3] == "$GP" && s[3..6] == format && s[6] == ','
            && s[1..|s| - 3] == Body(format, fields)
            && s[7..|s| - 3] == Join(fields, ',')
            && s[|s| - 3] == '*'
            && s[|s| - 2..] == HexPair(XorBytes(Body(format, fields)))
  {
  }

  /** The body of an encodable sentence is ASCII and holds no delimiter. */
  lemma BodyAvoidsDelimiters(format: string, fields: seq<string>)
    requires Encodable(format, fields)
    ensures var body := Body(format, fields);
            '$' !in body && '*' !in body && IsAscii(body)
  {
    var join := Join(fields, ',');
    JoinAvoids(fields, '$');
    JoinAvoids(fields, '*');
    var body := Body(format, fields);
    assert forall k :: 6 <= k < |body| ==> body[k] == join[k - 6];
  }

  lemma CountFour<T>(a: seq<T>, b: seq<T>, c: seq<T>, d: seq<T>, x: T)
    ensures Count(a + b + c + d, x) == Count(a, x) + Count(b, x) + Count(c, x) + Count(d, x)
  {
    CountConcat(a + b + c, d, x);
    CountConcat(a + b, c, x);
    CountConcat(a, b, x);
  }

  /** An encoded sentence has exactly one '$' and one '*'. */
  lemma EncodedDelimiters(format: string, fields: seq<string>)
    requires Encodable(format, fields)
    ensures var s := EncodeSentence(format, fields);
            Count(s, '$') == 1 && Count(s, '*') == 1
  {
    var body := Body(format, fields);
    var hex := HexPair(XorBytes(body));
    BodyAvoidsDelimiters(format, fields);
    CountFour("$", body, "*", hex, '$');
    CountFour("$", body, "*", hex, '*');
    assert '$' !in hex && '*' !in hex;
  }

  lemma EncodedWellFormed(format: string, fields: seq<string>)
    requires Encodable(format, fields)
    ensures IsWellFormedSentence(EncodeSentence(format, fields))
  {
    EncodedLayout(format, fields);
    EncodedDelimiters(format, fields);
  }

  lemma EncodedChecksum(format: string, fields: seq<string>)
    requires Encodable(format, fields)
    requires IsWellFormedSentence(EncodeSentence(format, fields))
    ensures HasCorrectChecksum(EncodeSentence(format, fields))
  {
    var s := EncodeSentence(format, fields);
    var body := Body(format, fields);
    EncodedLayout(format, fields);
    BodyAvoidsDelimiters(format, fields);
    XorOfAsciiIsAscii(body);
    assert ChecksumValue(s) == XorBytes(body) as int;
    assert ChecksumRegion(s) == body;
  }

  /** The first comma of an encoded sentence is the one after the format code. */
  lemma EncodedFirstComma(format: string, fields: seq<string>)
    requires Encodable(format, fields)
    ensures FirstIndex(EncodeSentence(format, fields), ',') == 6
  {
    var s := EncodeSentence(format, fields);
    EncodedLayout(format, fields);
    forall k | 0 <= k < 6
      ensures s[..6][k] != ','
    {
      if k < 3 {
        assert s[..6][k] == "$GP"[k];
      } else {
        assert s[..6][k] == format[k - 3];
      }
    }
    FirstIndexUnique(s, ',', 6);
  }

  lemma EncodedSplitsBack(format: string, fields: seq<string>)
    requires Encodable(format, fields)
    requires IsWellFormedSentence(EncodeSentence(format, fields))
    ensures SentenceDataOf(EncodeSentence(format, fields)) == SentenceData(format, fields)
  {
    var s := EncodeSentence(format, fields);
    EncodedLayout(format, fields);
    EncodedFirstComma(format, fields);
    assert DataRegion(s) == Join(fields, ',');
    SplitJoin(fields, ',');
  }

  /** Round trip: an encoded sentence passes the gate, has a correct
      checksum, and splits back into the format code and fields written. */
  lemma EncodeRoundTrip(format: string, fields: seq<string>)
    requires Encodable(format, fields)
    ensures var s := EncodeSentence(format, fields);
            && IsWellFormedSentence(s)
            && HasCorrectChecksum(s)
            && SentenceDataOf(s) == SentenceData(format, fields)
  {
    EncodedWellFormed(format, fields);
    EncodedChecksum(format, fields);
    EncodedSplitsBack(format, fields);
  }

  /** Encoding then running the log processor on that one line gives the
      position of what was encoded, whenever the interpreter and the
      constructor accept it. */
  lemma EncodedLineYieldsPosition<P>(format: string, fields: seq<string>,
                                     construct: PositionRequest -> Option<P>)
    requires Encodable(format, fields)
    requires InterpretSentenceData(SentenceData(format, fields)).Success?
    ensures LinePosition(EncodeSentence(format, fields), construct)
              == construct(InterpretSentenceData(SentenceData(format, fields)).value)
  {
    EncodeRoundTrip(format, fields);
  }
}
