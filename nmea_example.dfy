/** The worked GLL example: the sentence EncodeSentence writes from the
    fields 4916.45, N, 12311.12, W, 225444, A, passed to LinePosition,
    gives latitude 4916.45 N, longitude 12311.12 W and the default
    elevation "0". */
module NmeaExample {
  import opened Strings
  import opened Nmea
  import opened NmeaLog
  import opened NmeaEncode

  const GllFields: seq<string> := ["4916.45", "N", "12311.12", "W", "225444", "A"]

  /** Text made of digits, '.', and upper-case letters is ASCII and holds
      none of the delimiters ',', '*' and '$'. */
  lemma PlainField(field: string)
    requires forall i :: 0 <= i < |field| ==> '.' <= field[i] <= 'Z'
    ensures IsAscii(field) && ',' !in field && '*' !in field && '$' !in field
  {
  }

  lemma GllFieldsEncodable()
    ensures Encodable("GLL", GllFields)
  {
    forall k | 0 <= k < |GllFields|
      ensures IsAscii(GllFields[k]) && ',' !in GllFields[k] && '*' !in GllFields[k] && '$' !in GllFields[k]
    {
      PlainField(GllFields[k]);
    }
  }

  /** The log processor turns the example line into the request
      ("4916.45", 'N', "12311.12", 'W', "0") handed to the constructor. */
  lemma GllLinePosition<P>(construct: PositionRequest -> Option<P>)
    ensures LinePosition(EncodeSentence("GLL", GllFields), construct)
              == construct(PositionRequest("4916.45", 'N', "12311.12", 'W', "0"))
  {
    GllFieldsEncodable();
    InterpretGllExample();
    EncodedLineYieldsPosition("GLL", GllFields, construct);
  }

  /** A line that is too short and a line without the leading '$'. */
  lemma MalformedLines()
    ensures !IsWellFormedSentence("$GPGLL*31")
    ensures !IsWellFormedSentence("GPGLL,4916.45,N")
  {
    var bad := "GPGLL,4916.45,N";
    assert bad[..3][0] == 'G';
  }
}
