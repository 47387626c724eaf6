/** positionsFromLog of Task1-Programming/parseNMEA.cpp: the line-by-line
    filter that turns a log into positions. The input stream is the sequence
    of its lines, and the GPS::Position constructor, which is not part of
    this model, is the parameter `construct`: it either builds a position
    from the five strings or rejects them (the constructor throws). */
module NmeaLog {
  import opened Strings
  import opened Nmea

  datatype Option<T> = None | Some(value: T)

  /** What one log line contributes: a position when the line is
      well-formed, its checksum is correct, its format is supported, it
      interprets without failure and the constructor accepts it; nothing
      otherwise. Every failure is swallowed. */
  function LinePosition<P>(line: string, construct: PositionRequest -> Option<P>): (r: Option<P>)
    ensures r.Some? ==> IsWellFormedSentence(line)
    ensures r.Some? <==>
              && IsWellFormedSentence(line)
              && HasCorrectChecksum(line)
              && IsSupportedSentenceFormat(SentenceDataOf(line).format)
              && InterpretSentenceData(SentenceDataOf(line)).Success?
              && construct(InterpretSentenceData(SentenceDataOf(line)).value).Some?
    ensures r.Some? ==> r == construct(InterpretSentenceData(SentenceDataOf(line)).value)
  {
    if !IsWellFormedSentence(line) then None
    else
      var data := SentenceDataOf(line);
      if !(HasCorrectChecksum(line) && IsSupportedSentenceFormat(data.format)) then None
      else
        match InterpretSentenceData(data)
        case Failure(_) => None
        case Success(request) => construct(request)
  }

  /** The positions of a whole log, in line order: at most one per line. */
  function LogPositions<P>(lines: seq<string>, construct: PositionRequest -> Option<P>): (positions: seq<P>)
    ensures |positions| <= |lines|
  {
    if lines == [] then []
    else
      var last := LinePosition(lines[|lines| - 1], construct);
      LogPositions(lines[..|lines| - 1], construct) + (if last.Some? then [last.value] else [])
  }

  /** The loop over the log, proved to compute LogPositions. */
  method PositionsFromLog<P>(log: seq<string>, construct: PositionRequest -> Option<P>)
    returns (positions: seq<P>)
    ensures positions == LogPositions(log, construct)
  {
    positions := [];
    var n := 0;
    while n < |log|
      invariant 0 <= n <= |log|
      invariant positions == LogPositions(log[..n], construct)
    {
      var line := log[n];
      if IsWellFormedSentence(line) {
        var data := ParseSentenceData(line);
        var isCorrectFormat := IsSupportedSentenceFormat(data.format);
        var isCorrectChecksum := HasCorrectChecksum(line);
        if isCorrectChecksum && isCorrectFormat {
          match InterpretSentenceData(data)
          case Failure(_) =>
          case Success(request) =>
            match construct(request)
            case None =>
            case Some(position) =>
              positions := positions + [position];
        }
      }
      LogPositionsStep(log, n, construct);
      n := n + 1;
    }
    assert log[..n] == log;
  }

  /** One more line of the log adds what that line contributes. */
  lemma LogPositionsStep<P>(log: seq<string>, n: nat, construct: PositionRequest -> Option<P>)
    requires n < |log|
    ensures LogPositions(log[..n + 1], construct) == LogPositions(log[..n], construct) +
              (if LinePosition(log[n], construct).Some? then [LinePosition(log[n], construct).value] else [])
  {
    assert log[..n + 1][..n] == log[..n];
  }

  /** Processing two logs one after the other gives the positions of the
      first followed by those of the second. */
  lemma {:induction false} LogPositionsAppend<P>(a: seq<string>, b: seq<string>,
                                                construct: PositionRequest -> Option<P>)
    ensures LogPositions(a + b, construct) == LogPositions(a, construct) + LogPositions(b, construct)
    decreases |b|
  {
    if b == [] {
      assert a + b == a;
    } else {
      var b' := b[..|b| - 1];
      assert (a + b)[..|a + b| - 1] == a + b';
      assert (a + b)[|a + b| - 1] == b[|b| - 1];
      LogPositionsAppend(a, b', construct);
    }
  }

  /** A log of one line gives exactly what that line contributes. */
  lemma LogPositionsSingle<P>(line: string, construct: PositionRequest -> Option<P>)
    ensures LogPositions([line], construct) ==
              if LinePosition(line, construct).Some? then [LinePosition(line, construct).value] else []
  {
    LogPositionsStep([line], 0, construct);
    assert [line][..1] == [line] && [line][..0] == [];
  }

  /** Every position comes from a line of the log that yields it, and
      there are never more positions than lines. */
  lemma {:induction false} LogPositionsSound<P>(lines: seq<string>, construct: PositionRequest -> Option<P>)
    ensures |LogPositions(lines, construct)| <= |lines|
    ensures forall p :: p in LogPositions(lines, construct) ==>
              exists k :: 0 <= k < |lines| && LinePosition(lines[k], construct) == Some(p)
  {
    if lines != [] {
      var init := lines[..|lines| - 1];
      LogPositionsSound(init, construct);
      forall p | p in LogPositions(lines, construct)
        ensures exists k :: 0 <= k < |lines| && LinePosition(lines[k], construct) == Some(p)
      {
        if p in LogPositions(init, construct) {
          var k :| 0 <= k < |init| && LinePosition(init[k], construct) == Some(p);
          assert lines[k] == init[k];
        } else {
          assert LinePosition(lines[|lines| - 1], construct) == Some(p);
        }
      }
    }
  }

  /** A log none of whose lines yields a position, for instance one made
      only of malformed lines, gives no positions at all. */
  lemma {:induction false} LogPositionsNoneAccepted<P>(lines: seq<string>, construct: PositionRequest -> Option<P>)
    requires forall k :: 0 <= k < |lines| ==> LinePosition(lines[k], construct).None?
    ensures LogPositions(lines, construct) == []
  {
    if lines != [] {
      LogPositionsNoneAccepted(lines[..|lines| - 1], construct);
    }
  }

  /** Lines that yield nothing leave no trace: one accepted line among
      them, whatever their number on either side, gives exactly its
      position. */
  lemma OneAcceptedLineAmongRejected<P>(before: seq<string>, line: string, after: seq<string>,
                                        construct: PositionRequest -> Option<P>)
    requires forall k :: 0 <= k < |before| ==> LinePosition(before[k], construct).None?
    requires forall k :: 0 <= k < |after| ==> LinePosition(after[k], construct).None?
    requires LinePosition(line, construct).Some?
    ensures LogPositions(before + [line] + after, construct) == [LinePosition(line, construct).value]
  {
    var position := LinePosition(line, construct).value;
    LogPositionsSingle(line, construct);
    assert LogPositions([line], construct) == [position];
    LogPositionsNoneAccepted(before, construct);
    LogPositionsAppend(before, [line], construct);
    assert LogPositions(before + [line], construct) == [position];
    LogPositionsNoneAccepted(after, construct);
    LogPositionsAppend(before + [line], after, construct);
  }

  /** A well-formed line without any comma never yields a position: its one
      data field is fewer than the four the interpreter needs. */
  lemma SentenceWithoutCommaIsDropped<P>(line: string, construct: PositionRequest -> Option<P>)
    requires IsWellFormedSentence(line) && ',' !in line
    ensures LinePosition(line, construct) == None
  {
    SentenceWithoutCommaHasOneField(line);
  }
}
