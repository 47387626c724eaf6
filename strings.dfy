/** Character classes and sequence helpers shared by the NMEA and GPX models.
    They stand for the C++ standard-library calls the source uses:
    std::isalpha / std::isxdigit in the C locale, std::count, std::find,
    and the comma splitting done with std::getline. */
module Strings {

  /** std::isalpha in the C locale: only the ASCII letters. */
  predicate IsAlpha(c: char)
  {
    'A' <= c <= 'Z' || 'a' <= c <= 'z'
  }

  /** std::isxdigit in the C locale: decimal digits and a-f in either case. */
  predicate IsHexDigit(c: char)
  {
    '0' <= c <= '9' || 'a' <= c <= 'f' || 'A' <= c <= 'F'
  }

  /** The value of one hexadecimal digit, as std::stoi with base 16 reads it. */
  function HexValue(c: char): (v: nat)
    requires IsHexDigit(c)
    ensures v < 16
  {
    if c <= '9' then c as int - '0' as int
    else if c <= 'F' then c as int - 'A' as int + 10
    else c as int - 'a' as int + 10
  }

  /** The upper-case hexadecimal digit for a value below 16. */
  function HexDigit(n: nat): (c: char)
    requires n < 16
    ensures IsHexDigit(c) && HexValue(c) == n
  {
    "0123456789ABCDEF"[n]
  }

  /** std::count: how many elements of `s` equal `x`. */
  function Count<T(==)>(s: seq<T>, x: T): (n: nat)
    ensures n <= |s|
    ensures n == 0 <==> x !in s
  {
    if s == [] then 0 else (if s[0] == x then 1 else 0) + Count(s[1..], x)
  }

  lemma {:induction false} CountConcat<T>(a: seq<T>, b: seq<T>, x: T)
    ensures Count(a + b, x) == Count(a, x) + Count(b, x)
  {
    if a != [] {
      assert (a + b)[0] == a[0] && (a + b)[1..] == a[1..] + b;
      CountConcat(a[1..], b, x);
    } else {
      assert a + b == b;
    }
  }

  /** Two different positions holding `x` make its count at least two. */
  lemma {:induction false} CountTwoPositions<T>(s: seq<T>, x: T, i: nat, j: nat)
    requires i < j < |s| && s[i] == x && s[j] == x
    ensures Count(s, x) >= 2
  {
    if i == 0 {
      assert s[1..][j - 1] == x;
    } else {
      CountTwoPositions(s[1..], x, i - 1, j - 1);
    }
  }

  /** std::find: the index of the first element equal to `x`, or |s| (the
      end iterator) when there is none. */
  function FirstIndex<T(==)>(s: seq<T>, x: T): (i: nat)
    ensures i <= |s|
    ensures i < |s| <==> x in s
    ensures i < |s| ==> s[i] == x
    ensures x !in s[..i]
  {
    if s == [] then 0
    else if s[0] == x then 0
    else
      var k := FirstIndex(s[1..], x);
      assert s[..k + 1] == [s[0]] + s[1..][..k];
      1 + k
  }

  /** A position that holds `x`, with no `x` before it, is the first index of `x`. */
  lemma FirstIndexUnique<T>(s: seq<T>, x: T, k: nat)
    requires k <= |s|
    requires x !in s[..k]
    requires k < |s| ==> s[k] == x
    ensures FirstIndex(s, x) == k
  {
  }

  /** Splitting on a separator, keeping every empty field in order: the
      fields that repeated std::getline(ss, field, sep) calls yield while the
      stream stays good, starting from a fresh stream over `t`. */
  function Split(t: string, sep: char): (fields: seq<string>)
    ensures |fields| >= 1
    decreases |t|
  {
    var j := FirstIndex(t, sep);
    if j == |t| then [t] else [t[..j]] + Split(t[j + 1..], sep)
  }

  /** One step of Split: the field up to the first separator, then the
      split of what follows it; or the whole text when there is none. */
  lemma SplitHead(t: string, sep: char)
    ensures FirstIndex(t, sep) < |t| ==>
              Split(t, sep) == [t[..FirstIndex(t, sep)]] + Split(t[FirstIndex(t, sep) + 1..], sep)
    ensures FirstIndex(t, sep) == |t| ==> Split(t, sep) == [t]
  {
  }

  /** No field of Split holds the separator. */
  lemma {:induction false} SplitFieldsAvoidSeparator(t: string, sep: char)
    ensures forall k :: 0 <= k < |Split(t, sep)| ==> sep !in Split(t, sep)[k]
    decreases |t|
  {
    var j := FirstIndex(t, sep);
    if j < |t| {
      SplitFieldsAvoidSeparator(t[j + 1..], sep);
    }
  }

  /** The inverse of Split: the fields with `sep` between neighbours. */
  function Join(fields: seq<string>, sep: char): string
  {
    if |fields| == 0 then ""
    else if |fields| == 1 then fields[0]
    else fields[0] + [sep] + Join(fields[1..], sep)
  }

  lemma {:induction false} JoinSplit(t: string, sep: char)
    ensures Join(Split(t, sep), sep) == t
    decreases |t|
  {
    SplitHead(t, sep);
    var j := FirstIndex(t, sep);
    if j < |t| {
      var rest := t[j + 1..];
      JoinSplit(rest, sep);
      assert Split(t, sep) == [t[..j]] + Split(rest, sep);
      assert Join(Split(t, sep), sep) == t[..j] + [sep] + Join(Split(rest, sep), sep);
      assert t == t[..j] + [sep] + rest;
    }
  }

  lemma {:induction false} SplitJoin(fields: seq<string>, sep: char)
    requires |fields| >= 1
    requires forall k :: 0 <= k < |fields| ==> sep !in fields[k]
    ensures Split(Join(fields, sep), sep) == fields
  {
    if |fields| == 1 {
      FirstIndexUnique(fields[0], sep, |fields[0]|);
    } else {
      var t := Join(fields, sep);
      assert t == fields[0] + [sep] + Join(fields[1..], sep);
      assert t[..|fields[0]|] == fields[0];
      FirstIndexUnique(t, sep, |fields[0]|);
      assert t[|fields[0]| + 1..] == Join(fields[1..], sep);
      SplitJoin(fields[1..], sep);
    }
  }

  /** Every separator in `t` ends one field: there are Count + 1 fields. */
  lemma {:induction false} SplitCount(t: string, sep: char)
    ensures |Split(t, sep)| == Count(t, sep) + 1
    decreases |t|
  {
    SplitHead(t, sep);
    var j := FirstIndex(t, sep);
    if j < |t| {
      SplitCount(t[j + 1..], sep);
      CountPastFirst(t, sep);
    }
  }

  /** The first occurrence of `x` accounts for one of its occurrences;
      the rest lie after it. */
  lemma CountPastFirst<T>(s: seq<T>, x: T)
    requires x in s
    ensures Count(s, x) == 1 + Count(s[FirstIndex(s, x) + 1..], x)
  {
    var j := FirstIndex(s, x);
    var before, rest := s[..j], s[j + 1..];
    assert s == (before + [x]) + rest;
    CountConcat(before + [x], rest, x);
    CountConcat(before, [x], x);
    assert Count([x], x) == 1 by {
      assert [x][1..] == [];
    }
  }
}
