/** format_name of Task2-Refactoring/parseGPX.cpp, the trimmer applied to
    route and track names. Only the space character ' ' counts as blank. */
module Gpx {

  function Min(a: int, b: int): int
  {
    if a <= b then a else b
  }

  /** std::string::substr(pos, count): at most `count` characters from `pos`. */
  function Substr(s: string, pos: nat, count: nat): string
    requires pos <= |s|
  {
    s[pos..pos + Min(count, |s| - pos)]
  }

  predicate AllSpaces(s: string)
  {
    forall k :: 0 <= k < |s| ==> s[k] == ' '
  }

  /** find_first_not_of(' '), with |s| standing for npos. */
  function FirstNonSpace(s: string): (i: nat)
    ensures i <= |s|
    ensures forall k :: 0 <= k < i ==> s[k] == ' '
    ensures i < |s| ==> s[i] != ' '
  {
    if s == [] || s[0] != ' ' then 0 else 1 + FirstNonSpace(s[1..])
  }

  /** find_last_not_of(' '), with -1 standing for npos. */
  function LastNonSpace(s: string): (i: int)
    ensures -1 <= i < |s|
    ensures forall k :: i < k < |s| ==> s[k] == ' '
    ensures i >= 0 ==> s[i] != ' '
  {
    if s == [] then -1
    else if s[|s| - 1] != ' ' then |s| - 1
    else LastNonSpace(s[..|s| - 1])
  }

  /** A name that is not blank has a first and a last non-space character,
      the first no later than the last. */
  lemma NonSpaceFound(name: string)
    requires !AllSpaces(name)
    ensures 0 <= FirstNonSpace(name) <= LastNonSpace(name) < |name|
  {
    var k :| 0 <= k < |name| && name[k] != ' ';
    assert FirstNonSpace(name) <= k <= LastNonSpace(name);
  }

  /** format_name as written: from the first non-space character it takes
      as many characters as the index of the last non-space character plus
      one, a count where an end position was meant. The result is empty
      exactly for a blank name; otherwise it is the piece of the name that
      starts at the first non-space character and is min(|name| - first,
      last + 1) long. */
  function FormatName(name: string): (r: string)
    ensures r == "" <==> AllSpaces(name)
    ensures |r| <= |name|
    ensures !AllSpaces(name) ==>
              && |r| == Min(|name| - FirstNonSpace(name), LastNonSpace(name) + 1)
              && r == name[FirstNonSpace(name)..FirstNonSpace(name) + |r|]
              && r[0] != ' '
  {
    if AllSpaces(name) then ""
    else
      var first := FirstNonSpace(name);
      var last := LastNonSpace(name);
      NonSpaceFound(name);
      Substr(name, first, last + 1)
  }

  /** Without a leading space the result is the name up to and including
      its last non-space character, so every trailing space is removed. */
  lemma FormatNameWithoutLeadingSpace(name: string)
    requires name != [] && name[0] != ' '
    ensures FormatName(name) == name[..LastNonSpace(name) + 1]
    ensures FormatName(name)[|FormatName(name)| - 1] != ' '
    ensures AllSpaces(name[|FormatName(name)|..])
  {
    assert !AllSpaces(name);
  }

  /** Tabs, newlines and every other character but ' ' are kept: a name
      without spaces comes back unchanged. */
  lemma FormatNameKeepsOtherCharacters(name: string)
    requires ' ' !in name
    ensures FormatName(name) == name
  {
    if name != [] {
      assert name[0] in name;
      assert name[|name| - 1] in name;
    }
  }

  /** What the comment on format_name promises: both leading and trailing
      spaces removed. */
  function TrimSpaces(name: string): (r: string)
    ensures r == "" <==> AllSpaces(name)
    ensures r != "" ==> r[0] != ' ' && r[|r| - 1] != ' '
    ensures !AllSpaces(name) ==>
              && AllSpaces(name[..FirstNonSpace(name)])
              && FirstNonSpace(name) + |r| <= |name|
              && name[FirstNonSpace(name)..FirstNonSpace(name) + |r|] == r
              && AllSpaces(name[FirstNonSpace(name) + |r|..])
  {
    if AllSpaces(name) then ""
    else
      var first := FirstNonSpace(name);
      var last := LastNonSpace(name);
      NonSpaceFound(name);
      name[first..last + 1]
  }

  /** format_name agrees with trimming exactly when the name is blank, or
      does not start with a space, or does not end with one: with spaces on
      both sides, some trailing spaces survive. */
  lemma FormatNameTrimsIff(name: string)
    ensures FormatName(name) == TrimSpaces(name) <==>
              AllSpaces(name) || name[0] != ' ' || name[|name| - 1] != ' '
  {
    if !AllSpaces(name) {
      NonSpaceFound(name);
      if name[0] == ' ' && name[|name| - 1] == ' ' {
        assert |FormatName(name)| != |TrimSpaces(name)|;
      }
    }
  }

  /** The input that shows it: "  a  " becomes "a  ", not "a". */
  lemma FormatNameKeepsTrailingSpaces()
    ensures FormatName("  a  ") == "a  "
    ensures TrimSpaces("  a  ") == "a"
  {
    var name := "  a  ";
    assert FirstNonSpace(name) == 2 by {
      assert name[0] == ' ' && name[1] == ' ' && name[2] == 'a';
    }
    assert LastNonSpace(name) == 2 by {
      assert name[3] == ' ' && name[4] == ' ' && name[2] == 'a';
    }
  }
}
