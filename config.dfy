/** The configuration wrapper of watson/config.py: typed reads of named sections
    (`get`, `getint`, `getboolean`, `getlist`) and `set`, which creates a missing
    section. Option names are case-insensitive: they are stored lower-cased. */
module Config {
  import opened Wrappers
  import opened Text

  /** Section name -> (lower-cased option name -> raw value). */
  type Sections = map<string, map<string, string>>

  /** The section name the parser reserves for defaults; it cannot be added. */
  const DefaultSection: string := "DEFAULT"

  /** Every stored option name is already lower-cased, and the reserved section
      is not among the named ones. */
  predicate WellFormed(m: Sections) {
    && DefaultSection !in m
    && forall s, o :: s in m && o in m[s] ==> Lower(o) == o
  }

  /** The raw value of an option, if the section has it. */
  function Lookup(m: Sections, section: string, option: string): (r: Option<string>)
    ensures r.Some? ==> section in m && r.value in m[section].Values
    ensures WellFormed(m) && section in m ==>
      (r.Some? <==> exists o :: o in m[section] && Lower(o) == Lower(option))
  {
    LowerIdempotent(option);
    if section in m && Lower(option) in m[section] then Some(m[section][Lower(option)]) else None
  }

  /** The sections after `set(section, option, value)` on a section other than
      the reserved one. */
  function Stored(m: Sections, section: string, option: string, value: string): (r: Sections)
    ensures forall s, o ::
      Lookup(r, s, o) == if s == section && Lower(o) == Lower(option) then Some(value) else Lookup(m, s, o)
  {
    var options := if section in m then m[section] else map[];
    m[section := options[Lower(option) := value]]
  }

  lemma LowerIdempotent(s: string)
    ensures Lower(Lower(s)) == Lower(s)
  {
  }

  lemma {:induction false} LowerCaseInsensitive(a: string, b: string)
    requires |a| == |b| && forall i :: 0 <= i < |a| ==> LowerChar(a[i]) == LowerChar(b[i])
    ensures Lower(a) == Lower(b)
  {
  }

  /** After `set`, reading the same option (in any letter case) gives the new
      value, and every other option reads as before. */
  lemma LookupAfterStore(m: Sections, section: string, option: string, value: string,
                         section': string, option': string)
    ensures Lookup(Stored(m, section, option, value), section', option') ==
      if section' == section && Lower(option') == Lower(option) then Some(value)
      else Lookup(m, section', option')
  {
  }

  /** Storing keeps the sections well-formed. */
  lemma StoredWellFormed(m: Sections, section: string, option: string, value: string)
    requires WellFormed(m) && section != DefaultSection
    ensures WellFormed(Stored(m, section, option, value))
  {
    LowerIdempotent(option);
  }

  // ---------------------------------------------------------------------------
  // Python's int() on a string

  predicate IsDigitOrUnderscore(c: char) {
    IsDigit(c) || c == '_'
  }

  /** Decimal digits with single underscores between them, as `int()` accepts. */
  predicate DigitGroups(b: string) {
    && |b| > 0 && b[0] != '_' && b[|b| - 1] != '_'
    && (forall i :: 0 <= i < |b| ==> IsDigitOrUnderscore(b[i]))
    && (forall i :: 0 <= i < |b| - 1 ==> !(b[i] == '_' && b[i + 1] == '_'))
  }

  lemma DigitsWithoutUnderscores(b: string)
    requires forall i :: 0 <= i < |b| ==> IsDigitOrUnderscore(b[i])
    ensures AllDigits(RemoveAll(b, '_'))
  {
    var r := RemoveAll(b, '_');
    forall i | 0 <= i < |r| ensures IsDigit(r[i]) {
      assert r[i] in r;
      var j :| 0 <= j < |b| && b[j] == r[i];
    }
  }

  /** The value of digit groups: the underscores are only separators. */
  function GroupsValue(b: string): nat
    requires DigitGroups(b)
  {
    DigitsWithoutUnderscores(b);
    DigitsValue(RemoveAll(b, '_'))
  }

  /** `int()` after stripping: an optional sign, then digit groups. */
  function ParseSigned(t: string): Option<int> {
    if |t| > 0 && (t[0] == '-' || t[0] == '+') then
      if DigitGroups(t[1..]) then
        Some(if t[0] == '-' then -(GroupsValue(t[1..]) as int) else GroupsValue(t[1..]))
      else None
    else if DigitGroups(t) then Some(GroupsValue(t))
    else None
  }

  /** `int(s)` for a string: surrounding whitespace, an optional sign, then digit
      groups; anything else is a ValueError (`None` here). */
  function ParseInt(s: string): (r: Option<int>)
    ensures (forall i :: 0 <= i < |s| ==> IsSpace(s[i])) ==> r.None?
    ensures r.Some? && r.value < 0 ==> Strip(s)[0] == '-'
    ensures r.Some? ==> forall i :: 0 < i < |Strip(s)| ==> IsDigitOrUnderscore(Strip(s)[i])
  {
    ParseSignedShape(Strip(s));
    ParseSigned(Strip(s))
  }

  /** What `ParseSigned` accepts: a negative result comes from a leading `-`, and
      every character after the first is a digit or an underscore. */
  lemma ParseSignedShape(t: string)
    ensures t == [] ==> ParseSigned(t).None?
    ensures ParseSigned(t).Some? && ParseSigned(t).value < 0 ==> t[0] == '-'
    ensures ParseSigned(t).Some? ==> forall i :: 0 < i < |t| ==> IsDigitOrUnderscore(t[i])
  {
    if ParseSigned(t).Some? && |t| > 0 && (t[0] == '-' || t[0] == '+') {
      assert DigitGroups(t[1..]);
      forall i | 0 < i < |t| ensures IsDigitOrUnderscore(t[i]) {
        assert t[i] == t[1..][i - 1];
      }
    }
  }

  /** `str(n)`. */
  function FormatInt(n: int): string {
    if n < 0 then "-" + NatToString(-n) else NatToString(n)
  }

  lemma DigitsAreGroups(d: string)
    requires d != [] && AllDigits(d)
    ensures DigitGroups(d) && RemoveAll(d, '_') == d
    ensures !IsSpace(d[0]) && !IsSpace(d[|d| - 1]) && d[0] != '-' && d[0] != '+'
  {
    assert '_' !in d by {
      forall i | 0 <= i < |d| ensures d[i] != '_' {
        assert IsDigit(d[i]);
      }
    }
    RemoveAllAbsent(d, '_');
    assert IsDigit(d[0]) && IsDigit(d[|d| - 1]);
  }

  lemma ParseIntStripped(s: string)
    requires Strip(s) == s
    ensures ParseInt(s) == ParseSigned(s)
  {
  }

  lemma GroupsValueOfDigits(d: string)
    requires d != [] && AllDigits(d)
    ensures DigitGroups(d) && GroupsValue(d) == DigitsValue(d)
  {
    DigitsAreGroups(d);
  }

  /** `int` on a run of digits. */
  lemma ParseSignedDigits(d: string)
    requires d != [] && AllDigits(d)
    ensures ParseSigned(d) == Some(DigitsValue(d) as int)
  {
    DigitsAreGroups(d);
    GroupsValueOfDigits(d);
  }

  /** `int` on a run of digits after a minus sign. */
  lemma ParseSignedNegative(s: string, d: string)
    requires d != [] && AllDigits(d) && s == "-" + d
    ensures DigitGroups(d) && ParseSigned(s) == Some(-(GroupsValue(d) as int))
  {
    DigitsAreGroups(d);
    assert s[1..] == d;
  }

  lemma SignedDigitsStripped(s: string, d: string, negative: bool)
    requires d != [] && AllDigits(d)
    requires s == (if negative then "-" else "") + d
    ensures Strip(s) == s
  {
    DigitsAreGroups(d);
    assert s[|s| - 1] == d[|d| - 1];
    assert !IsSpace(s[0]);
    StripNoSpace(s);
  }

  /** `int(str(n)) == n`: a value written by `set` from an integer reads back as it. */
  lemma FormatIntRoundTrip(n: int)
    ensures ParseInt(FormatInt(n)) == Some(n)
  {
    var m := if n < 0 then -n else n;
    NatToStringRoundTrip(m);
    SignedDigitsStripped(FormatInt(n), NatToString(m), n < 0);
    ParseIntStripped(FormatInt(n));
    if n < 0 {
      ParseSignedNegative(FormatInt(n), NatToString(m));
      GroupsValueOfDigits(NatToString(m));
    } else {
      ParseSignedDigits(NatToString(m));
    }
  }

  /** Blank values and words are ValueErrors, as in `getint` on `''` or `'spamm'`. */
  lemma ParseIntRejects()
    ensures ParseInt("") == None
    ensures ParseInt("spamm") == None
  {
    var s := "spamm";
    assert !IsSpace(s[0]) && !IsSpace(s[4]);
    StripNoSpace(s);
    ParseIntStripped(s);
    assert !IsDigitOrUnderscore(s[0]);
    assert !DigitGroups(s);
    ParseIntStripped("");
  }

  // ---------------------------------------------------------------------------
  // Booleans and lists

  /** The values `getboolean` reads as true, compared after lower-casing. */
  const TrueWords: set<string> := {"1", "on", "true", "yes"}

  /** `getboolean` on a raw value: an empty or missing value gives the default. */
  function Truth(value: Option<string>, default: bool): (r: bool)
    ensures value.None? || value == Some("") ==> r == default
  {
    if value.Some? && value.value != "" then Lower(value.value) in TrueWords else default
  }

  /** `getboolean` does not depend on letter case, and reads exactly the four
      words as true. */
  lemma TruthCaseInsensitive(v: string, w: string, default: bool)
    requires v != "" && Lower(v) == Lower(w)
    ensures Truth(Some(v), default) == Truth(Some(w), default)
    ensures Truth(Some("ON"), default) && Truth(Some("True"), default) && Truth(Some("1"), default)
    ensures !Truth(Some("false"), default) && !Truth(Some("0"), default)
  {
    assert w != "";
    LowerWord("ON", "on");
    LowerWord("True", "true");
    LowerWord("false", "false");
    LowerWord("0", "0");
    LowerWord("1", "1");
  }

  lemma LowerWord(w: string, lower: string)
    requires |w| == |lower| && forall i :: 0 <= i < |w| ==> LowerChar(w[i]) == lower[i]
    ensures Lower(w) == lower
  {
  }

  /** One of the line boundaries of Python's `str.splitlines`. */
  predicate IsLineBreak(c: char) {
    ('\n' <= c <= '\r') || ('\U{1c}' <= c <= '\U{1e}')
    || c as int == 0x85 || c as int == 0x2028 || c as int == 0x2029
  }

  predicate NoLineBreak(s: string) {
    forall i :: 0 <= i < |s| ==> !IsLineBreak(s[i])
  }

  /** The pieces between line boundaries (a `\r\n` pair yields an extra empty
      piece, which `getlist` drops anyway). */
  function SplitLines(s: string): (r: seq<string>)
    ensures |r| >= 1
    ensures forall i :: 0 <= i < |r| ==> NoLineBreak(r[i])
    decreases |s|
  {
    if s == [] then [[]]
    else
      var rest := SplitLines(s[1..]);
      if IsLineBreak(s[0]) then [[]] + rest
      else [[s[0]] + rest[0]] + rest[1..]
  }

  /** The stripped, non-blank lines: `[item.strip() for item in lines if item.strip()]`. */
  function NonBlankStripped(lines: seq<string>): (r: seq<string>)
    ensures |r| <= |lines|
    ensures forall i :: 0 <= i < |r| ==> r[i] != [] && Strip(r[i]) == r[i]
    decreases |lines|
  {
    if lines == [] then []
    else
      var item := Strip(lines[0]);
      StripIdempotent(lines[0]);
      (if item != [] then [item] else []) + NonBlankStripped(lines[1..])
  }

  /** `getlist` on a present value: split at line boundaries when it holds a
      `\n`, otherwise by shell rules (the shell splitter is a parameter). */
  function ListOf(value: string, shellSplit: string -> seq<string>): (r: seq<string>)
    ensures '\n' in value ==> forall i :: 0 <= i < |r| ==> r[i] != [] && Strip(r[i]) == r[i] && NoLineBreak(r[i])
  {
    if '\n' in value then
      var r := NonBlankStripped(SplitLines(value));
      assert forall i :: 0 <= i < |r| ==> NoLineBreak(r[i]) by {
        NonBlankNoBreak(SplitLines(value));
      }
      r
    else shellSplit(value)
  }

  lemma {:induction false} NonBlankNoBreak(lines: seq<string>)
    requires forall i :: 0 <= i < |lines| ==> NoLineBreak(lines[i])
    ensures forall i :: 0 <= i < |NonBlankStripped(lines)| ==> NoLineBreak(NonBlankStripped(lines)[i])
    decreases |lines|
  {
    if lines != [] {
      NonBlankNoBreak(lines[1..]);
      var item := Strip(lines[0]);
      assert item == lines[0][|lines[0]| - |TrimLeft(lines[0])|..][..|item|];
      assert NoLineBreak(item) by {
        forall i | 0 <= i < |item| ensures !IsLineBreak(item[i]) {
          assert item[i] == lines[0][|lines[0]| - |TrimLeft(lines[0])| + i];
        }
      }
    }
  }

  lemma {:induction false} SplitLinesPrefix(a: string, rest: string)
    requires NoLineBreak(a)
    ensures SplitLines(a + rest) == [a + SplitLines(rest)[0]] + SplitLines(rest)[1..]
    decreases |a|
  {
    if a != [] {
      assert (a + rest)[1..] == a[1..] + rest;
      SplitLinesPrefix(a[1..], rest);
      assert [a[0]] + (a[1..] + SplitLines(rest)[0]) == a + SplitLines(rest)[0];
    } else {
      assert a + rest == rest;
      var r := SplitLines(rest);
      assert r == [r[0]] + r[1..];
      assert a + r[0] == r[0];
    }
  }

  /** Lines joined with `\n` split back into the same lines. */
  lemma {:induction false} SplitLinesJoin(items: seq<string>)
    requires items != []
    requires forall i :: 0 <= i < |items| ==> NoLineBreak(items[i])
    ensures SplitLines(Join(items, "\n")) == items
    decreases |items|
  {
    if |items| == 1 {
      SplitLinesPrefix(items[0], []);
      assert items[0] + [] == items[0];
    } else {
      var tail := Join(items[1..], "\n");
      SplitLinesJoin(items[1..]);
      assert Join(items, "\n") == items[0] + ("\n" + tail);
      SplitLinesPrefix(items[0], "\n" + tail);
      assert ("\n" + tail)[1..] == tail;
      assert SplitLines("\n" + tail) == [[]] + items[1..];
      assert items[0] + [] == items[0];
    }
  }

  lemma {:induction false} NonBlankStrippedKeeps(items: seq<string>)
    requires forall i :: 0 <= i < |items| ==> items[i] != [] && Strip(items[i]) == items[i]
    ensures NonBlankStripped(items) == items
    decreases |items|
  {
    if items != [] {
      var tail := items[1..];
      assert forall i :: 0 <= i < |tail| ==> tail[i] == items[i + 1];
      NonBlankStrippedKeeps(tail);
      assert Strip(items[0]) == items[0] != [];
      assert NonBlankStripped(items) == [items[0]] + NonBlankStripped(tail);
      assert items == [items[0]] + tail;
    }
  }

  /** A list written one item per line (at least two items, each non-blank,
      stripped and without line breaks) reads back as the same list. */
  lemma ListOfLinesRoundTrip(items: seq<string>, shellSplit: string -> seq<string>)
    requires |items| >= 2
    requires forall i :: 0 <= i < |items| ==> items[i] != [] && Strip(items[i]) == items[i] && NoLineBreak(items[i])
    ensures ListOf(Join(items, "\n"), shellSplit) == items
  {
    var v := Join(items, "\n");
    assert v == items[0] + "\n" + Join(items[1..], "\n");
    assert v[|items[0]|] == '\n';
    SplitLinesJoin(items);
    NonBlankStrippedKeeps(items);
  }

  // ---------------------------------------------------------------------------
  // The parser object

  /** `ConfigParser`: the sections read from the configuration file, updated by `set`. */
  class ConfigParser {
    var sections: Sections

    /** A parser over already-read sections (reading the file is not modelled). */
    constructor (parsed: Sections)
      requires WellFormed(parsed)
      ensures sections == parsed
    {
      sections := parsed;
    }

    predicate Valid()
      reads this
    {
      WellFormed(sections)
    }

    /** `get`: the raw value when the option is set, the default otherwise. */
    function Get(section: string, option: string, default: Option<string>): (r: Option<string>)
      reads this
      ensures Lookup(sections, section, option).Some? ==> r == Lookup(sections, section, option)
      ensures Lookup(sections, section, option).None? ==> r == default
    {
      var v := Lookup(sections, section, option);
      if v.Some? then v else default
    }

    /** `getint`: the default (unconverted) when unset, a ValueError when the value
        is not an integer, the integer otherwise. */
    function GetInt(section: string, option: string, default: Option<int>): (r: Result<Option<int>>)
      reads this
      ensures Lookup(sections, section, option).None? ==> r == Ok(default)
      ensures Lookup(sections, section, option).Some? ==>
        (r.Err? <==> ParseInt(Lookup(sections, section, option).value).None?)
      ensures r.Err? ==> r.error == ValueError
      ensures r.Ok? && Lookup(sections, section, option).Some? ==>
        r.value == ParseInt(Lookup(sections, section, option).value)
    {
      var v := Get(section, option, None);
      if v.None? then Ok(default)
      else
        var n := ParseInt(v.value);
        if n.None? then Err(ValueError) else Ok(n)
    }

    /** `getboolean`. */
    function GetBoolean(section: string, option: string, default: bool): (r: bool)
      reads this
      ensures var v := Lookup(sections, section, option);
        v.None? || v == Some("") ==> r == default
      ensures var v := Lookup(sections, section, option);
        v.Some? && v.value != "" ==> (r <==> Lower(v.value) in TrueWords)
    {
      Truth(Get(section, option, None), default)
    }

    /** `getlist`: `[]` or the given default when the option is unset. */
    function GetList(section: string, option: string, default: Option<seq<string>>,
                     shellSplit: string -> seq<string>): (r: seq<string>)
      reads this
      ensures Lookup(sections, section, option).None? ==>
        r == if default.None? then [] else default.value
      ensures Lookup(sections, section, option).Some? ==>
        r == ListOf(Lookup(sections, section, option).value, shellSplit)
    {
      var v := Get(section, option, None);
      if v.None? then (if default.None? then [] else default.value)
      else ListOf(v.value, shellSplit)
    }

    /** `set`: adds the section when missing; the reserved default section cannot
        be added and raises ValueError. */
    method Set(section: string, option: string, value: string) returns (o: Outcome)
      requires Valid()
      modifies this
      ensures Valid()
      ensures section == DefaultSection ==> o == Fail(ValueError) && sections == old(sections)
      ensures section != DefaultSection ==> o == Pass && sections == Stored(old(sections), section, option, value)
    {
      if section == DefaultSection {
        o := Fail(ValueError);
      } else {
        StoredWellFormed(sections, section, option, value);
        sections := Stored(sections, section, option, value);
        o := Pass;
      }
    }
  }
}
