/** `format_timedelta` of watson/utils.py: a duration as hour, minute and second
    stems, right-justified to twelve characters. The duration is a whole number of
    seconds plus a non-negative number of microseconds, as a timedelta stores it. */
module Timedelta {
  import opened Wrappers
  import opened Text

  const MicrosPerSecond: int := 1000000

  /** `int(delta.total_seconds())`: the exact seconds truncated toward zero (the
      floating-point rounding of the quotient is not modelled). */
  function Truncate(whole: int, micros: nat): (r: int)
    requires micros < MicrosPerSecond
    ensures var x := whole * MicrosPerSecond + micros;
      && (x >= 0 ==> r * MicrosPerSecond <= x < (r + 1) * MicrosPerSecond)
      && (x < 0 ==> (r - 1) * MicrosPerSecond < x <= r * MicrosPerSecond)
  {
    if whole < 0 && micros > 0 then whole + 1 else whole
  }

  /** The numbers shown: an hours stem, a minutes stem (each possibly absent) and
      the seconds stem, which is always shown. */
  datatype Parts = Parts(hours: Option<nat>, minutes: Option<nat>, seconds: nat)

  function Value(p: Parts): nat {
    (if p.hours.Some? then p.hours.value * 3600 else 0)
    + (if p.minutes.Some? then p.minutes.value * 60 else 0)
    + p.seconds
  }

  /** The successive `//` and `-=` steps on the absolute number of seconds. */
  function Breakdown(n: nat): (p: Parts)
    ensures Value(p) == n
    ensures p.hours.Some? <==> n > 3600
    ensures p.minutes.Some? <==> (if n > 3600 then n % 3600 else n) > 60
    ensures p.seconds <= 60
    ensures p.minutes.Some? ==> p.minutes.value <= 60
    ensures p.hours.Some? && p.minutes.Some? ==> p.minutes.value <= 59
    ensures p.hours.Some? ==> p.hours.value >= 1
  {
    var hours: Option<nat> := if n > 3600 then Some(n / 3600) else None;
    var rest := if n > 3600 then n % 3600 else n;
    var minutes: Option<nat> := if rest > 60 then Some(rest / 60) else None;
    var seconds := if rest > 60 then rest % 60 else rest;
    Parts(hours, minutes, seconds)
  }

  function HoursStem(h: nat): string {
    RJust(NatToString(h), 2) + "h"
  }

  function MinutesStem(m: nat): string {
    ZeroPad2(m) + "m"
  }

  function SecondsStem(s: nat): string {
    ZeroPad2(s) + "s"
  }

  function Stems(p: Parts): seq<string> {
    (if p.hours.Some? then [HoursStem(p.hours.value)] else [])
    + (if p.minutes.Some? then [MinutesStem(p.minutes.value)] else [])
    + [SecondsStem(p.seconds)]
  }

  function Magnitude(t: int): nat {
    if t < 0 then -t else t
  }

  /** The unpadded text: `-` for a negative value, then the stems joined by spaces. */
  function Body(t: int): string {
    (if t < 0 then "-" else "") + Join(Stems(Breakdown(Magnitude(t))), " ")
  }

  /** `format_timedelta(delta)`. */
  function FormatTimedelta(whole: int, micros: nat): (r: string)
    requires micros < MicrosPerSecond
    ensures |r| >= 12
  {
    RJust(Body(Truncate(whole, micros)), 12)
  }

  // ---------------------------------------------------------------------------
  // Reading a formatted duration back

  /** `v` units of `u` in seconds. */
  function InSeconds(v: nat, u: char): nat {
    if u == 'h' then v * 3600 else if u == 'm' then v * 60 else v
  }

  predicate IsUnit(u: char) {
    u == 'h' || u == 'm' || u == 's'
  }

  /** How many decimal digits `s` starts with. */
  function LeadingDigits(s: string): (k: nat)
    ensures k <= |s| && AllDigits(s[..k])
    ensures k < |s| ==> !IsDigit(s[k])
    decreases |s|
  {
    if s != [] && IsDigit(s[0]) then
      var k := 1 + LeadingDigits(s[1..]);
      assert s[..k] == [s[0]] + s[1..][..k - 1];
      k
    else 0
  }

  /** The first stem of `s`: the seconds it denotes and what follows its unit. */
  function Stem(s: string): (r: Option<(nat, string)>)
    ensures r.Some? ==> |r.value.1| < |s|
  {
    var k := LeadingDigits(s);
    if k == 0 || k == |s| || !IsUnit(s[k]) then None
    else Some((InSeconds(DigitsValue(s[..k]), s[k]), s[k + 1..]))
  }

  /** The seconds denoted by stems written without spaces, such as `1h05m00s`. */
  function ReadStems(s: string): Option<int>
    decreases |s|
  {
    if s == [] then Some(0)
    else
      var st := Stem(s);
      if st.None? then None
      else
        var rest := ReadStems(st.value.1);
        if rest.None? then None else Some(st.value.0 + rest.value)
  }

  /** The seconds a formatted duration shows: spaces are ignored, a leading `-`
      negates. */
  function ReadShown(s: string): Option<int> {
    ReadSignedStems(RemoveAll(s, ' '))
  }

  function ReadSignedStems(c: string): Option<int> {
    if |c| > 0 && c[0] == '-' then
      var v := ReadStems(c[1..]);
      if v.None? then None else Some(-v.value)
    else ReadStems(c)
  }

  lemma {:induction false} LeadingDigitsOf(d: string, rest: string)
    requires AllDigits(d) && (rest == [] || !IsDigit(rest[0]))
    ensures LeadingDigits(d + rest) == |d|
    decreases |d|
  {
    if d != [] {
      assert (d + rest)[1..] == d[1..] + rest;
      LeadingDigitsOf(d[1..], rest);
    } else {
      assert d + rest == rest;
    }
  }

  /** Reading one stem off the front. */
  lemma StemOf(d: string, u: char, rest: string)
    requires d != [] && AllDigits(d) && IsUnit(u)
    ensures Stem(d + [u] + rest) == Some((InSeconds(DigitsValue(d), u), rest))
  {
    var s := d + [u] + rest;
    assert s == d + ([u] + rest);
    LeadingDigitsOf(d, [u] + rest);
    var k := |d|;
    assert s[k] == u;
    assert s[k + 1..] == rest;
    assert s[..k] == d;
  }

  function HoursPart(p: Parts): string {
    if p.hours.Some? then NatToString(p.hours.value) + "h" else ""
  }

  function MinutesPart(p: Parts): string {
    if p.minutes.Some? then ZeroPad2(p.minutes.value) + "m" else ""
  }

  function SecondsPart(p: Parts): string {
    ZeroPad2(p.seconds) + "s"
  }

  /** The stems with their spaces removed. */
  function Compact(p: Parts): string {
    HoursPart(p) + MinutesPart(p) + SecondsPart(p)
  }

  lemma NoSpaceInDigits(d: string)
    requires AllDigits(d)
    ensures ' ' !in d && '-' !in d
  {
    forall i | 0 <= i < |d| ensures d[i] != ' ' && d[i] != '-' {
      assert IsDigit(d[i]);
    }
  }

  lemma RemoveSpacesRJust(s: string, width: nat)
    requires AllDigits(s)
    ensures RemoveAll(RJust(s, width), ' ') == s
  {
    var r := RJust(s, width);
    var k := |r| - |s|;
    assert r == r[..k] + s;
    RemoveAllConcat(r[..k], s, ' ');
    RemoveAllOnly(r[..k], ' ');
    NoSpaceInDigits(s);
    RemoveAllAbsent(s, ' ');
  }

  lemma RemoveSpacesStem(d: string, u: char)
    requires AllDigits(d) && u != ' '
    ensures RemoveAll(d + [u], ' ') == d + [u]
  {
    NoSpaceInDigits(d);
    assert ' ' !in d + [u];
    RemoveAllAbsent(d + [u], ' ');
  }

  /** The hours stem and its separator, if any. */
  function HoursText(p: Parts): string {
    if p.hours.Some? then HoursStem(p.hours.value) + " " else ""
  }

  function MinutesText(p: Parts): string {
    if p.minutes.Some? then MinutesStem(p.minutes.value) + " " else ""
  }

  function Listed(o: Option<string>): seq<string> {
    if o.Some? then [o.value] else []
  }

  function Spaced(o: Option<string>): string {
    if o.Some? then o.value + " " else ""
  }

  /** Joining up to three stems with spaces: each stem but the last followed by a space. */
  lemma JoinOptional(a: Option<string>, b: Option<string>, c: string)
    ensures Join(Listed(a) + Listed(b) + [c], " ") == Spaced(a) + Spaced(b) + c
  {
    var bc := Listed(b) + [c];
    assert Listed(a) + Listed(b) + [c] == Listed(a) + bc;
    if b.Some? {
      assert bc == [b.value, c];
      assert bc[1..] == [c];
      assert Join(bc, " ") == Spaced(b) + c;
    } else {
      assert bc == [c];
    }
    if a.Some? {
      assert (Listed(a) + bc)[1..] == bc;
    } else {
      assert Listed(a) + bc == bc;
    }
  }

  lemma JoinStems(p: Parts)
    ensures Join(Stems(p), " ") == HoursText(p) + MinutesText(p) + SecondsStem(p.seconds)
  {
    var a := if p.hours.Some? then Some(HoursStem(p.hours.value)) else None;
    var b := if p.minutes.Some? then Some(MinutesStem(p.minutes.value)) else None;
    assert Stems(p) == Listed(a) + Listed(b) + [SecondsStem(p.seconds)];
    assert HoursText(p) == Spaced(a);
    assert MinutesText(p) == Spaced(b);
    JoinOptional(a, b, SecondsStem(p.seconds));
  }

  lemma RemoveSpacesHours(p: Parts)
    ensures RemoveAll(HoursText(p), ' ') == HoursPart(p)
  {
    if p.hours.Some? {
      RemoveSpacesPadded(HoursText(p), NatToString(p.hours.value));
    }
  }

  lemma RemoveSpacesPadded(s: string, d: string)
    requires AllDigits(d) && s == RJust(d, 2) + "h "
    ensures RemoveAll(s, ' ') == d + "h"
  {
    RemoveSpacesRJust(d, 2);
    RemoveAllConcat(RJust(d, 2), "h ", ' ');
    assert RemoveAll("h ", ' ') == "h";
  }

  lemma RemoveSpacesMinutes(p: Parts)
    ensures RemoveAll(MinutesText(p), ' ') == MinutesPart(p)
  {
    if p.minutes.Some? {
      var d := ZeroPad2(p.minutes.value);
      RemoveSpacesStem(d, 'm');
      assert MinutesText(p) == d + ['m'] + " ";
      RemoveAllConcat(d + ['m'], " ", ' ');
      assert RemoveAll(" ", ' ') == [];
    }
  }

  lemma RemoveSpacesJoin(p: Parts)
    ensures RemoveAll(Join(Stems(p), " "), ' ') == Compact(p)
  {
    JoinStems(p);
    RemoveSpacesHours(p);
    RemoveSpacesMinutes(p);
    RemoveSpacesStem(ZeroPad2(p.seconds), 's');
    RemoveAllConcat(HoursText(p) + MinutesText(p), SecondsStem(p.seconds), ' ');
    RemoveAllConcat(HoursText(p), MinutesText(p), ' ');
  }

  lemma ReadPrefixed(s: string, d: string, u: char, rest: string, r: int)
    requires d != [] && AllDigits(d) && IsUnit(u) && s == d + [u] + rest
    requires ReadStems(rest) == Some(r)
    ensures ReadStems(s) == Some(InSeconds(DigitsValue(d), u) + r)
  {
    StemOf(d, u, rest);
  }

  lemma ReadSecondsPart(p: Parts)
    ensures ReadStems(SecondsPart(p)) == Some(p.seconds as int)
  {
    var sec := ZeroPad2(p.seconds);
    assert ReadStems([]) == Some(0);
    ReadPrefixed(SecondsPart(p), sec, 's', [], 0);
  }

  lemma ReadMinutesPart(p: Parts)
    ensures ReadStems(MinutesPart(p) + SecondsPart(p)) == Some(Value(p.(hours := None)) as int)
  {
    ReadSecondsPart(p);
    if p.minutes.Some? {
      ReadPrefixed(MinutesPart(p) + SecondsPart(p), ZeroPad2(p.minutes.value), 'm', SecondsPart(p), p.seconds);
    } else {
      assert MinutesPart(p) + SecondsPart(p) == SecondsPart(p);
    }
  }

  lemma ReadHoursPart(p: Parts, rest: string, r: int)
    requires ReadStems(rest) == Some(r)
    ensures ReadStems(HoursPart(p) + rest) == Some((if p.hours.Some? then p.hours.value * 3600 else 0) + r)
  {
    if p.hours.Some? {
      var d := NatToString(p.hours.value);
      NatToStringRoundTrip(p.hours.value);
      ReadPrefixed(HoursPart(p) + rest, d, 'h', rest, r);
    } else {
      assert HoursPart(p) + rest == rest;
    }
  }

  lemma ReadCompact(p: Parts)
    ensures ReadStems(Compact(p)).Some? && ReadStems(Compact(p)).value == Value(p)
  {
    ReadMinutesPart(p);
    var mt := MinutesPart(p) + SecondsPart(p);
    var r := Value(p.(hours := None));
    var hv := if p.hours.Some? then p.hours.value * 3600 else 0;
    ReadHoursPart(p, mt, r);
    assert ReadStems(HoursPart(p) + mt) == Some(hv + r);
    CompactAssoc(p);
    assert Compact(p) == HoursPart(p) + mt;
    assert ReadStems(Compact(p)) == Some(hv + r);
    ValueSplit(p);
    assert Value(p) == hv + r;
  }

  lemma CompactAssoc(p: Parts)
    ensures Compact(p) == HoursPart(p) + (MinutesPart(p) + SecondsPart(p))
  {
  }

  lemma ValueSplit(p: Parts)
    ensures Value(p) == (if p.hours.Some? then p.hours.value * 3600 else 0) + Value(p.(hours := None))
  {
  }

  lemma RemoveSpacesRJustAny(s: string, width: nat)
    ensures RemoveAll(RJust(s, width), ' ') == RemoveAll(s, ' ')
  {
    var r := RJust(s, width);
    var k := |r| - |s|;
    assert r == r[..k] + s;
    RemoveAllConcat(r[..k], s, ' ');
    RemoveAllOnly(r[..k], ' ');
  }

  /** The text by which `t` is shown without its spaces: the sign, then the stems. */
  lemma RemoveSpacesBody(t: int)
    ensures RemoveAll(Body(t), ' ') == (if t < 0 then "-" else "") + Compact(Breakdown(Magnitude(t)))
  {
    var sign := if t < 0 then "-" else "";
    var joined := Join(Stems(Breakdown(Magnitude(t))), " ");
    RemoveAllConcat(sign, joined, ' ');
    RemoveSpacesJoin(Breakdown(Magnitude(t)));
    assert RemoveAll("-", ' ') == "-";
    assert RemoveAll("", ' ') == "";
  }

  lemma ReadNegative(r: string, c: string, n: int)
    requires c != [] && IsDigit(c[0]) && r == "-" + c && ReadStems(c) == Some(n)
    ensures ReadSignedStems(r) == Some(-n)
  {
    assert r[1..] == c;
  }

  lemma ReadNonNegative(c: string, n: int)
    requires c != [] && IsDigit(c[0]) && ReadStems(c) == Some(n)
    ensures ReadSignedStems(c) == Some(n)
  {
  }

  /** Reading the formatted text back gives the truncated number of seconds: the
      shown hours, minutes and seconds add up to it, and the sign is its sign. */
  lemma FormatReadBack(whole: int, micros: nat)
    requires micros < MicrosPerSecond
    ensures ReadShown(FormatTimedelta(whole, micros)) == Some(Truncate(whole, micros))
  {
    var t := Truncate(whole, micros);
    var out := FormatTimedelta(whole, micros);
    ShownCompact(out, t);
    ShownValue(RemoveAll(out, ' '), t);
  }

  lemma ShownCompact(out: string, t: int)
    requires out == RJust(Body(t), 12)
    ensures RemoveAll(out, ' ') == (if t < 0 then "-" else "") + Compact(Breakdown(Magnitude(t)))
  {
    RemoveSpacesRJustAny(Body(t), 12);
    RemoveSpacesBody(t);
  }

  lemma ShownValue(c: string, t: int)
    requires c == (if t < 0 then "-" else "") + Compact(Breakdown(Magnitude(t)))
    ensures ReadSignedStems(c) == Some(t)
  {
    var p := Breakdown(Magnitude(t));
    ReadCompact(p);
    StartsWithDigit(p);
    if t < 0 {
      ReadNegative(c, Compact(p), Value(p));
    } else {
      assert c == Compact(p);
      ReadNonNegative(Compact(p), Value(p));
    }
  }

  lemma StartsWithDigit(p: Parts)
    ensures Compact(p) != [] && IsDigit(Compact(p)[0])
  {
    if p.hours.Some? {
      assert Compact(p)[0] == NatToString(p.hours.value)[0];
    } else if p.minutes.Some? {
      assert Compact(p)[0] == ZeroPad2(p.minutes.value)[0];
    } else {
      assert Compact(p)[0] == ZeroPad2(p.seconds)[0];
    }
  }

  /** A `-` appears in the text exactly when the truncated seconds are negative. */
  lemma MinusIffNegative(whole: int, micros: nat)
    requires micros < MicrosPerSecond
    ensures '-' in FormatTimedelta(whole, micros) <==> Truncate(whole, micros) < 0
  {
    var t := Truncate(whole, micros);
    var p := Breakdown(Magnitude(t));
    var r := FormatTimedelta(whole, micros);
    RemoveSpacesRJustAny(Body(t), 12);
    RemoveSpacesBody(t);
    var c := RemoveAll(r, ' ');
    assert '-' in r <==> '-' in c;
    CompactHasNoMinus(p);
    if t < 0 {
      assert c[0] == '-';
    } else {
      assert c == Compact(p);
    }
  }

  lemma CompactHasNoMinus(p: Parts)
    ensures '-' !in Compact(p)
  {
    NoSpaceInDigits(ZeroPad2(p.seconds));
    if p.minutes.Some? {
      NoSpaceInDigits(ZeroPad2(p.minutes.value));
    }
    if p.hours.Some? {
      NoSpaceInDigits(NatToString(p.hours.value));
    }
  }

  /** The boundary cases: exactly an hour shows as minutes, exactly a minute as
      seconds, and a minute past the hour shows no minutes stem. */
  lemma Boundaries()
    ensures Stems(Breakdown(3600)) == [MinutesStem(60), SecondsStem(0)]
    ensures Stems(Breakdown(60)) == [SecondsStem(60)]
    ensures Stems(Breakdown(3660)) == [HoursStem(1), SecondsStem(60)]
  {
  }
}
