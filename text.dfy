/** String and sequence helpers with the meaning Python gives them: `str.startswith`,
    `in`, `str.strip`, `str.lower` on ASCII letters, `str.join`, `str.split` on one
    character, decimal formatting, code-point ordering of strings, `sorted(set(...))`
    and order-preserving de-duplication. */
module Text {
  import opened Wrappers

  // ---------------------------------------------------------------------------
  // Sequences

  function Elements<T>(s: seq<T>): set<T> {
    set x | x in s
  }

  predicate Distinct<T(==)>(s: seq<T>) {
    forall i, j :: 0 <= i < j < |s| ==> s[i] != s[j]
  }

  /** `a` is `b` with some elements left out, the others kept in order. */
  predicate SubsequenceOf<T(==)>(a: seq<T>, b: seq<T>)
    decreases |b|
  {
    if a == [] then true
    else if b == [] then false
    else if a[0] == b[0] then SubsequenceOf(a[1..], b[1..])
    else SubsequenceOf(a, b[1..])
  }

  lemma {:induction false} SubsequenceOfElements<T>(a: seq<T>, b: seq<T>)
    requires SubsequenceOf(a, b)
    ensures Elements(a) <= Elements(b)
    ensures |a| <= |b|
    decreases |b|
  {
    if a != [] && b != [] {
      if a[0] == b[0] {
        SubsequenceOfElements(a[1..], b[1..]);
        assert a == [a[0]] + a[1..];
        assert b == [b[0]] + b[1..];
        assert Elements(a) == {a[0]} + Elements(a[1..]);
        assert Elements(b) == {b[0]} + Elements(b[1..]);
      } else {
        SubsequenceOfElements(a, b[1..]);
        assert b == [b[0]] + b[1..];
        assert Elements(b) == {b[0]} + Elements(b[1..]);
      }
    }
  }

  lemma SubsequenceOfSelf<T>(a: seq<T>)
    ensures SubsequenceOf(a, a)
    decreases |a|
  {
    if a != [] {
      SubsequenceOfSelf(a[1..]);
    }
  }

  /** Leaving out one more element at the front keeps a subsequence. */
  lemma {:induction false} SubsequenceOfTail<T>(a: seq<T>, b: seq<T>)
    requires b != [] && SubsequenceOf(a, b[1..])
    ensures SubsequenceOf(a, b)
    decreases |b|, 1
  {
    if a != [] && a[0] == b[0] {
      SubsequenceDropHead(a, b[1..]);
    }
  }

  lemma {:induction false} SubsequenceDropHead<T>(a: seq<T>, c: seq<T>)
    requires a != [] && SubsequenceOf(a, c)
    ensures SubsequenceOf(a[1..], c)
    decreases |c|, 2
  {
    if a[0] == c[0] {
      SubsequenceOfTail(a[1..], c);
    } else {
      SubsequenceDropHead(a, c[1..]);
      SubsequenceOfTail(a[1..], c);
    }
  }

  /** The same elements, each once, in the order of their first occurrence
      (the order-preserving `deduplicate` helper). */
  function Dedupe<T(==)>(s: seq<T>): (r: seq<T>)
    ensures Distinct(r)
    ensures Elements(r) == Elements(s)
    ensures Distinct(s) ==> r == s
    decreases |s|
  {
    if s == [] then []
    else
      var init := Dedupe(s[..|s| - 1]);
      assert s == s[..|s| - 1] + [s[|s| - 1]];
      assert Elements(s) == Elements(s[..|s| - 1]) + {s[|s| - 1]};
      if s[|s| - 1] in init then init else init + [s[|s| - 1]]
  }

  // ---------------------------------------------------------------------------
  // Prefixes, substrings and searching

  predicate StartsWith(s: string, prefix: string) {
    |prefix| <= |s| && s[..|prefix|] == prefix
  }

  predicate OccursAt(s: string, pat: string, i: int) {
    0 <= i && i + |pat| <= |s| && s[i..i + |pat|] == pat
  }

  /** Python's `pat in s` for two strings. */
  predicate Contains(s: string, pat: string) {
    exists i :: 0 <= i <= |s| && OccursAt(s, pat, i)
  }

  function IndexFrom(s: string, pat: string, k: nat): (r: Option<nat>)
    ensures r.Some? ==> k <= r.value && OccursAt(s, pat, r.value)
    ensures r.Some? ==> forall j :: k <= j < r.value ==> !OccursAt(s, pat, j)
    ensures r.None? ==> forall j :: k <= j ==> !OccursAt(s, pat, j)
    decreases |s| - k
  {
    if k + |pat| > |s| then None
    else if s[k..k + |pat|] == pat then Some(k)
    else IndexFrom(s, pat, k + 1)
  }

  /** The first position at which `pat` occurs in `s` (Python's `str.find`). */
  function IndexOf(s: string, pat: string): (r: Option<nat>)
    ensures r.Some? ==> OccursAt(s, pat, r.value)
    ensures r.Some? ==> forall j :: 0 <= j < r.value ==> !OccursAt(s, pat, j)
    ensures r.None? <==> !Contains(s, pat)
  {
    IndexFrom(s, pat, 0)
  }

  /** The first position of character `c` in `s`. */
  function IndexOfChar(s: string, c: char): (i: nat)
    requires c in s
    ensures i < |s| && s[i] == c && c !in s[..i]
  {
    if s[0] == c then 0 else 1 + IndexOfChar(s[1..], c)
  }

  // ---------------------------------------------------------------------------
  // Whitespace, stripping, case

  /** Python's `str.isspace` for one character. */
  predicate IsSpace(c: char) {
    c == ' ' || ('\t' <= c <= '\r') || ('\U{1c}' <= c <= '\U{1f}')
    || c as int == 0x85 || c as int == 0xa0 || c as int == 0x1680
    || (0x2000 <= c as int <= 0x200a) || c as int == 0x2028 || c as int == 0x2029
    || c as int == 0x202f || c as int == 0x205f || c as int == 0x3000
  }

  function TrimLeft(s: string): (r: string)
    ensures |r| <= |s| && r == s[|s| - |r|..]
    ensures forall i :: 0 <= i < |s| - |r| ==> IsSpace(s[i])
    ensures r == [] || !IsSpace(r[0])
  {
    if |s| > 0 && IsSpace(s[0]) then TrimLeft(s[1..]) else s
  }

  function TrimRight(s: string): (r: string)
    ensures |r| <= |s| && r == s[..|r|]
    ensures forall i :: |r| <= i < |s| ==> IsSpace(s[i])
    ensures r == [] || !IsSpace(r[|r| - 1])
  {
    if |s| > 0 && IsSpace(s[|s| - 1]) then TrimRight(s[..|s| - 1]) else s
  }

  /** Python's `str.strip()` with no argument: whitespace removed at both ends. */
  function Strip(s: string): (r: string)
    ensures |r| <= |s|
    ensures r == [] || (!IsSpace(r[0]) && !IsSpace(r[|r| - 1]))
    ensures (forall i :: 0 <= i < |s| ==> IsSpace(s[i])) <==> r == []
  {
    var l := TrimLeft(s);
    var r := TrimRight(l);
    assert r != [] ==> r[0] == l[0];
    r
  }

  lemma StripNoSpace(s: string)
    requires s != [] && !IsSpace(s[0]) && !IsSpace(s[|s| - 1])
    ensures Strip(s) == s
  {
  }

  lemma StripIdempotent(s: string)
    ensures Strip(Strip(s)) == Strip(s)
  {
    var t := Strip(s);
    if t != [] {
      StripNoSpace(t);
    }
  }

  function LowerChar(c: char): char {
    if 'A' <= c <= 'Z' then (c as int + 32) as char else c
  }

  /** Python's `str.lower()` restricted to the ASCII letters. */
  function Lower(s: string): (r: string)
    ensures |r| == |s| && forall i :: 0 <= i < |s| ==> r[i] == LowerChar(s[i])
  {
    seq(|s|, i requires 0 <= i < |s| => LowerChar(s[i]))
  }

  // ---------------------------------------------------------------------------
  // Joining and splitting

  /** Python's `sep.join(parts)`. */
  function Join(parts: seq<string>, sep: string): string
    decreases |parts|
  {
    if parts == [] then ""
    else if |parts| == 1 then parts[0]
    else parts[0] + sep + Join(parts[1..], sep)
  }

  lemma JoinAppend(parts: seq<string>, last: string, sep: string)
    requires parts != []
    ensures Join(parts + [last], sep) == Join(parts, sep) + sep + last
    decreases |parts|
  {
    if |parts| == 1 {
      assert parts + [last] == [parts[0], last];
    } else {
      assert (parts + [last])[1..] == parts[1..] + [last];
      JoinAppend(parts[1..], last, sep);
    }
  }

  /** Python's `s.split(c)` for a one-character separator: always at least one
      piece, none of which contains `c`. */
  function Split(s: string, c: char): (r: seq<string>)
    ensures |r| >= 1
    ensures forall i :: 0 <= i < |r| ==> c !in r[i]
    decreases |s|
  {
    if c !in s then [s]
    else
      var i := IndexOfChar(s, c);
      [s[..i]] + Split(s[i + 1..], c)
  }

  /** Joining the pieces of a split with the separator gives the text back. */
  lemma {:induction false} JoinSplit(s: string, c: char)
    ensures Join(Split(s, c), [c]) == s
    decreases |s|
  {
    if c in s {
      var i := IndexOfChar(s, c);
      var tail := Split(s[i + 1..], c);
      JoinSplit(s[i + 1..], c);
      assert Split(s, c) == [s[..i]] + tail;
      assert ([s[..i]] + tail)[1..] == tail;
      assert s == s[..i] + [c] + s[i + 1..];
    }
  }

  /** Every piece of a split is made of characters of the text. */
  lemma {:induction false} SplitPiecesIn(s: string, c: char)
    ensures forall k, d :: 0 <= k < |Split(s, c)| && d in Split(s, c)[k] ==> d in s
    decreases |s|
  {
    if c in s {
      var i := IndexOfChar(s, c);
      var tail := Split(s[i + 1..], c);
      SplitPiecesIn(s[i + 1..], c);
      assert Split(s, c) == [s[..i]] + tail;
      forall k, d | 0 <= k < |Split(s, c)| && d in Split(s, c)[k] ensures d in s {
        if k == 0 {
          assert d in s[..i];
        } else {
          assert d in tail[k - 1];
          assert d in s[i + 1..];
        }
      }
    }
  }

  /** Splitting a join on a separator that occurs in no part gives the parts back. */
  lemma {:induction false} SplitJoin(parts: seq<string>, c: char)
    requires parts != []
    requires forall i :: 0 <= i < |parts| ==> c !in parts[i]
    ensures Split(Join(parts, [c]), c) == parts
    decreases |parts|
  {
    if |parts| > 1 {
      var s := Join(parts, [c]);
      var rest := Join(parts[1..], [c]);
      var n := |parts[0]|;
      assert s == parts[0] + [c] + rest;
      assert s[n] == c;
      var i := IndexOfChar(s, c);
      assert i == n;
      assert s[..i] == parts[0];
      assert s[i + 1..] == rest;
      SplitJoin(parts[1..], c);
    }
  }

  /** `s` with every occurrence of `c` removed. */
  function RemoveAll(s: string, c: char): (r: string)
    ensures c !in r
    ensures forall d :: d != c ==> (d in r <==> d in s)
    ensures |r| <= |s|
    decreases |s|
  {
    if s == [] then []
    else
      assert s == [s[0]] + s[1..];
      (if s[0] == c then [] else [s[0]]) + RemoveAll(s[1..], c)
  }

  lemma {:induction false} RemoveAllAbsent(s: string, c: char)
    requires c !in s
    ensures RemoveAll(s, c) == s
    decreases |s|
  {
    if s != [] {
      assert c !in s[1..];
      RemoveAllAbsent(s[1..], c);
    }
  }

  lemma {:induction false} RemoveAllConcat(a: string, b: string, c: char)
    ensures RemoveAll(a + b, c) == RemoveAll(a, c) + RemoveAll(b, c)
    decreases |a|
  {
    if a != [] {
      var head: string := if a[0] == c then [] else [a[0]];
      assert (a + b)[0] == a[0];
      assert (a + b)[1..] == a[1..] + b;
      assert RemoveAll(a + b, c) == head + RemoveAll(a[1..] + b, c);
      RemoveAllConcat(a[1..], b, c);
      assert RemoveAll(a, c) == head + RemoveAll(a[1..], c);
    } else {
      assert a + b == b;
    }
  }

  /** Removing `c` from a run of `c` leaves nothing. */
  lemma {:induction false} RemoveAllOnly(s: string, c: char)
    requires forall i :: 0 <= i < |s| ==> s[i] == c
    ensures RemoveAll(s, c) == []
    decreases |s|
  {
    if s != [] {
      assert s[0] == c;
      RemoveAllOnly(s[1..], c);
    }
  }

  /** `s` with the first occurrence of `c` removed (`s.replace(c, '', 1)`). */
  function RemoveFirst(s: string, c: char): (r: string)
    ensures c in s ==> |r| == |s| - 1
    ensures c in s ==> var i := IndexOfChar(s, c); r == s[..i] + s[i + 1..]
    ensures c !in s ==> r == s
  {
    if c in s then
      var i := IndexOfChar(s, c);
      s[..i] + s[i + 1..]
    else s
  }

  // ---------------------------------------------------------------------------
  // Decimal numbers and padding

  predicate IsDigit(c: char) {
    '0' <= c <= '9'
  }

  predicate AllDigits(s: string) {
    forall i :: 0 <= i < |s| ==> IsDigit(s[i])
  }

  function DigitChar(d: nat): (c: char)
    requires d < 10
    ensures IsDigit(c) && c as int - '0' as int == d
  {
    ('0' as int + d) as char
  }

  /** The decimal digits of `n`, most significant first, without leading zeros. */
  function NatToString(n: nat): (r: string)
    ensures |r| >= 1 && AllDigits(r)
    ensures n < 10 <==> |r| == 1
    decreases n
  {
    if n < 10 then [DigitChar(n)] else NatToString(n / 10) + [DigitChar(n % 10)]
  }

  /** The number that a string of decimal digits denotes. */
  function DigitsValue(s: string): nat
    requires AllDigits(s)
    decreases |s|
  {
    if s == [] then 0
    else DigitsValue(s[..|s| - 1]) * 10 + (s[|s| - 1] as int - '0' as int)
  }

  lemma {:induction false} NatToStringRoundTrip(n: nat)
    ensures DigitsValue(NatToString(n)) == n
    decreases n
  {
    if n >= 10 {
      NatToStringRoundTrip(n / 10);
      var s := NatToString(n);
      assert s[..|s| - 1] == NatToString(n / 10);
    }
  }

  lemma {:induction false} DigitsValueLeadingZero(s: string)
    requires AllDigits(s) && s != [] && s[0] == '0'
    ensures DigitsValue(s) == DigitsValue(s[1..])
    decreases |s|
  {
    if |s| > 1 {
      DigitsValueLeadingZero(s[..|s| - 1]);
      assert s[..|s| - 1][1..] == s[1..][..|s[1..]| - 1];
    } else {
      assert s[1..] == [];
    }
  }

  /** Right-justify `s` with spaces to at least `width` characters (`'{:>w}'`). */
  function RJust(s: string, width: nat): (r: string)
    ensures |r| == if |s| >= width then |s| else width
    ensures r[|r| - |s|..] == s
    ensures forall i :: 0 <= i < |r| - |s| ==> r[i] == ' '
  {
    if |s| >= width then s else seq(width - |s|, _ => ' ') + s
  }

  /** `'{:02}'.format(n)`: at least two digits, padded with a leading zero. */
  function ZeroPad2(n: nat): (r: string)
    ensures |r| >= 2 && AllDigits(r) && DigitsValue(r) == n
  {
    NatToStringRoundTrip(n);
    if n < 10 then
      var r := "0" + NatToString(n);
      DigitsValueLeadingZero(r);
      assert r[1..] == NatToString(n);
      r
    else NatToString(n)
  }

  // ---------------------------------------------------------------------------
  // Ordering of strings by code point, and `sorted(set(xs))`

  /** Python's `a < b` on strings: lexicographic by code point. */
  predicate Less(a: string, b: string)
    decreases |a|
  {
    if |a| == 0 then |b| > 0
    else if |b| == 0 then false
    else if a[0] == b[0] then Less(a[1..], b[1..])
    else a[0] < b[0]
  }

  lemma {:induction false} LessIrreflexive(a: string)
    ensures !Less(a, a)
    decreases |a|
  {
    if |a| > 0 {
      LessIrreflexive(a[1..]);
    }
  }

  lemma {:induction false} LessTransitive(a: string, b: string, c: string)
    requires Less(a, b) && Less(b, c)
    ensures Less(a, c)
    decreases |a|
  {
    if |a| > 0 && |b| > 0 && |c| > 0 && a[0] == b[0] && b[0] == c[0] {
      LessTransitive(a[1..], b[1..], c[1..]);
    }
  }

  lemma {:induction false} LessTotal(a: string, b: string)
    ensures a == b || Less(a, b) || Less(b, a)
    decreases |a|
  {
    if |a| > 0 && |b| > 0 && a[0] == b[0] {
      LessTotal(a[1..], b[1..]);
      if a[1..] == b[1..] {
        assert a == [a[0]] + a[1..] && b == [b[0]] + b[1..];
      }
    }
  }

  predicate StrictlySorted(s: seq<string>) {
    forall i, j :: 0 <= i < j < |s| ==> Less(s[i], s[j])
  }

  lemma StrictlySortedDistinct(s: seq<string>)
    requires StrictlySorted(s)
    ensures Distinct(s)
  {
    forall i, j | 0 <= i < j < |s| ensures s[i] != s[j] {
      LessIrreflexive(s[i]);
    }
  }

  /** A subsequence of a strictly sorted list is strictly sorted. */
  lemma {:induction false} SubsequenceSorted(a: seq<string>, b: seq<string>)
    requires SubsequenceOf(a, b) && StrictlySorted(b)
    ensures StrictlySorted(a)
    decreases |b|
  {
    if a != [] {
      assert b != [];
      SortedTail(b);
      if a[0] == b[0] {
        SubsequenceSorted(a[1..], b[1..]);
        SubsequenceOfElements(a[1..], b[1..]);
        forall y | y in a[1..] ensures Less(a[0], y) {
          assert y in Elements(a[1..]);
        }
        ConsSorted(a[0], a[1..]);
        assert a == [a[0]] + a[1..];
      } else {
        SubsequenceSorted(a, b[1..]);
      }
    }
  }

  /** Insert `x` into a strictly sorted sequence unless it is already there. */
  function InsertSorted(x: string, s: seq<string>): seq<string>
    decreases |s|
  {
    if s == [] then [x]
    else if x == s[0] then s
    else if Less(x, s[0]) then [x] + s
    else [s[0]] + InsertSorted(x, s[1..])
  }

  lemma {:induction false} InsertSortedElements(x: string, s: seq<string>)
    ensures Elements(InsertSorted(x, s)) == Elements(s) + {x}
    decreases |s|
  {
    if s != [] && x != s[0] && !Less(x, s[0]) {
      InsertSortedElements(x, s[1..]);
      assert s == [s[0]] + s[1..];
      assert Elements(s) == {s[0]} + Elements(s[1..]);
      var rest := InsertSorted(x, s[1..]);
      assert Elements([s[0]] + rest) == {s[0]} + Elements(rest);
    } else if s != [] && x != s[0] {
      assert Elements([x] + s) == {x} + Elements(s);
    }
  }

  lemma SortedTail(s: seq<string>)
    requires StrictlySorted(s) && s != []
    ensures StrictlySorted(s[1..])
    ensures forall y :: y in s[1..] ==> Less(s[0], y)
  {
    forall y | y in s[1..] ensures Less(s[0], y) {
      var k :| 0 <= k < |s[1..]| && s[1..][k] == y;
      assert s[k + 1] == y;
    }
  }

  lemma ConsSorted(h: string, t: seq<string>)
    requires StrictlySorted(t)
    requires forall y :: y in t ==> Less(h, y)
    ensures StrictlySorted([h] + t)
  {
    var r := [h] + t;
    forall i, j | 0 <= i < j < |r| ensures Less(r[i], r[j]) {
      assert r[j] == t[j - 1];
      if i > 0 {
        assert r[i] == t[i - 1];
      } else {
        assert t[j - 1] in t;
      }
    }
  }

  lemma {:induction false} InsertSortedSorted(x: string, s: seq<string>)
    requires StrictlySorted(s)
    ensures StrictlySorted(InsertSorted(x, s))
    decreases |s|
  {
    if s == [] {
    } else if x == s[0] {
    } else if Less(x, s[0]) {
      SortedTail(s);
      forall y | y in s ensures Less(x, y) {
        if y != s[0] {
          LessTransitive(x, s[0], y);
        }
      }
      ConsSorted(x, s);
    } else {
      LessTotal(x, s[0]);
      SortedTail(s);
      InsertSortedSorted(x, s[1..]);
      InsertSortedElements(x, s[1..]);
      var rest := InsertSorted(x, s[1..]);
      forall y | y in rest ensures Less(s[0], y) {
        assert y in Elements(rest);
      }
      ConsSorted(s[0], rest);
    }
  }

  /** Python's `sorted(set(xs))` for strings. */
  function SortedUnique(xs: seq<string>): (r: seq<string>)
    ensures StrictlySorted(r)
    ensures Elements(r) == Elements(xs)
    decreases |xs|
  {
    if xs == [] then []
    else
      assert xs == xs[..|xs| - 1] + [xs[|xs| - 1]];
      assert Elements(xs) == Elements(xs[..|xs| - 1]) + {xs[|xs| - 1]};
      var init := SortedUnique(xs[..|xs| - 1]);
      InsertSortedSorted(xs[|xs| - 1], init);
      InsertSortedElements(xs[|xs| - 1], init);
      InsertSorted(xs[|xs| - 1], init)
  }

  /** Keep the elements of `xs` that start with `prefix`, in order (the body of
      every completion generator). */
  function WithPrefix(xs: seq<string>, prefix: string): (r: seq<string>)
    ensures forall x :: x in r <==> x in xs && StartsWith(x, prefix)
    ensures SubsequenceOf(r, xs)
    ensures (forall i :: 0 <= i < |xs| ==> StartsWith(xs[i], prefix)) ==> r == xs
    decreases |xs|
  {
    if xs == [] then []
    else
      var rest := WithPrefix(xs[1..], prefix);
      assert forall x :: x in xs <==> x == xs[0] || x in xs[1..] by {
        assert xs == [xs[0]] + xs[1..];
      }
      if StartsWith(xs[0], prefix) then
        assert ([xs[0]] + rest)[1..] == rest;
        [xs[0]] + rest
      else rest
  }
}
