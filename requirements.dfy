/** `parse_requirements` of the setup script: the package names of a
    requirements file. Comment lines and pip options are skipped, a VCS line
    contributes its `#egg=` name, and ignored names are left out. */
module Requirements {
  import opened Wrappers
  import opened Text

  const Egg: string := "#egg="

  /** The names the setup script ignores by default. */
  const DefaultIgnore: seq<string> := ["setuptools"]

  predicate Skipped(s: string) {
    StartsWith(s, "#") || StartsWith(s, "-r") || StartsWith(s, "--")
  }

  /** `s.split('#egg=')[1]`: the text after the first `#egg=`, up to the next one. */
  function AfterEgg(s: string): (r: string)
    requires Contains(s, Egg)
    ensures exists i :: 0 <= i <= |s| - |Egg| && OccursAt(s, Egg, i) && StartsWith(s[i + |Egg|..], r)
    ensures !Contains(r, Egg)
  {
    var i := IndexOf(s, Egg).value;
    var after := s[i + |Egg|..];
    var next := IndexOf(after, Egg);
    if next.None? then
      assert StartsWith(after, after);
      after
    else
      var r := after[..next.value];
      assert !Contains(r, Egg) by {
        forall j | 0 <= j <= |r| ensures !OccursAt(r, Egg, j) {
          if OccursAt(r, Egg, j) {
            assert after[j..j + |Egg|] == r[j..j + |Egg|];
            assert OccursAt(after, Egg, j);
          }
        }
      }
      r
  }

  /** What one line contributes before the ignore list is consulted: nothing
      for a comment or an option line, the stripped `#egg=` name for a VCS line
      and the stripped line otherwise. */
  function Requirement(line: string): (r: Option<string>)
    ensures r.None? <==> Skipped(Strip(line))
  {
    var s := Strip(line);
    if Skipped(s) then None
    else Some(Strip(if Contains(s, Egg) then AfterEgg(s) else s))
  }

  /** A line that is not skipped contributes its stripped text, or the stripped
      text after its first `#egg=`; either way a name without surrounding
      whitespace. */
  lemma RequirementValue(line: string)
    requires Requirement(line).Some?
    ensures var s := Strip(line);
      && (!Contains(s, Egg) ==> Requirement(line).value == s)
      && (Contains(s, Egg) ==> Requirement(line).value == Strip(AfterEgg(s)))
      && Strip(Requirement(line).value) == Requirement(line).value
  {
    var s := Strip(line);
    StripIdempotent(line);
    StripIdempotent(if Contains(s, Egg) then AfterEgg(s) else s);
  }

  /** What each line contributes, in file order. */
  function Contributions(lines: seq<string>): (r: seq<Option<string>>)
    ensures |r| == |lines| && forall i :: 0 <= i < |lines| ==> r[i] == Requirement(lines[i])
  {
    seq(|lines|, i requires 0 <= i < |lines| => Requirement(lines[i]))
  }

  /** The names among `reqs` that are not ignored. */
  function Gather(reqs: seq<Option<string>>, ignore: seq<string>): (r: set<string>)
    decreases |reqs|
  {
    if reqs == [] then {}
    else
      var last := reqs[|reqs| - 1];
      Gather(reqs[..|reqs| - 1], ignore) + (if last.Some? && last.value !in ignore then {last.value} else {})
  }

  lemma {:induction false} GatherMembers(reqs: seq<Option<string>>, ignore: seq<string>)
    ensures forall p :: p in Gather(reqs, ignore) <==>
      p !in ignore && exists i :: 0 <= i < |reqs| && reqs[i] == Some(p)
    decreases |reqs|
  {
    if reqs != [] {
      var init := reqs[..|reqs| - 1];
      GatherMembers(init, ignore);
      forall p ensures p in Gather(reqs, ignore) <==>
        p !in ignore && exists i :: 0 <= i < |reqs| && reqs[i] == Some(p)
      {
        if p !in ignore && exists i :: 0 <= i < |reqs| && reqs[i] == Some(p) {
          var i :| 0 <= i < |reqs| && reqs[i] == Some(p);
          if i < |init| {
            assert init[i] == reqs[i];
          }
        }
        if p in Gather(init, ignore) {
          var i :| 0 <= i < |init| && init[i] == Some(p);
          assert init[i] == reqs[i];
        }
      }
    }
  }

  /** The package set after the loop has read `lines`. */
  function Collected(lines: seq<string>, ignore: seq<string>): set<string> {
    Gather(Contributions(lines), ignore)
  }

  /** The packages are exactly the names some line contributes that are not
      ignored; being a set, the result holds each name once. */
  lemma CollectedMembers(lines: seq<string>, ignore: seq<string>)
    ensures forall p :: p in Collected(lines, ignore) <==>
      p !in ignore && exists i :: 0 <= i < |lines| && Requirement(lines[i]) == Some(p)
  {
    var reqs := Contributions(lines);
    GatherMembers(reqs, ignore);
    forall p ensures (exists i :: 0 <= i < |reqs| && reqs[i] == Some(p)) <==>
      (exists i :: 0 <= i < |lines| && Requirement(lines[i]) == Some(p))
    {
      if exists i :: 0 <= i < |lines| && Requirement(lines[i]) == Some(p) {
        var i :| 0 <= i < |lines| && Requirement(lines[i]) == Some(p);
        assert reqs[i] == Some(p);
      }
    }
  }

  /** Reading one more line adds what that line contributes. */
  lemma CollectedSnoc(lines: seq<string>, k: nat, ignore: seq<string>)
    requires k < |lines|
    ensures var req := Requirement(lines[k]);
      Collected(lines[..k + 1], ignore) ==
        Collected(lines[..k], ignore) + (if req.Some? && req.value !in ignore then {req.value} else {})
  {
    var reqs := Contributions(lines[..k + 1]);
    assert reqs[..k] == Contributions(lines[..k]);
    assert reqs[k] == Requirement(lines[k]);
  }

  /** The loop over the lines of the file; the file is read by the caller. The
      result is a set, as the script's `tuple(packages)` has no defined order. */
  method ParseRequirements(lines: seq<string>, ignore: seq<string>) returns (packages: set<string>)
    ensures packages == Collected(lines, ignore)
  {
    packages := {};
    var k := 0;
    assert lines[..0] == [];
    while k < |lines|
      invariant 0 <= k <= |lines|
      invariant packages == Collected(lines[..k], ignore)
    {
      CollectedSnoc(lines, k, ignore);
      var line := Strip(lines[k]);
      if StartsWith(line, "#") || StartsWith(line, "-r") || StartsWith(line, "--") {
        k := k + 1;
        continue;
      }
      if Contains(line, Egg) {
        line := AfterEgg(line);
      }
      var pkg := Strip(line);
      assert Requirement(lines[k]) == Some(pkg);
      if pkg !in ignore {
        packages := packages + {pkg};
      }
      k := k + 1;
    }
    assert lines[..|lines|] == lines;
  }

  /** No ignored name is collected, and a comment or option line adds nothing. */
  lemma IgnoredAndSkipped(lines: seq<string>, ignore: seq<string>, line: string)
    ensures forall p :: p in ignore ==> p !in Collected(lines, ignore)
    ensures Skipped(Strip(line)) ==> Collected(lines + [line], ignore) == Collected(lines, ignore)
  {
    CollectedMembers(lines, ignore);
    CollectedSnoc(lines + [line], |lines|, ignore);
    assert (lines + [line])[..|lines|] == lines;
    assert (lines + [line])[..|lines| + 1] == lines + [line];
  }

  /** A blank line contributes the empty name, unless it is ignored. */
  lemma BlankLineContributesEmpty(lines: seq<string>, ignore: seq<string>, line: string)
    requires forall i :: 0 <= i < |line| ==> IsSpace(line[i])
    requires [] !in ignore
    ensures [] in Collected(lines + [line], ignore)
  {
    assert Strip(line) == [];
    assert !Contains([], Egg) by {
      forall j | 0 <= j <= 0 ensures !OccursAt([], Egg, j) {}
    }
    assert Strip([]) == [];
    assert Requirement(line) == Some([]);
    CollectedSnoc(lines + [line], |lines|, ignore);
    assert (lines + [line])[..|lines|] == lines;
    assert (lines + [line])[..|lines| + 1] == lines + [line];
  }

  /** A VCS line of the form `<url>#egg=<name>` contributes its name. */
  lemma EggLineContributesName(url: string, name: string)
    requires url != [] && !IsSpace(url[0]) && '#' !in url && url[0] != '-'
    requires name != [] && !IsSpace(name[|name| - 1]) && !Contains(name, Egg)
    ensures Requirement(url + Egg + name) == Some(Strip(name))
  {
    var s := url + Egg + name;
    assert s[0] == url[0] && s[|s| - 1] == name[|name| - 1];
    StripNoSpace(s);
    assert OccursAt(s, Egg, |url|) by {
      assert s[|url|..|url| + |Egg|] == Egg;
    }
    forall j | 0 <= j < |url| ensures !OccursAt(s, Egg, j) {
      assert s[j] == url[j];
    }
    var i := IndexOf(s, Egg).value;
    assert i == |url|;
    assert s[i + |Egg|..] == name;
    assert !Skipped(s);
  }
}
