/** Shell completion for the command line: every candidate list is the projects,
    tags, frame ids or rename types of the session that start with the text being
    completed, in their own order. */
module Completion {
  import opened Wrappers
  import opened Text
  import opened Frames
  import opened Session

  /** `get_projects`: the session's projects starting with `incomplete`. */
  function GetProjects(w: Watson, incomplete: string): (r: seq<string>)
    reads w.frames
    ensures StrictlySorted(r)
    ensures forall p :: p in r <==> p in w.Projects() && StartsWith(p, incomplete)
  {
    var r := WithPrefix(w.Projects(), incomplete);
    SubsequenceSorted(r, w.Projects());
    r
  }

  /** `get_tags`: the session's tags starting with `incomplete`. */
  function GetTags(w: Watson, incomplete: string): (r: seq<string>)
    reads w.frames
    ensures StrictlySorted(r)
    ensures forall t :: t in r <==> t in w.Tags() && StartsWith(t, incomplete)
  {
    var r := WithPrefix(w.Tags(), incomplete);
    SubsequenceSorted(r, w.Tags());
    r
  }

  /** The ids of the frames, in order. */
  function FrameIds(fs: seq<Frame>): (r: seq<string>)
    ensures |r| == |fs| && forall i :: 0 <= i < |fs| ==> r[i] == fs[i].id
  {
    seq(|fs|, i requires 0 <= i < |fs| => fs[i].id)
  }

  /** `get_frames`: the frame ids starting with `incomplete`, in frame order. */
  function GetFrames(w: Watson, incomplete: string): (r: seq<string>)
    reads w.frames
    ensures SubsequenceOf(r, FrameIds(w.frames.rows))
    ensures forall id :: id in r <==> id in FrameIds(w.frames.rows) && StartsWith(id, incomplete)
  {
    WithPrefix(FrameIds(w.frames.rows), incomplete)
  }

  /** Projects and tags are offered in name order, each once, and exactly those
      of the session starting with the text typed so far. */
  lemma ProjectsAndTagsOffered(w: Watson, incomplete: string)
    ensures var r := GetProjects(w, incomplete);
      && StrictlySorted(r)
      && forall p :: p in r <==>
           StartsWith(p, incomplete) && exists i :: 0 <= i < |w.frames.rows| && w.frames.rows[i].project == p
    ensures var r := GetTags(w, incomplete);
      && StrictlySorted(r)
      && forall t :: t in r <==>
           StartsWith(t, incomplete) && exists i :: 0 <= i < |w.frames.rows| && t in w.frames.rows[i].tags
  {
    SubsequenceSorted(GetProjects(w, incomplete), w.Projects());
    SubsequenceSorted(GetTags(w, incomplete), w.Tags());
  }

  /** Frame ids are offered in frame order: exactly the ids starting with the
      text typed so far, and every id when nothing is typed. */
  lemma FramesOffered(w: Watson, incomplete: string)
    ensures var r := GetFrames(w, incomplete);
      && SubsequenceOf(r, FrameIds(w.frames.rows))
      && (forall id :: id in r <==>
            StartsWith(id, incomplete) && exists i :: 0 <= i < |w.frames.rows| && w.frames.rows[i].id == id)
    ensures GetFrames(w, []) == FrameIds(w.frames.rows)
  {
    var ids := FrameIds(w.frames.rows);
    assert forall id :: id in ids <==> exists i :: 0 <= i < |w.frames.rows| && w.frames.rows[i].id == id by {
      forall id | id in ids ensures exists i :: 0 <= i < |w.frames.rows| && w.frames.rows[i].id == id {
        var i :| 0 <= i < |ids| && ids[i] == id;
        assert w.frames.rows[i].id == id;
      }
      forall id | exists i :: 0 <= i < |w.frames.rows| && w.frames.rows[i].id == id ensures id in ids {
        var i :| 0 <= i < |w.frames.rows| && w.frames.rows[i].id == id;
        assert ids[i] == id;
      }
    }
    forall i | 0 <= i < |ids| ensures StartsWith(ids[i], []) {
      assert ids[i][..0] == [];
    }
  }

  /** `get_rename_types`: the rename types `project` and `tag`, in that order,
      that start with `incomplete`. */
  function GetRenameTypes(incomplete: string): (r: seq<string>)
    ensures |r| <= 2
    ensures forall t :: t in r <==> (t == "project" || t == "tag") && StartsWith(t, incomplete)
  {
    WithPrefix(["project", "tag"], incomplete)
  }

  lemma RenameTypesOffered(incomplete: string)
    ensures GetRenameTypes(incomplete) ==
      (if StartsWith("project", incomplete) then ["project"] else [])
      + (if StartsWith("tag", incomplete) then ["tag"] else [])
  {
    var all := ["project", "tag"];
    assert all[1..] == ["tag"];
    assert all[1..][1..] == [];
  }

  /** `get_rename_name`: projects for a project rename, tags for a tag rename and
      nothing for any other rename type. */
  function GetRenameName(w: Watson, renameType: string, incomplete: string): (r: seq<string>)
    reads w.frames
    ensures renameType == "project" ==> r == GetProjects(w, incomplete)
    ensures renameType == "tag" ==> r == GetTags(w, incomplete)
    ensures renameType != "project" && renameType != "tag" ==> r == []
  {
    if renameType == "project" then GetProjects(w, incomplete)
    else if renameType == "tag" then GetTags(w, incomplete)
    else []
  }

  /** `any(tok.startswith('+') for tok in tokens)`. */
  function AnyTagToken(tokens: seq<string>): (r: bool)
    ensures r <==> exists i :: 0 <= i < |tokens| && StartsWith(tokens[i], "+")
    decreases |tokens|
  {
    if tokens == [] then false
    else
      var rest := AnyTagToken(tokens[1..]);
      assert forall i :: 1 <= i < |tokens| ==> tokens[i] == tokens[1..][i - 1];
      StartsWith(tokens[0], "+") || rest
  }

  /** `get_incomplete_tag`: the last tag the tag parser finds on the command
      line, or the empty text when it finds none. The tag parser is a parameter. */
  function GetIncompleteTag(args: seq<string>, incomplete: string, parseTags: string -> seq<string>): (r: string)
    ensures var found := parseTags(Join(args + [incomplete], " "));
      (found == [] ==> r == []) && (found != [] ==> r == found[|found| - 1])
  {
    var found := parseTags(Join(args + [incomplete], " "));
    if found != [] then found[|found| - 1] else ""
  }

  /** `fix_broken_tag_parsing`: the pieces between spaces, joined back with nothing between them. */
  function FixBrokenTagParsing(tag: string): (r: string)
    ensures r == RemoveAll(tag, ' ')
  {
    JoinSplitRemoves(tag, ' ');
    Join(Split(tag, ' '), "")
  }

  lemma JoinConsEmpty(h: string, t: seq<string>)
    requires t != []
    ensures Join([h] + t, "") == h + Join(t, "")
  {
    assert ([h] + t)[1..] == t;
  }

  lemma RemoveAllAround(a: string, rest: string, c: char)
    requires c !in a
    ensures RemoveAll(a + ([c] + rest), c) == a + RemoveAll(rest, c)
  {
    RemoveAllConcat(a, [c] + rest, c);
    RemoveAllConcat([c], rest, c);
    assert RemoveAll([c], c) == [];
    assert [] + RemoveAll(rest, c) == RemoveAll(rest, c);
    RemoveAllAbsent(a, c);
  }

  /** Joining the pieces of a split with nothing between them removes the separator. */
  lemma {:induction false} JoinSplitRemoves(s: string, c: char)
    ensures Join(Split(s, c), "") == RemoveAll(s, c)
    decreases |s|
  {
    if c !in s {
      RemoveAllAbsent(s, c);
    } else {
      var i := IndexOfChar(s, c);
      var a, rest := s[..i], s[i + 1..];
      var tail := Split(rest, c);
      assert Split(s, c) == [a] + tail;
      JoinSplitRemoves(rest, c);
      JoinConsEmpty(a, tail);
      assert s == a + ([c] + rest);
      RemoveAllAround(a, rest, c);
    }
  }

  /** The fix removes every space and nothing else. */
  lemma FixRemovesSpaces(tag: string)
    ensures FixBrokenTagParsing(tag) == RemoveAll(tag, ' ')
    ensures ' ' !in FixBrokenTagParsing(tag)
    ensures forall d :: d != ' ' ==> (d in FixBrokenTagParsing(tag) <==> d in tag)
  {
    JoinSplitRemoves(tag, ' ');
  }

  /** `prepend_plus`. */
  function PrependPlus(suggestions: seq<string>): (r: seq<string>)
    ensures |r| == |suggestions|
    ensures forall i :: 0 <= i < |r| ==> r[i] == "+" + suggestions[i]
  {
    seq(|suggestions|, i requires 0 <= i < |suggestions| => "+" + suggestions[i])
  }

  /** `get_project_or_task_completion`: once some token starts with `+`, the tags
      matching the last parsed tag, each with a `+` in front; before that, the
      matching projects. */
  function GetProjectOrTaskCompletion(w: Watson, args: seq<string>, incomplete: string,
                                      parseTags: string -> seq<string>): (r: seq<string>)
    reads w.frames
    ensures !AnyTagToken(args + [incomplete]) ==> r == GetProjects(w, incomplete)
    ensures AnyTagToken(args + [incomplete]) ==>
      forall i :: 0 <= i < |r| ==> |r[i]| > 0 && r[i][0] == '+' && r[i][1..] in w.Tags()
  {
    if AnyTagToken(args + [incomplete]) then
      PrependPlus(GetTags(w, FixBrokenTagParsing(GetIncompleteTag(args, incomplete, parseTags))))
    else GetProjects(w, incomplete)
  }

  /** Tag mode holds iff some token starts with `+`; in it every suggestion is
      `+` followed by a session tag that starts with the repaired tag stub, and all
      such tags are offered; otherwise the suggestions are the matching projects. */
  lemma CompletionModes(w: Watson, args: seq<string>, incomplete: string, parseTags: string -> seq<string>)
    ensures var tokens := args + [incomplete];
      var r := GetProjectOrTaskCompletion(w, args, incomplete, parseTags);
      var stub := RemoveAll(GetIncompleteTag(args, incomplete, parseTags), ' ');
      && ((exists i :: 0 <= i < |tokens| && StartsWith(tokens[i], "+")) ==>
            (forall x :: x in r <==> |x| > 0 && x[0] == '+' && x[1..] in w.Tags() && StartsWith(x[1..], stub)))
      && (!(exists i :: 0 <= i < |tokens| && StartsWith(tokens[i], "+")) ==>
            (forall p :: p in r <==> p in w.Projects() && StartsWith(p, incomplete)))
  {
    var tokens := args + [incomplete];
    var r := GetProjectOrTaskCompletion(w, args, incomplete, parseTags);
    var tag := GetIncompleteTag(args, incomplete, parseTags);
    FixRemovesSpaces(tag);
    if AnyTagToken(tokens) {
      var tags := GetTags(w, FixBrokenTagParsing(tag));
      forall x ensures x in r <==> |x| > 0 && x[0] == '+' && x[1..] in tags {
        if x in r {
          var i :| 0 <= i < |r| && r[i] == x;
          assert x[1..] == tags[i];
        }
        if |x| > 0 && x[0] == '+' && x[1..] in tags {
          var i :| 0 <= i < |tags| && tags[i] == x[1..];
          assert r[i] == x;
        }
      }
    }
  }
}
