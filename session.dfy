/** The `Watson` session object: the running frame (`current`), the frame store and
    the configuration, with the commands that start, stop, cancel and add frames,
    the project and tag listings, the merge classification, the report and the
    renames. "Now", fresh ids and the shell splitter of option lists are
    parameters. */
module Session {
  import opened Wrappers
  import opened Text
  import opened Frames
  import opened Config
  import opened Reports

  /** The running frame: `{'project': ..., 'start': ..., 'tags': [...]}`. */
  datatype Running = Running(project: string, start: int, tags: seq<string>)

  /** A value assigned to `current`; `None` fields are keys the dict does not have. */
  datatype CurrentValue = CurrentValue(project: Option<string>, start: Option<int>, tags: Option<seq<string>>)

  /** The `current` setter: no value or no project means nothing runs; a missing
      start means now; missing tags mean none. */
  function RunningFrom(value: Option<CurrentValue>, now: int): (r: Option<Running>)
    ensures r.None? <==> value.None? || value.value.project.None?
    ensures r.Some? ==> r.value.project == value.value.project.value
    ensures r.Some? ==> r.value.start == if value.value.start.Some? then value.value.start.value else now
    ensures r.Some? ==> r.value.tags == if value.value.tags.Some? then value.value.tags.value else []
  {
    if value.None? || value.value.project.None? then None
    else
      var v := value.value;
      Some(Running(v.project.value, if v.start.Some? then v.start.value else now,
                   if v.tags.Some? then v.tags.value else []))
  }

  // ---------------------------------------------------------------------------
  // Guards of start, stop and add

  function Last(rows: seq<Frame>): Frame
    requires rows != []
  {
    rows[|rows| - 1]
  }

  /** What `start` makes the running frame, or why it refuses. `defaults` is the
      project's `default_tags` list. Comparing a given start with a missing last
      stop is a TypeError; starting without a gap after a frame with no stop
      hands a missing start to the `current` setter, whose timestamp conversion
      raises ValueError; without any frame, `frames[-1]` is an IndexError. */
  function StartResult(running: Option<Running>, rows: seq<Frame>, defaults: seq<string>,
                       project: string, tags: seq<string>, restart: bool,
                       startAt: Option<int>, gap: bool, now: int): (r: Result<Running>)
    ensures running.Some? ==> r == Err(WatsonError("Project " + running.value.project + " is already started."))
    ensures running.None? && startAt.Some? && rows != [] && Last(rows).stop.Some? && startAt.value < Last(rows).stop.value ==>
      r == Err(WatsonError("Task cannot start before the previous task ends."))
    ensures running.None? && startAt.Some? && startAt.value > now && (rows == [] || (Last(rows).stop.Some? && startAt.value >= Last(rows).stop.value)) ==>
      r == Err(WatsonError("Task cannot start in the future."))
    ensures r.Ok? ==> running.None?
    ensures r.Ok? ==> r.value.project == project
    ensures r.Ok? ==> Distinct(r.value.tags)
    ensures r.Ok? ==> Elements(r.value.tags) == Elements(tags) + (if restart then {} else Elements(defaults))
    ensures r.Ok? ==> Distinct(tags + defaults) && !restart ==> r.value.tags == tags + defaults
    ensures r.Ok? && gap ==> r.value.start == (if startAt.Some? then startAt.value else now) && r.value.start <= now
    ensures r.Ok? && !gap ==> rows != [] && Last(rows).stop.Some? && r.value.start == Last(rows).stop.value
    ensures r.Ok? && startAt.Some? && rows != [] ==> Last(rows).stop.Some? && Last(rows).stop.value <= startAt.value <= now
  {
    if running.Some? then Err(WatsonError("Project " + running.value.project + " is already started."))
    else
      var tags' := if restart then tags else tags + defaults;
      assert Elements(tags + defaults) == Elements(tags) + Elements(defaults);
      if startAt.Some? && rows != [] && Last(rows).stop.None? then Err(TypeError)
      else if startAt.Some? && rows != [] && startAt.value < Last(rows).stop.value then
        Err(WatsonError("Task cannot start before the previous task ends."))
      else
        var at := if startAt.Some? then startAt.value else now;
        if at > now then Err(WatsonError("Task cannot start in the future."))
        else if !gap && (rows == [] || Last(rows).stop.None?) then
          (if rows == [] then Err(IndexError) else Err(ValueError))
        else Ok(Running(project, if gap then at else Last(rows).stop.value, Dedupe(tags')))
  }

  /** The error kinds of the two ways `start` can meet a last frame without a
      stop, and of starting without a gap when nothing was tracked. */
  lemma StartAfterOpenFrame(rows: seq<Frame>, defaults: seq<string>, project: string, tags: seq<string>,
                            restart: bool, at: int, now: int)
    requires rows != [] && Last(rows).stop.None? && at <= now
    ensures StartResult(None, rows, defaults, project, tags, restart, None, false, now) == Err(ValueError)
    ensures StartResult(None, rows, defaults, project, tags, restart, Some(at), true, now) == Err(TypeError)
    ensures StartResult(None, [], defaults, project, tags, restart, None, false, now) == Err(IndexError)
  {
  }

  /** The stop instant `stop` records, or why it refuses. */
  function StopAt(running: Option<Running>, stopAt: Option<int>, now: int): (r: Result<int>)
    ensures running.None? ==> r == Err(WatsonError("No project started."))
    ensures running.Some? && running.value.start > (if stopAt.Some? then stopAt.value else now) ==>
      r == Err(WatsonError("Task cannot end before it starts."))
    ensures running.Some? && running.value.start <= (if stopAt.Some? then stopAt.value else now) &&
            (if stopAt.Some? then stopAt.value else now) > now ==>
      r == Err(WatsonError("Task cannot end in the future."))
    ensures r.Ok? <==> running.Some? && running.value.start <= (if stopAt.Some? then stopAt.value else now) <= now
    ensures r.Ok? ==> r.value == (if stopAt.Some? then stopAt.value else now)
  {
    if running.None? then Err(WatsonError("No project started."))
    else
      var at := if stopAt.Some? then stopAt.value else now;
      if running.value.start > at then Err(WatsonError("Task cannot end before it starts."))
      else if at > now then Err(WatsonError("Task cannot end in the future."))
      else Ok(at)
  }

  /** `add`'s checks: a project must be given and the frame must not end before it starts. */
  function AddCheck(project: string, from: int, to: int): (o: Outcome)
    ensures o.Pass? <==> project != "" && from <= to
    ensures project == "" ==> o == Fail(WatsonError("No project given."))
    ensures project != "" && from > to ==> o == Fail(WatsonError("Task cannot end before it starts."))
  {
    if project == "" then Fail(WatsonError("No project given."))
    else if from > to then Fail(WatsonError("Task cannot end before it starts."))
    else Pass
  }

  // ---------------------------------------------------------------------------
  // Merge classification

  datatype Verdict = Merging | Conflicting | Identical

  /** How `merge_report` files one incoming frame: `frames[id]` raising KeyError
      means merging; anything found that is not equal to it (a whole column, when
      the id is a column name) means conflicting. */
  function Classify(local: seq<Frame>, c: Frame): (v: Verdict)
    ensures v == Merging <==> c.id !in Headers && forall j :: 0 <= j < |local| ==> !StartsWith(local[j].id, c.id)
    ensures v == Identical <==> c.id !in Headers && FindId(local, c.id).Some? && local[FindId(local, c.id).value] == c
    ensures c.id in Headers ==> v == Conflicting
  {
    var found := LookupKey(local, c.id);
    if found.Err? then Merging
    else if found.value != RowItem(c) then Conflicting
    else Identical
  }

  /** The incoming frames with one verdict, in their order. */
  function WithVerdict(local: seq<Frame>, incoming: seq<Frame>, v: Verdict): (r: seq<Frame>)
    ensures forall x :: x in r <==> x in incoming && Classify(local, x) == v
    ensures SubsequenceOf(r, incoming)
    decreases |incoming|
  {
    if incoming == [] then []
    else
      var rest := WithVerdict(local, incoming[1..], v);
      assert forall x :: x in incoming <==> x == incoming[0] || x in incoming[1..] by {
        assert incoming == [incoming[0]] + incoming[1..];
      }
      if Classify(local, incoming[0]) == v then
        assert ([incoming[0]] + rest)[1..] == rest;
        [incoming[0]] + rest
      else
        SubsequenceOfTail(rest, incoming);
        rest
  }

  datatype MergeReport = MergeReport(conflicting: seq<Frame>, merging: seq<Frame>)

  lemma {:induction false} VerdictsFit(local: seq<Frame>, incoming: seq<Frame>)
    ensures |WithVerdict(local, incoming, Conflicting)| + |WithVerdict(local, incoming, Merging)| <= |incoming|
    decreases |incoming|
  {
    if incoming != [] {
      VerdictsFit(local, incoming[1..]);
    }
  }

  /** `merge_report`'s lists: the incoming frames whose id is found locally with
      different content, and those whose id is not found; identical frames go in
      neither, and no frame goes in both. */
  function MergeSplit(local: seq<Frame>, incoming: seq<Frame>): (r: MergeReport)
    ensures SubsequenceOf(r.conflicting, incoming) && SubsequenceOf(r.merging, incoming)
    ensures forall x :: x in r.merging <==> x in incoming && Classify(local, x) == Merging
    ensures forall x :: x in r.conflicting <==> x in incoming && Classify(local, x) == Conflicting
    ensures forall x :: !(x in r.merging && x in r.conflicting)
    ensures |r.conflicting| + |r.merging| <= |incoming|
  {
    VerdictsFit(local, incoming);
    MergeReport(WithVerdict(local, incoming, Conflicting), WithVerdict(local, incoming, Merging))
  }

  /** Frames that all get verdict `v` are all kept, in their order. */
  lemma {:induction false} WithVerdictAll(local: seq<Frame>, incoming: seq<Frame>, v: Verdict)
    requires forall i :: 0 <= i < |incoming| ==> Classify(local, incoming[i]) == v
    ensures WithVerdict(local, incoming, v) == incoming
    decreases |incoming|
  {
    if incoming != [] {
      WithVerdictAll(local, incoming[1..], v);
      assert [incoming[0]] + incoming[1..] == incoming;
    }
  }

  /** Frames none of which gets verdict `v` leave nothing. */
  lemma {:induction false} WithVerdictNone(local: seq<Frame>, incoming: seq<Frame>, v: Verdict)
    requires forall i :: 0 <= i < |incoming| ==> Classify(local, incoming[i]) != v
    ensures WithVerdict(local, incoming, v) == []
    decreases |incoming|
  {
    if incoming != [] {
      WithVerdictNone(local, incoming[1..], v);
    }
  }

  /** Merging a store into itself finds nothing to merge or resolve, when no id
      is a prefix of another and none is a column name. */
  lemma MergeWithItself(rows: seq<Frame>)
    requires PrefixFree(rows)
    requires forall i :: 0 <= i < |rows| ==> rows[i].id !in Headers
    ensures MergeSplit(rows, rows) == MergeReport([], [])
  {
    forall i | 0 <= i < |rows| ensures Classify(rows, rows[i]) == Identical {
      assert StartsWith(rows[i].id, rows[i].id) by {
        assert rows[i].id[..|rows[i].id|] == rows[i].id;
      }
      var k := FindId(rows, rows[i].id).value;
      assert StartsWith(rows[k].id, rows[i].id);
      assert k == i;
    }
    WithVerdictNone(rows, rows, Conflicting);
    WithVerdictNone(rows, rows, Merging);
  }

  /** Incoming frames whose ids no local id starts with are all merged, in their
      order, and none conflicts. */
  lemma MergeDisjoint(local: seq<Frame>, incoming: seq<Frame>)
    requires forall i, j :: 0 <= i < |incoming| && 0 <= j < |local| ==> !StartsWith(local[j].id, incoming[i].id)
    requires forall i :: 0 <= i < |incoming| ==> incoming[i].id !in Headers
    ensures MergeSplit(local, incoming) == MergeReport([], incoming)
  {
    WithVerdictAll(local, incoming, Merging);
    WithVerdictNone(local, incoming, Conflicting);
  }

  // ---------------------------------------------------------------------------
  // Renames

  datatype Rename = ProjectRename(from: string, to: string) | TagRename(from: string, to: string)

  function ReplaceTag(tags: seq<string>, from: string, to: string): (r: seq<string>)
    ensures |r| == |tags|
    ensures forall i :: 0 <= i < |tags| ==> r[i] == if tags[i] == from then to else tags[i]
  {
    seq(|tags|, i requires 0 <= i < |tags| => if tags[i] == from then to else tags[i])
  }

  /** The replacement a rename writes for a frame carrying the old name (the new
      name and a new updated_at, nothing else), or `None` for any other frame. */
  function Renamed(f: Frame, r: Rename, now: int): (g: Option<Frame>)
    ensures g.Some? <==> (if r.ProjectRename? then f.project == r.from else r.from in f.tags)
    ensures g.Some? ==> g.value.id == f.id
  {
    match r
    case ProjectRename(a, b) =>
      if f.project == a then Some(f.(project := b, updatedAt := now)) else None
    case TagRename(a, b) =>
      if a in f.tags then Some(f.(tags := ReplaceTag(f.tags, a, b), updatedAt := now)) else None
  }

  /** What a rename writes back: the new name and a new updated_at; the start,
      stop and id are kept, and a tag rename leaves no old tag behind. */
  lemma RenamedFields(f: Frame, r: Rename, now: int)
    requires Renamed(f, r, now).Some?
    ensures var g := Renamed(f, r, now).value;
      && g.id == f.id && g.start == f.start && g.stop == f.stop && g.updatedAt == now
      && (r.ProjectRename? ==> g.project == r.to && g.tags == f.tags)
      && (r.TagRename? ==> g.project == f.project && r.to in g.tags && (r.from != r.to ==> r.from !in g.tags))
  {
    if r.TagRename? {
      var t := ReplaceTag(f.tags, r.from, r.to);
      var i :| 0 <= i < |f.tags| && f.tags[i] == r.from;
      assert t[i] == r.to;
    }
  }

  /** One turn of the rename loop on row `i`: a row carrying the old name is
      written back by id (`frames[frame.id] = ...`); the row count is kept. */
  function RenameStep(s: seq<Frame>, r: Rename, now: int, i: nat): (t: seq<Frame>)
    requires i < |s|
    ensures |t| == |s|
  {
    var g := Renamed(s[i], r, now);
    if g.None? then s
    else
      assert StartsWith(s[i].id, s[i].id);
      UpsertRowsSpec(s, s[i].id, g.value);
      UpsertRows(s, s[i].id, g.value)
  }

  /** The rows after the rename loop has visited the first `i` rows. */
  function RenameUpTo(rows: seq<Frame>, r: Rename, now: int, i: nat): (s: seq<Frame>)
    requires i <= |rows|
    ensures |s| == |rows|
    decreases i
  {
    if i == 0 then rows else RenameStep(RenameUpTo(rows, r, now, i - 1), r, now, i - 1)
  }

  /** No id is a prefix of another row's id (as with distinct fixed-length ids). */
  predicate PrefixFree(rows: seq<Frame>) {
    forall j, k :: 0 <= j < |rows| && 0 <= k < |rows| && j != k ==> !StartsWith(rows[j].id, rows[k].id)
  }

  /** Every row carrying the old name renamed, every other row as it was. */
  function RenameEach(rows: seq<Frame>, r: Rename, now: int): (s: seq<Frame>)
    ensures |s| == |rows|
  {
    seq(|rows|, k requires 0 <= k < |rows| =>
      var g := Renamed(rows[k], r, now); if g.Some? then g.value else rows[k])
  }

  /** A rename turn on a row whose id no earlier row's id starts with writes the
      renamed frame back in the same place. */
  lemma RenameStepAt(s: seq<Frame>, r: Rename, now: int, i: nat)
    requires i < |s| && Renamed(s[i], r, now).Some?
    requires forall j :: 0 <= j < i ==> !StartsWith(s[j].id, s[i].id)
    ensures RenameStep(s, r, now, i) == s[i := Renamed(s[i], r, now).value]
  {
    var key := s[i].id;
    var g := Renamed(s[i], r, now);
    assert StartsWith(key, key);
    assert FindId(s, key) == Some(i);
    assert g.value.(id := key) == g.value;
  }

  /** A rename turn on row `i` of rows whose ids match the original ones up to
      row `i`, and whose row `i` is still the original, writes that row's rename
      in its place. */
  lemma RenameStepOnPrefix(rows: seq<Frame>, r: Rename, now: int, s: seq<Frame>, i: nat)
    requires PrefixFree(rows) && i < |rows| && |s| == |rows|
    requires forall k :: 0 <= k < i ==> s[k].id == rows[k].id
    requires s[i] == rows[i]
    ensures RenameStep(s, r, now, i) == s[i := RenameEach(rows, r, now)[i]]
  {
    if Renamed(rows[i], r, now).Some? {
      forall j | 0 <= j < i ensures !StartsWith(s[j].id, s[i].id) {
        assert s[j].id == rows[j].id;
      }
      RenameStepAt(s, r, now, i);
    } else {
      assert s[i := rows[i]] == s;
    }
  }

  lemma {:induction false} RenameUpToRows(rows: seq<Frame>, r: Rename, now: int, i: nat)
    requires PrefixFree(rows) && i <= |rows|
    ensures forall k :: 0 <= k < i ==> RenameUpTo(rows, r, now, i)[k] == RenameEach(rows, r, now)[k]
    ensures forall k :: i <= k < |rows| ==> RenameUpTo(rows, r, now, i)[k] == rows[k]
    decreases i
  {
    if i > 0 {
      RenameUpToRows(rows, r, now, i - 1);
      var s := RenameUpTo(rows, r, now, i - 1);
      var t := RenameUpTo(rows, r, now, i);
      var each := RenameEach(rows, r, now);
      assert t == RenameStep(s, r, now, i - 1);
      forall k | 0 <= k < i - 1 ensures s[k].id == rows[k].id {
        assert s[k] == each[k];
      }
      RenameStepOnPrefix(rows, r, now, s, i - 1);
      assert t == s[i - 1 := each[i - 1]];
      forall k | 0 <= k < i ensures t[k] == each[k] {
        if k < i - 1 {
          assert t[k] == s[k];
        }
      }
      forall k | i <= k < |rows| ensures t[k] == rows[k] {
        assert t[k] == s[k];
      }
    }
  }

  /** With prefix-free ids, a rename changes exactly the rows carrying the old
      name, as `Renamed` says, keeps every other row identical and keeps the count. */
  lemma RenameChangesOnlyCarriers(rows: seq<Frame>, r: Rename, now: int)
    requires PrefixFree(rows)
    ensures RenameUpTo(rows, r, now, |rows|) == RenameEach(rows, r, now)
  {
    RenameUpToRows(rows, r, now, |rows|);
  }

  // ---------------------------------------------------------------------------
  // Report parameters

  /** `_validate_report_options`: false iff both lists are non-empty and share a name. */
  function ValidateReportOptions(filtrate: Option<seq<string>>, ignored: Option<seq<string>>): (ok: bool)
    ensures !ok <==> filtrate.Some? && ignored.Some? && exists x :: x in filtrate.value && x in ignored.value
  {
    !(filtrate.Some? && filtrate.value != [] && ignored.Some? && ignored.value != [] &&
      exists x :: x in filtrate.value && x in ignored.value)
  }

  /** `x or None`: an empty list counts as not given. */
  function OrNone(xs: Option<seq<string>>): Option<seq<string>> {
    if xs.Some? && xs.value == [] then None else xs
  }

  /** The last given value among the shortcuts, or `from` when none is given. */
  function LastGiven(shortcuts: seq<Option<int>>, from: int): (r: int)
    ensures (forall i :: 0 <= i < |shortcuts| ==> shortcuts[i].None?) ==> r == from
    ensures forall i ::
      (0 <= i < |shortcuts| && shortcuts[i].Some? && forall j :: i < j < |shortcuts| ==> shortcuts[j].None?) ==>
        r == shortcuts[i].value
    decreases |shortcuts|
  {
    if shortcuts == [] then from
    else if shortcuts[|shortcuts| - 1].Some? then shortcuts[|shortcuts| - 1].value
    else LastGiven(shortcuts[..|shortcuts| - 1], from)
  }

  /** The start of the report: the loop over the shortcuts keeps the last one given. */
  method ReportStart(shortcuts: seq<Option<int>>, from: int) returns (start: int)
    ensures start == LastGiven(shortcuts, from)
  {
    start := from;
    var i := 0;
    while i < |shortcuts|
      invariant 0 <= i <= |shortcuts|
      invariant start == LastGiven(shortcuts[..i], from)
    {
      assert shortcuts[..i + 1][..i] == shortcuts[..i];
      if shortcuts[i].Some? {
        start := shortcuts[i].value;
      }
      i := i + 1;
    }
    assert shortcuts[..|shortcuts|] == shortcuts;
  }

  /** The temporary frame `report` adds for a running project. */
  function CurrentFrame(c: Running, freshId: string, now: int): (f: Frame)
    ensures f.id == "current" && f.project == c.project && f.start == c.start && f.stop == Some(now)
  {
    NewFrame(c.project, c.start, Some(now), Some(c.tags), Some("current"), None, freshId, now)
  }

  /** When no stored id starts with "current", removing the temporary frame by its
      id removes exactly the frame that was added. */
  lemma CurrentFrameRemoved(rows: seq<Frame>, c: Running, freshId: string, now: int)
    requires forall j :: 0 <= j < |rows| ==> !StartsWith(rows[j].id, "current")
    ensures WithoutCurrent(rows + [CurrentFrame(c, freshId, now)]) == rows
  {
    var added := rows + [CurrentFrame(c, freshId, now)];
    assert StartsWith(added[|rows|].id, "current");
    assert forall j :: 0 <= j < |rows| ==> added[j] == rows[j];
    assert added[..|rows|] == rows;
  }

  /** The four name lists `report` filters by (`x or None`). */
  function ReportFilters(projects: Option<seq<string>>, tags: Option<seq<string>>,
                         ignoreProjects: Option<seq<string>>, ignoreTags: Option<seq<string>>): Filters {
    Filters(OrNone(projects), OrNone(tags), OrNone(ignoreProjects), OrNone(ignoreTags))
  }

  /** What `report` returns once its checks have passed: TypeError when filtering
      compares a missing stop, the report over the filtered frames otherwise. */
  function ReportResult(rows: seq<Frame>, q: Filters, span: Span, partial: bool, wanted: seq<string>): Result<Report> {
    if FilterRaises(rows, q, Some(span), partial) then Err(TypeError)
    else Ok(ReportOf(Filter(rows, q, Some(span), partial), span, wanted))
  }

  /** `del frames['current']`: the first row whose id starts with "current" goes. */
  function WithoutCurrent(rows: seq<Frame>): (r: seq<Frame>)
    ensures FindId(rows, "current").None? ==> r == rows
    ensures FindId(rows, "current").Some? ==>
      |r| == |rows| - 1 && multiset(r) + multiset{rows[FindId(rows, "current").value]} == multiset(rows)
  {
    var i := FindId(rows, "current");
    if i.Some? then RemoveAt(rows, i.value) else rows
  }

  /** The rows `report` leaves behind: the temporary frame is deleted again
      unless filtering raised first. */
  function RowsAfterReport(rows: seq<Frame>, q: Filters, span: Span, partial: bool, added: bool): seq<Frame> {
    if added && !FilterRaises(rows, q, Some(span), partial) then WithoutCurrent(rows) else rows
  }

  /** The summed durations, by a loop. */
  method SumDurations(fs: seq<Frame>) returns (t: int)
    ensures t == TotalTime(fs)
  {
    t := 0;
    var j := 0;
    while j < |fs|
      invariant 0 <= j <= |fs|
      invariant t == TotalTime(fs[..j])
    {
      assert fs[..j + 1][..j] == fs[..j];
      t := t + Duration(fs[j]);
      j := j + 1;
    }
    assert fs[..|fs|] == fs;
  }

  /** The summed durations of the frames carrying one tag, by a loop. */
  method TagTime(fs: seq<Frame>, tag: string) returns (t: int)
    ensures t == TotalTime(WithTag(fs, tag))
  {
    t := 0;
    var j := 0;
    while j < |fs|
      invariant 0 <= j <= |fs|
      invariant t == TotalTime(WithTag(fs[..j], tag))
    {
      assert fs[..j + 1][..j] == fs[..j];
      if tag in fs[j].tags {
        t := t + Duration(fs[j]);
      }
      j := j + 1;
    }
    assert fs[..|fs|] == fs;
  }

  /** The report entry of one project, by loops over its frames and its tags. */
  method ProjectEntry(fs: seq<Frame>, p: string, wanted: seq<string>) returns (e: ProjectReport)
    ensures e == ProjectReportOf(fs, p, wanted)
  {
    var group := OfProject(fs, p);
    var delta := SumDurations(group);
    var names := TagsToPrint(group, wanted);
    var tags: seq<TagReport> := [];
    var k := 0;
    while k < |names|
      invariant 0 <= k <= |names|
      invariant tags == TagReports(group, names[..k])
    {
      var t := TagTime(group, names[k]);
      tags := tags + [TagReport(names[k], t)];
      k := k + 1;
    }
    assert names[..|names|] == names;
    e := ProjectReport(p, delta, tags);
  }

  lemma ProjectReportsSnoc(fs: seq<Frame>, names: seq<string>, i: nat, wanted: seq<string>)
    requires i < |names|
    ensures ProjectReports(fs, names[..i + 1], wanted)
         == ProjectReports(fs, names[..i], wanted) + [ProjectReportOf(fs, names[i], wanted)]
  {
    var a := ProjectReports(fs, names[..i + 1], wanted);
    var b := ProjectReports(fs, names[..i], wanted) + [ProjectReportOf(fs, names[i], wanted)];
    assert |a| == |b|;
    forall k | 0 <= k < |a| ensures a[k] == b[k] {
      assert names[..i + 1][k] == names[k];
    }
  }

  /** The report over filtered frames, by a loop over the projects. */
  method BuildReport(fs: seq<Frame>, span: Span, wanted: seq<string>) returns (r: Report)
    ensures r == ReportOf(fs, span, wanted)
  {
    var names := ProjectNames(fs);
    var entries: seq<ProjectReport> := [];
    var total := 0;
    var i := 0;
    while i < |names|
      invariant 0 <= i <= |names|
      invariant entries == ProjectReports(fs, names[..i], wanted)
      invariant total == SumTimes(entries)
    {
      var e := ProjectEntry(fs, names[i], wanted);
      ProjectReportsSnoc(fs, names, i, wanted);
      assert (entries + [e])[..|entries|] == entries;
      entries := entries + [e];
      total := total + e.time;
      i := i + 1;
    }
    assert names[..|names|] == names;
    r := Report(span.start, span.stop, entries, total);
  }

  // ---------------------------------------------------------------------------
  // The session

  class Watson {
    const frames: FrameStore
    const config: ConfigParser
    var current: Option<Running>

    constructor (frames: FrameStore, config: ConfigParser, state: Option<CurrentValue>, now: int)
      ensures this.frames == frames && this.config == config
      ensures current == RunningFrom(state, now)
    {
      this.frames := frames;
      this.config := config;
      current := RunningFrom(state, now);
    }

    /** The `current` setter. */
    method SetCurrent(value: Option<CurrentValue>, now: int)
      modifies this
      ensures current == RunningFrom(value, now)
    {
      current := RunningFrom(value, now);
    }

    predicate IsStarted()
      reads this
      ensures IsStarted() <==> current.Some?
    {
      current.Some?
    }

    /** The project's `default_tags` option. */
    function DefaultTags(project: string, shellSplit: string -> seq<string>): (r: seq<string>)
      reads config
      ensures Lookup(config.sections, "default_tags", project).None? ==> r == []
      ensures Lookup(config.sections, "default_tags", project).Some? ==>
        r == ListOf(Lookup(config.sections, "default_tags", project).value, shellSplit)
    {
      config.GetList("default_tags", project, None, shellSplit)
    }

    /** `start`: on success the new frame runs; on any failure nothing changes. */
    method Start(project: string, tags: seq<string>, restart: bool, startAt: Option<int>,
                 gap: bool, now: int, shellSplit: string -> seq<string>)
      returns (r: Result<Running>)
      modifies this
      ensures r == StartResult(old(current), frames.rows, DefaultTags(project, shellSplit),
                               project, tags, restart, startAt, gap, now)
      ensures r.Ok? ==> current == Some(r.value) && IsStarted()
      ensures r.Err? ==> current == old(current)
    {
      var defaults := DefaultTags(project, shellSplit);
      r := StartResult(current, frames.rows, defaults, project, tags, restart, startAt, gap, now);
      if r.Ok? {
        current := Some(r.value);
      }
    }

    /** `stop`: records the running frame, with the given or current stop
        instant, and clears `current`; on any failure nothing changes. */
    method Stop(stopAt: Option<int>, freshId: string, now: int) returns (r: Result<Frame>)
      modifies this, frames
      ensures var at := StopAt(old(current), stopAt, now);
        && (at.Err? ==> r == Err(at.error) && current == old(current) &&
                        frames.rows == old(frames.rows) && frames.changed == old(frames.changed))
        && (at.Ok? ==> r.Ok? && current.None? && frames.rows == old(frames.rows) + [r.value] && frames.changed &&
                       r.value == NewFrame(old(current).value.project, old(current).value.start, Some(at.value),
                                           Some(old(current).value.tags), None, None, freshId, now))
    {
      var at := StopAt(current, stopAt, now);
      if at.Err? {
        return Err(at.error);
      }
      var c := current.value;
      var f := frames.Add(c.project, c.start, Some(at.value), Some(c.tags), None, None, freshId, now);
      current := None;
      r := Ok(f);
    }

    /** `cancel`: forgets the running frame; the frames are not touched. */
    method Cancel() returns (r: Result<Running>)
      modifies this
      ensures old(current).None? ==> r == Err(WatsonError("No project started.")) && current.None?
      ensures old(current).Some? ==> r == Ok(old(current).value) && current.None?
    {
      if current.None? {
        return Err(WatsonError("No project started."));
      }
      r := Ok(current.value);
      current := None;
    }

    /** `add`: one stopped frame with the given tags followed by the project's
        default tags. */
    method Add(project: string, from: int, to: int, tags: seq<string>, freshId: string,
               now: int, shellSplit: string -> seq<string>)
      returns (r: Result<Frame>)
      modifies frames
      ensures AddCheck(project, from, to).Fail? ==>
        r == Err(AddCheck(project, from, to).error) &&
        frames.rows == old(frames.rows) && frames.changed == old(frames.changed)
      ensures AddCheck(project, from, to).Pass? ==>
        && r.Ok? && frames.rows == old(frames.rows) + [r.value] && frames.changed
        && r.value == NewFrame(project, from, Some(to), Some(tags + DefaultTags(project, shellSplit)),
                               None, None, freshId, now)
    {
      var check := AddCheck(project, from, to);
      if check.Fail? {
        return Err(check.error);
      }
      var f := frames.Add(project, from, Some(to), Some(tags + DefaultTags(project, shellSplit)),
                          None, None, freshId, now);
      r := Ok(f);
    }

    /** `projects`: every project name used by a frame, sorted, each once. */
    function Projects(): (r: seq<string>)
      reads frames
      ensures StrictlySorted(r)
      ensures forall p :: p in r <==> exists i :: 0 <= i < |frames.rows| && frames.rows[i].project == p
    {
      ProjectNames(frames.rows)
    }

    /** `tags`: every tag used by a frame, sorted, each once. */
    function Tags(): (r: seq<string>)
      reads frames
      ensures StrictlySorted(r)
      ensures forall t :: t in r <==> exists i :: 0 <= i < |frames.rows| && t in frames.rows[i].tags
    {
      var all := AllTags(frames.rows);
      var r := SortedUnique(all);
      assert forall t :: t in r <==> t in Elements(all);
      r
    }

    /** `merge_report` on the content of a frames file. */
    function MergeReportOf(file: seq<Row>, now: int): (r: MergeReport)
      reads frames
      ensures SubsequenceOf(r.conflicting, LoadRows(file, now)) && SubsequenceOf(r.merging, LoadRows(file, now))
      ensures forall x :: x in r.merging <==>
        && x in LoadRows(file, now) && x.id !in Headers
        && forall j :: 0 <= j < |frames.rows| ==> !StartsWith(frames.rows[j].id, x.id)
      ensures forall x :: x in r.conflicting <==> x in LoadRows(file, now) && Classify(frames.rows, x) == Conflicting
      ensures forall x :: !(x in r.merging && x in r.conflicting)
    {
      MergeSplit(frames.rows, LoadRows(file, now))
    }

    /** Whether `report` includes the running frame: the argument, or else the
        `report_current` option. */
    function UseCurrent(current: Option<bool>): (r: bool)
      reads config
      ensures current.Some? ==> r == current.value
      ensures current.None? ==>
        (r <==> var v := Lookup(config.sections, "options", "report_current");
                v.Some? && v.value != "" && Lower(v.value) in TrueWords)
    {
      if current.Some? then current.value else config.GetBoolean("options", "report_current", false)
    }

    /** The rows while the report is computed: with the temporary running frame
        when there is one and it is included. */
    function RowsWithCurrent(rows: seq<Frame>, use: bool, freshId: string, now: int): seq<Frame>
      reads this
    {
      if current.Some? && use then rows + [CurrentFrame(current.value, freshId, now)] else rows
    }

    /** `report`. `shortcuts` holds the day, week, month, year, luna and all
        start instants in that order; `None` is an option not given. */
    method Report(from: int, to: int, current: Option<bool>,
                  projects: Option<seq<string>>, tags: Option<seq<string>>,
                  ignoreProjects: Option<seq<string>>, ignoreTags: Option<seq<string>>,
                  shortcuts: seq<Option<int>>, partial: bool,
                  freshId: string, now: int, hourShift: int)
      returns (r: Result<Report>)
      modifies frames
      ensures !ValidateReportOptions(projects, ignoreProjects) ==>
        r == Err(WatsonError("given projects can't be ignored at the same time")) &&
        frames.rows == old(frames.rows) && frames.changed == old(frames.changed)
      ensures ValidateReportOptions(projects, ignoreProjects) && !ValidateReportOptions(tags, ignoreTags) ==>
        r == Err(WatsonError("given tags can't be ignored at the same time")) &&
        frames.rows == old(frames.rows) && frames.changed == old(frames.changed)
      ensures ValidateReportOptions(projects, ignoreProjects) && ValidateReportOptions(tags, ignoreTags) &&
              LastGiven(shortcuts, from) > to ==>
        r == Err(WatsonError("'from' must be anterior to 'to'")) &&
        frames.rows == old(frames.rows) && frames.changed == old(frames.changed)
      ensures ValidateReportOptions(projects, ignoreProjects) && ValidateReportOptions(tags, ignoreTags) &&
              LastGiven(shortcuts, from) <= to ==>
        var rows := RowsWithCurrent(old(frames.rows), UseCurrent(current), freshId, now);
        var span := MakeSpan(LastGiven(shortcuts, from), to, hourShift);
        var q := ReportFilters(projects, tags, ignoreProjects, ignoreTags);
        && frames.changed == (old(frames.changed) || (this.current.Some? && UseCurrent(current)))
        && r == ReportResult(rows, q, span, partial, if tags.None? then [] else tags.value)
        && frames.rows == RowsAfterReport(rows, q, span, partial, this.current.Some? && UseCurrent(current))
    {
      var start := ReportStart(shortcuts, from);
      if !ValidateReportOptions(projects, ignoreProjects) {
        return Err(WatsonError("given projects can't be ignored at the same time"));
      }
      if !ValidateReportOptions(tags, ignoreTags) {
        return Err(WatsonError("given tags can't be ignored at the same time"));
      }
      if start > to {
        return Err(WatsonError("'from' must be anterior to 'to'"));
      }
      var use := UseCurrent(current);
      var span := MakeSpan(start, to, hourShift);
      var q := ReportFilters(projects, tags, ignoreProjects, ignoreTags);
      r := ReportRows(use, q, span, partial, if tags.None? then [] else tags.value, freshId, now);
    }

    /** The part of `report` after its checks: add the temporary running frame,
        filter, remove the temporary frame again, and total up. */
    method ReportRows(use: bool, q: Filters, span: Span, partial: bool, wanted: seq<string>,
                      freshId: string, now: int)
      returns (r: Result<Report>)
      modifies frames
      ensures var rows := RowsWithCurrent(old(frames.rows), use, freshId, now);
        && frames.changed == (old(frames.changed) || (current.Some? && use))
        && r == ReportResult(rows, q, span, partial, wanted)
        && frames.rows == RowsAfterReport(rows, q, span, partial, current.Some? && use)
    {
      var added := current.Some? && use;
      ghost var rows := RowsWithCurrent(frames.rows, use, freshId, now);
      if added {
        var c := current.value;
        var _ := frames.Add(c.project, c.start, Some(now), Some(c.tags), Some("current"), None, freshId, now);
      }
      assert frames.rows == rows;
      if FilterRaises(frames.rows, q, Some(span), partial) {
        return Err(TypeError);
      }
      var fs := Filter(frames.rows, q, Some(span), partial);
      if added {
        assert StartsWith(frames.rows[|frames.rows| - 1].id, "current");
        var _ := frames.DelById("current");
      }
      var report := BuildReport(fs, span, wanted);
      r := Ok(report);
    }

    /** The shared loop of `rename_project` and `rename_tag`. */
    method ApplyRename(r: Rename, now: int)
      modifies frames
      ensures frames.rows == RenameUpTo(old(frames.rows), r, now, |old(frames.rows)|)
      ensures frames.changed
    {
      ghost var rows := frames.rows;
      var i := 0;
      while i < |frames.rows|
        invariant |frames.rows| == |rows| && 0 <= i <= |rows|
        invariant frames.rows == RenameUpTo(rows, r, now, i)
      {
        var f := frames.rows[i];
        var g := Renamed(f, r, now);
        if g.Some? {
          frames.SetById(f.id, FrameValue(g.value), "", now);
        }
        assert frames.rows == RenameStep(RenameUpTo(rows, r, now, i), r, now, i);
        i := i + 1;
      }
      frames.changed := true;
    }

    /** `rename_project`. */
    method RenameProject(from: string, to: string, now: int) returns (o: Outcome)
      modifies frames
      ensures from !in ProjectNames(old(frames.rows)) ==>
        o == Fail(WatsonError("Project \"" + from + "\" does not exist")) &&
        frames.rows == old(frames.rows) && frames.changed == old(frames.changed)
      ensures from in ProjectNames(old(frames.rows)) ==>
        o == Pass && frames.changed &&
        frames.rows == RenameUpTo(old(frames.rows), ProjectRename(from, to), now, |old(frames.rows)|)
    {
      if from !in Projects() {
        return Fail(WatsonError("Project \"" + from + "\" does not exist"));
      }
      ApplyRename(ProjectRename(from, to), now);
      o := Pass;
    }

    /** `rename_tag`. */
    method RenameTag(from: string, to: string, now: int) returns (o: Outcome)
      modifies frames
      ensures from !in SortedUnique(AllTags(old(frames.rows))) ==>
        o == Fail(WatsonError("Tag \"" + from + "\" does not exist")) &&
        frames.rows == old(frames.rows) && frames.changed == old(frames.changed)
      ensures from in SortedUnique(AllTags(old(frames.rows))) ==>
        o == Pass && frames.changed &&
        frames.rows == RenameUpTo(old(frames.rows), TagRename(from, to), now, |old(frames.rows)|)
    {
      if from !in Tags() {
        return Fail(WatsonError("Tag \"" + from + "\" does not exist"));
      }
      ApplyRename(TagRename(from, to), now);
      o := Pass;
    }

    /** The save decision for the frames file: its new content when the store
        changed, nothing otherwise. */
    function FramesToWrite(): (w: Option<seq<Row>>)
      reads frames
      ensures w.Some? <==> frames.changed
      ensures w.Some? && NoZeroStop(frames.rows) ==> forall now :: LoadRows(w.value, now) == frames.rows
    {
      if frames.changed then Some(frames.Dump()) else None
    }
  }
}
