/** The command-level logic of `watson/cli.py` that is not terminal plumbing: the
    project name taken from the arguments, the mutually-exclusive option check,
    the guards of `start`, `restart` and `log`, the application of a merge, and
    the day loop of `aggregate`. */
module Commands {
  import opened Wrappers
  import opened Text
  import opened Frames
  import opened Config
  import opened Session

  // ---------------------------------------------------------------------------
  // Project names

  /** `itertools.takewhile(lambda s: not s.startswith('+'), args)`. */
  function LeadingWords(args: seq<string>): (r: seq<string>)
    ensures |r| <= |args| && r == args[..|r|]
    ensures forall i :: 0 <= i < |r| ==> !StartsWith(r[i], "+")
    ensures |r| < |args| ==> StartsWith(args[|r|], "+")
    decreases |args|
  {
    if args == [] || StartsWith(args[0], "+") then []
    else
      var rest := LeadingWords(args[1..]);
      assert args == [args[0]] + args[1..];
      [args[0]] + rest
  }

  /** The project name of `start` and `add`: the leading arguments before the
      first tag, joined by spaces. */
  function ProjectName(args: seq<string>): (r: Result<string>)
    ensures r.Err? ==> r.error == ClickError("No project given.")
  {
    var name := Join(LeadingWords(args), " ");
    if name == "" then Err(ClickError("No project given.")) else Ok(name)
  }

  lemma JoinEmpty(parts: seq<string>, sep: string)
    requires sep != []
    ensures Join(parts, sep) == "" <==> parts == [] || parts == [""]
  {
    if |parts| > 1 {
      assert |Join(parts, sep)| >= |sep|;
    }
  }

  /** The name is refused exactly when no word precedes the first tag, or the only
      one is empty; when no word holds a space, splitting the name on spaces gives
      back the words. */
  lemma ProjectNameWords(args: seq<string>)
    ensures ProjectName(args).Err? <==> LeadingWords(args) == [] || LeadingWords(args) == [""]
    ensures ProjectName(args).Ok? && (forall i :: 0 <= i < |LeadingWords(args)| ==> ' ' !in LeadingWords(args)[i]) ==>
      Split(ProjectName(args).value, ' ') == LeadingWords(args)
  {
    JoinEmpty(LeadingWords(args), " ");
    var words := LeadingWords(args);
    if ProjectName(args).Ok? && forall i :: 0 <= i < |words| ==> ' ' !in words[i] {
      SplitJoin(words, ' ');
    }
  }

  // ---------------------------------------------------------------------------
  // Mutually exclusive options

  predicate AllDashes(t: string) {
    forall k :: 0 <= k < |t| ==> t[k] == '-'
  }

  /** `s.strip('-')`: the part of `s` left once the runs of dashes at both ends
      are removed. */
  function StripDashes(s: string): (r: string)
    ensures r == [] || (r[0] != '-' && r[|r| - 1] != '-')
    ensures exists i, j :: 0 <= i <= j <= |s| && r == s[i..j] && AllDashes(s[..i]) && AllDashes(s[j..])
    decreases |s|
  {
    if s == [] then
      assert s[0..0] == [] && s[..0] == [] && s[0..] == [];
      []
    else if s[0] == '-' then
      var r := StripDashes(s[1..]);
      var i, j :| 0 <= i <= j <= |s[1..]| && r == s[1..][i..j] && AllDashes(s[1..][..i]) && AllDashes(s[1..][j..]);
      DashesAtHead(s, i, j);
      r
    else if s[|s| - 1] == '-' then
      var r := StripDashes(s[..|s| - 1]);
      var init := s[..|s| - 1];
      var i, j :| 0 <= i <= j <= |init| && r == init[i..j] && AllDashes(init[..i]) && AllDashes(init[j..]);
      DashesAtTail(s, i, j);
      r
    else
      assert s == s[0..|s|] && s[..0] == [] && s[|s|..] == [];
      s
  }

  lemma DashesAtHead(s: string, i: nat, j: nat)
    requires |s| > 0 && s[0] == '-' && i <= j <= |s| - 1
    requires AllDashes(s[1..][..i]) && AllDashes(s[1..][j..])
    ensures s[1..][i..j] == s[i + 1..j + 1] && AllDashes(s[..i + 1]) && AllDashes(s[j + 1..])
  {
    assert s[..i + 1] == [s[0]] + s[1..][..i];
    assert s[j + 1..] == s[1..][j..];
  }

  lemma DashesAtTail(s: string, i: nat, j: nat)
    requires |s| > 0 && s[|s| - 1] == '-' && i <= j <= |s| - 1
    requires AllDashes(s[..|s| - 1][..i]) && AllDashes(s[..|s| - 1][j..])
    ensures s[..|s| - 1][i..j] == s[i..j] && AllDashes(s[..i]) && AllDashes(s[j..])
  {
    assert s[..i] == s[..|s| - 1][..i];
    assert s[j..] == s[..|s| - 1][j..] + [s[|s| - 1]];
  }

  lemma DistinctValues(values: seq<string>)
    ensures |Elements(values)| > 1 <==> exists i, j :: 0 <= i < j < |values| && values[i] != values[j]
  {
    if exists i, j :: 0 <= i < j < |values| && values[i] != values[j] {
      var i, j :| 0 <= i < j < |values| && values[i] != values[j];
      assert {values[i], values[j]} <= Elements(values);
      assert |{values[i], values[j]}| == 2;
      SubsetCardinality({values[i], values[j]}, Elements(values));
    } else if values != [] {
      assert forall k :: 0 <= k < |values| ==> values[k] == values[0];
      assert Elements(values) == {values[0]};
    } else {
      assert Elements(values) == {};
    }
  }

  lemma SubsetCardinality<T>(a: set<T>, b: set<T>)
    requires a <= b
    ensures |a| <= |b|
  {
    assert b == a + (b - a);
  }

  /** `MutuallyExclusiveOption.handle_parse_result`: `opts` maps each option given
      to its values (one for a plain option). The error names the partners and
      the option's own flag. */
  function HandleParseResult(name: string, lastFlag: string, exclusive: set<string>, multiple: bool,
                             opts: map<string, seq<string>>): (o: Outcome)
    ensures o.Fail? <==>
      (name in opts &&
       ((exists p :: p in exclusive && p in opts) ||
        (multiple && exists i, j :: 0 <= i < j < |opts[name]| && opts[name][i] != opts[name][j])))
    ensures o.Fail? ==> o.error == ExclusiveError(exclusive + {StripDashes(lastFlag)})
  {
    var values := if name in opts then opts[name] else [];
    DistinctValues(values);
    if name in opts && exclusive * opts.Keys != {} then
      Fail(ExclusiveError(exclusive + {StripDashes(lastFlag)}))
    else if name in opts && multiple && |Elements(opts[name])| > 1 then
      Fail(ExclusiveError(exclusive + {StripDashes(lastFlag)}))
    else
      assert name in opts ==> forall p :: p in exclusive && p in opts ==> p in exclusive * opts.Keys;
      Pass
  }

  // ---------------------------------------------------------------------------
  // Guards of start, restart and log

  function NoGapMessage(project: string): string {
    "Project '" + project + "' is already started and '--no-gap' is passed. Please stop manually."
  }

  /** What the `start` command does before calling `Watson.start`: the project
      name, and whether the running frame is stopped first (at the same `--at`). */
  datatype StartPlan = StartPlan(project: string, stopFirst: bool)

  function StartGuard(args: seq<string>, running: Option<Running>, gap: bool, cfg: ConfigParser): (r: Result<StartPlan>)
    reads cfg
    ensures ProjectName(args).Err? ==> r == Err(ClickError("No project given."))
    ensures ProjectName(args).Ok? && running.Some? && !gap ==>
      r == Err(ClickError(NoGapMessage(running.value.project)))
    ensures r.Ok? <==> ProjectName(args).Ok? && (running.None? || gap)
    ensures r.Ok? ==> r.value.project == ProjectName(args).value
    ensures r.Ok? ==> (r.value.stopFirst <==> running.Some? && cfg.GetBoolean("options", "stop_on_start", false))
  {
    var name := ProjectName(args);
    if name.Err? then Err(name.error)
    else if running.Some? && !gap then Err(ClickError(NoGapMessage(running.value.project)))
    else Ok(StartPlan(name.value, running.Some? && cfg.GetBoolean("options", "stop_on_start", false)))
  }

  /** What the `restart` command does before restarting: whether the running
      frame is stopped first, or why it refuses. `stop` is `--stop/--no-stop`. */
  function RestartGuard(rows: seq<Frame>, running: Option<Running>, gap: bool, stop: Option<bool>,
                        cfg: ConfigParser): (r: Result<bool>)
    reads cfg
    ensures rows == [] && running.None? ==>
      r == Err(ClickError("No frames recorded yet. It's time to create your first one!"))
    ensures running.Some? && !gap ==> r == Err(ClickError(NoGapMessage(running.value.project)))
    ensures running.Some? && gap ==>
      (r.Ok? <==> stop == Some(true) || (stop.None? && cfg.GetBoolean("options", "stop_on_restart", false)))
    ensures running.Some? && gap && r.Err? ==> r.error == ClickError("Project already started: " + running.value.project)
    ensures r.Ok? ==> (r.value <==> running.Some?)
    ensures rows != [] && running.None? ==> r == Ok(false)
  {
    if rows == [] && running.None? then
      Err(ClickError("No frames recorded yet. It's time to create your first one!"))
    else if running.Some? && !gap then Err(ClickError(NoGapMessage(running.value.project)))
    else if running.Some? then
      if stop == Some(true) || (stop.None? && cfg.GetBoolean("options", "stop_on_restart", false)) then Ok(true)
      else Err(ClickError("Project already started: " + running.value.project))
    else Ok(false)
  }

  /** The checks of the `log` command. `shortcuts` holds the day, week, month,
      luna, year and all start instants in that order; the start of the log is
      the last one given. Unlike `report`, the dates are checked first. */
  method LogGuard(from: int, to: int, shortcuts: seq<Option<int>>,
                  projects: Option<seq<string>>, ignoreProjects: Option<seq<string>>,
                  tags: Option<seq<string>>, ignoreTags: Option<seq<string>>)
    returns (r: Result<int>)
    ensures LastGiven(shortcuts, from) > to ==> r == Err(ClickError("'from' must be anterior to 'to'"))
    ensures LastGiven(shortcuts, from) <= to && !ValidateReportOptions(projects, ignoreProjects) ==>
      r == Err(ClickError("given projects can't be ignored at the same time"))
    ensures LastGiven(shortcuts, from) <= to && ValidateReportOptions(projects, ignoreProjects) &&
            !ValidateReportOptions(tags, ignoreTags) ==>
      r == Err(ClickError("given tags can't be ignored at the same time"))
    ensures r.Ok? <==> LastGiven(shortcuts, from) <= to && ValidateReportOptions(projects, ignoreProjects) &&
                       ValidateReportOptions(tags, ignoreTags)
    ensures r.Ok? ==> r.value == LastGiven(shortcuts, from)
  {
    var start := ReportStart(shortcuts, from);
    if start > to {
      return Err(ClickError("'from' must be anterior to 'to'"));
    }
    if !ValidateReportOptions(projects, ignoreProjects) {
      return Err(ClickError("given projects can't be ignored at the same time"));
    }
    if !ValidateReportOptions(tags, ignoreTags) {
      return Err(ClickError("given tags can't be ignored at the same time"));
    }
    r := Ok(start);
  }

  // ---------------------------------------------------------------------------
  // Merge

  /** The answer to "left or right? (L/r)". */
  datatype Answer = KeepLocal | TakeIncoming

  /** The counts the merge prints: unchanged, to merge, to resolve. */
  datatype MergeStats = MergeStats(untouched: int, toMerge: nat, toResolve: nat)

  /** The incoming tags as displayed: those the local frame lacks wrapped in `**`. */
  function Highlight(tags: seq<string>, local: seq<string>): (r: seq<string>)
    ensures |r| == |tags|
    ensures forall i :: 0 <= i < |tags| ==> r[i] == if tags[i] in local then tags[i] else "**" + tags[i] + "**"
  {
    seq(|tags|, i requires 0 <= i < |tags| => if tags[i] in local then tags[i] else "**" + tags[i] + "**")
  }

  /** The frame stored when the incoming frame is chosen, as the code is written:
      `_replace()` copies the frame but not its tag list, so writing the highlight
      into the copy's tags rewrites the incoming frame's tags too. */
  function StoredAsWritten(incoming: Frame, local: Frame): (f: Frame)
    ensures f.tags == Highlight(incoming.tags, local.tags)
    ensures f == incoming <==> forall t :: t in incoming.tags ==> t in local.tags
  {
    var h := Highlight(incoming.tags, local.tags);
    if forall t :: t in incoming.tags ==> t in local.tags then
      assert h == incoming.tags;
      incoming.(tags := h)
    else
      var k :| 0 <= k < |incoming.tags| && incoming.tags[k] !in local.tags;
      assert |h[k]| == |incoming.tags[k]| + 4;
      incoming.(tags := h)
  }

  /** The frame stored when the incoming frame is chosen, as intended: the
      incoming frame itself. */
  function StoredFrame(incoming: Frame, local: Frame, asWritten: bool): Frame {
    if asWritten then StoredAsWritten(incoming, local) else incoming
  }

  /** The state of the conflict loop: the rows, whether any was replaced, and the
      exception that stopped the loop, if any. */
  datatype Resolution = Resolution(rows: seq<Frame>, touched: bool, failure: Option<Error>)

  /** One turn of the conflict loop: look the conflict's id up (KeyError when an
      earlier replacement took the matching id away; AttributeError when the id
      names a column), display both frames (AttributeError when either has no
      stop), then keep the local frame or store the incoming one by id. */
  function ResolveStep(st: Resolution, c: Frame, a: Answer, asWritten: bool): (r: Resolution)
    ensures |r.rows| == |st.rows|
  {
    if st.failure.Some? then st
    else if c.id in Headers then st.(failure := Some(AttributeError))
    else
      var i := FindId(st.rows, c.id);
      if i.None? then st.(failure := Some(KeyError))
      else if st.rows[i.value].stop.None? || c.stop.None? then st.(failure := Some(AttributeError))
      else if a == KeepLocal then st
      else Resolution(UpsertRows(st.rows, c.id, StoredFrame(c, st.rows[i.value], asWritten)), true, None)
  }

  /** The conflict loop after its first `k` turns; the row count never changes. */
  function ResolveUpTo(rows: seq<Frame>, conflicts: seq<Frame>, answer: nat -> Answer, k: nat,
                       asWritten: bool): (r: Resolution)
    requires k <= |conflicts|
    ensures |r.rows| == |rows|
    decreases k
  {
    if k == 0 then Resolution(rows, false, None)
    else ResolveStep(ResolveUpTo(rows, conflicts, answer, k - 1, asWritten), conflicts[k - 1], answer(k - 1), asWritten)
  }

  lemma {:induction false} FailureStops(rows: seq<Frame>, conflicts: seq<Frame>, answer: nat -> Answer,
                                        k: nat, n: nat, asWritten: bool)
    requires k <= n <= |conflicts|
    requires ResolveUpTo(rows, conflicts, answer, k, asWritten).failure.Some?
    ensures ResolveUpTo(rows, conflicts, answer, n, asWritten) == ResolveUpTo(rows, conflicts, answer, k, asWritten)
    decreases n
  {
    if n > k {
      FailureStops(rows, conflicts, answer, k, n - 1, asWritten);
    }
  }

  /** Keeping every local frame changes nothing. */
  lemma {:induction false} KeepingLocalChangesNothing(rows: seq<Frame>, conflicts: seq<Frame>,
                                                      answer: nat -> Answer, k: nat, asWritten: bool)
    requires k <= |conflicts|
    requires forall i :: 0 <= i < k ==> answer(i) == KeepLocal
    ensures ResolveUpTo(rows, conflicts, answer, k, asWritten).rows == rows
    ensures !ResolveUpTo(rows, conflicts, answer, k, asWritten).touched
    decreases k
  {
    if k > 0 {
      KeepingLocalChangesNothing(rows, conflicts, answer, k - 1, asWritten);
    }
  }

  /** Choosing the incoming frame replaces exactly the row its id finds, by the
      incoming frame itself, which a lookup by that id then returns. */
  lemma StoresIncomingFrame(st: Resolution, c: Frame)
    requires st.failure.None?
    requires ResolveStep(st, c, TakeIncoming, false).failure.None?
    ensures var r := ResolveStep(st, c, TakeIncoming, false);
      && FindId(st.rows, c.id).Some?
      && r.rows == st.rows[FindId(st.rows, c.id).value := c]
      && LookupKey(r.rows, c.id) == Ok(RowItem(c))
  {
    var r := ResolveStep(st, c, TakeIncoming, false);
    var found := LookupKey(st.rows, c.id);
    assert found.Ok? && found.value.RowItem?;
    var i := FindId(st.rows, c.id);
    assert i.Some?;
    assert c.(id := c.id) == c;
    assert StartsWith(c.id, c.id);
    assert r.rows == st.rows[i.value := c];
    assert forall j :: 0 <= j < i.value ==> r.rows[j] == st.rows[j] && !StartsWith(r.rows[j].id, c.id);
    assert StartsWith(r.rows[i.value].id, c.id);
    var m := FindId(r.rows, c.id);
    assert m.Some?;
    assert m.value == i.value;
  }

  /** The local and the incoming version of one frame, differing in their tags. */
  function LeakLocal(): Frame {
    Frame(0, Some(60), "watson", "abc", ["x"], 1)
  }

  function LeakIncoming(): Frame {
    Frame(0, Some(60), "watson", "abc", ["y"], 2)
  }

  /** As written, choosing the incoming frame stores its tags with the display
      highlight: `["**y**"]` instead of `["y"]`. */
  lemma HighlightLeaksIntoStore()
    ensures var r := ResolveUpTo([LeakLocal()], [LeakIncoming()], _ => TakeIncoming, 1, true);
      r.failure.None? && r.rows == [LeakIncoming().(tags := ["**y**"])] && r.rows != [LeakIncoming()]
    ensures var r := ResolveUpTo([LeakLocal()], [LeakIncoming()], _ => TakeIncoming, 1, false);
      r.failure.None? && r.rows == [LeakIncoming()]
  {
    var local := [LeakLocal()];
    assert StartsWith(LeakLocal().id, "abc");
    assert FindId(local, "abc") == Some(0);
    assert "abc" !in Headers;
    assert LookupKey(local, "abc") == Ok(RowItem(LeakLocal()));
    var h := Highlight(["y"], ["x"]);
    assert "y" !in ["x"];
    assert h[0] == "**y**";
    assert h == ["**y**"];
    var st := Resolution(local, false, None);
    assert ResolveUpTo(local, [LeakIncoming()], _ => TakeIncoming, 0, true) == st;
    assert ResolveUpTo(local, [LeakIncoming()], _ => TakeIncoming, 0, false) == st;
    assert ["**y**"] != ["y"] by {
      assert |"**y**"| != |"y"|;
    }
  }

  /** A merging frame added back through its dump: the same frame, with a fresh
      id only when its own is empty. */
  function Readded(m: Frame, freshId: string, now: int): (f: Frame)
    ensures m.id != "" ==> f == m
    ensures m.id == "" ==> f == m.(id := freshId)
  {
    var d := DumpFrame(m);
    NewFrame(d.project, d.start, d.stop, d.tags, Some(d.id), d.updatedAt, freshId, now)
  }

  function ReaddedAll(ms: seq<Frame>, freshIds: nat -> string, now: int): (r: seq<Frame>)
    ensures |r| == |ms|
    ensures forall i :: 0 <= i < |ms| ==> r[i] == Readded(ms[i], freshIds(i), now)
  {
    seq(|ms|, i requires 0 <= i < |ms| => Readded(ms[i], freshIds(i), now))
  }

  /** Turn `k` of the conflict loop, on the store. With `asWritten` the frame
      stored for the answer `r` carries the highlighted tags, as the code does;
      without it, the incoming frame itself. */
  method ResolveOne(store: FrameStore, ghost local: seq<Frame>, conflicts: seq<Frame>, answer: nat -> Answer,
                    k: nat, ghost touched: bool, asWritten: bool, now: int)
    returns (failure: Option<Error>, replaced: bool)
    requires k < |conflicts|
    requires ResolveUpTo(local, conflicts, answer, k, asWritten) == Resolution(store.rows, touched, None)
    modifies store
    ensures ResolveUpTo(local, conflicts, answer, k + 1, asWritten) == Resolution(store.rows, touched || replaced, failure)
    ensures store.changed == (old(store.changed) || replaced)
  {
    var c := conflicts[k];
    var found := store.GetByString(c.id);
    if found.Err? || found.value.ColumnItem? || found.value.frame.stop.None? || c.stop.None? {
      return Some(if found.Err? then found.error else AttributeError), false;
    }
    failure := None;
    replaced := answer(k) == TakeIncoming;
    if replaced {
      store.SetById(c.id, FrameValue(StoredFrame(c, found.value.frame, asWritten)), "", now);
    }
  }

  /** The conflict loop of `merge`, on the store: stops at the first exception. */
  method ResolveConflicts(store: FrameStore, conflicts: seq<Frame>, answer: nat -> Answer, asWritten: bool, now: int)
    returns (failure: Option<Error>, touched: bool)
    modifies store
    ensures ResolveUpTo(old(store.rows), conflicts, answer, |conflicts|, asWritten) == Resolution(store.rows, touched, failure)
    ensures store.changed == (old(store.changed) || touched)
  {
    ghost var local := store.rows;
    ghost var changed0 := store.changed;
    failure, touched := None, false;
    var k := 0;
    while k < |conflicts| && failure.None?
      invariant 0 <= k <= |conflicts|
      invariant ResolveUpTo(local, conflicts, answer, k, asWritten) == Resolution(store.rows, touched, failure)
      invariant store.changed == (changed0 || touched)
    {
      var replaced;
      failure, replaced := ResolveOne(store, local, conflicts, answer, k, touched, asWritten, now);
      touched := touched || replaced;
      k := k + 1;
    }
    if failure.Some? {
      FailureStops(local, conflicts, answer, k, |conflicts|, asWritten);
    }
  }

  /** The loop of `merge` that adds every merging frame back through its dump. */
  method AddMerging(store: FrameStore, merging: seq<Frame>, freshIds: nat -> string, now: int)
    modifies store
    ensures store.rows == old(store.rows) + ReaddedAll(merging, freshIds, now)
    ensures store.changed == (old(store.changed) || merging != [])
  {
    ghost var rows0 := store.rows;
    var j := 0;
    while j < |merging|
      invariant 0 <= j <= |merging|
      invariant store.rows == rows0 + ReaddedAll(merging[..j], freshIds, now)
      invariant store.changed == (old(store.changed) || j > 0)
    {
      var d := DumpFrame(merging[j]);
      var f := store.Add(d.project, d.start, d.stop, d.tags, Some(d.id), d.updatedAt, freshIds(j), now);
      assert ReaddedAll(merging[..j + 1], freshIds, now) == ReaddedAll(merging[..j], freshIds, now) + [f];
      j := j + 1;
    }
    assert merging[..|merging|] == merging;
  }

  /** The steps of `merge` after the report: print the counts, stop when there is
      nothing to do or the user declines, resolve each conflict with the scripted
      answer, append every merging frame, and mark the store changed. With
      `asWritten` the conflict loop is the one the code runs, which stores the
      display highlight in the tags (`HighlightLeaksIntoStore`); without it, the
      corrected loop, which stores the incoming frame (`StoresIncomingFrame`). */
  method Merge(w: Watson, file: seq<Row>, force: bool, confirmed: bool, answer: nat -> Answer,
               freshIds: nat -> string, asWritten: bool, now: int)
    returns (stats: MergeStats, o: Outcome)
    modifies w.frames
    ensures var rep := MergeSplit(old(w.frames.rows), LoadRows(file, now));
      stats == MergeStats(|old(w.frames.rows)| - |rep.conflicting|, |rep.merging|, |rep.conflicting|)
    ensures var rep := MergeSplit(old(w.frames.rows), LoadRows(file, now));
      (rep.conflicting == [] && rep.merging == []) || (!force && !confirmed) ==>
        o == Pass && w.frames.rows == old(w.frames.rows) && w.frames.changed == old(w.frames.changed)
    ensures var rep := MergeSplit(old(w.frames.rows), LoadRows(file, now));
      (rep.conflicting != [] || rep.merging != []) && (force || confirmed) ==>
        var st := ResolveUpTo(old(w.frames.rows), rep.conflicting, answer, |rep.conflicting|, asWritten);
        && (st.failure.Some? ==>
              o == Fail(st.failure.value) && w.frames.rows == st.rows &&
              w.frames.changed == (old(w.frames.changed) || st.touched))
        && (st.failure.None? ==>
              o == Pass && w.frames.changed &&
              w.frames.rows == st.rows + ReaddedAll(rep.merging, freshIds, now))
  {
    var local := w.frames.rows;
    var rep := w.MergeReportOf(file, now);
    stats := MergeStats(|local| - |rep.conflicting|, |rep.merging|, |rep.conflicting|);
    if rep.conflicting == [] && rep.merging == [] {
      return stats, Pass;
    }
    if !force && !confirmed {
      return stats, Pass;
    }
    var failure, _ := ResolveConflicts(w.frames, rep.conflicting, answer, asWritten, now);
    if failure.Some? {
      return stats, Fail(failure.value);
    }
    AddMerging(w.frames, rep.merging, freshIds, now);
    w.frames.changed := true;
    o := Pass;
  }

  // ---------------------------------------------------------------------------
  // Aggregate

  /** The days `aggregate` reports on: `from + i` days for `i` in
      `range((to - from).days + 1)`, where `.days` rounds down. Each lies at or
      before `to`, and the next one would not. */
  method AggregateDays(from: int, to: int) returns (days: seq<int>)
    ensures forall i :: 0 <= i < |days| ==> days[i] == from + i * Day && days[i] <= to
    ensures from + |days| * Day > to
  {
    var delta := (to - from) / Day;
    assert delta * Day <= to - from < delta * Day + Day;
    days := [];
    var i := 0;
    while i < delta + 1
      invariant 0 <= i && (delta >= 0 ==> i <= delta + 1)
      invariant |days| == i
      invariant forall k :: 0 <= k < i ==> days[k] == from + k * Day && k <= delta
    {
      days := days + [from + i * Day];
      i := i + 1;
    }
  }
}
