/** What `Watson.report` computes from the filtered frames: per-project totals,
    per-tag totals inside each project, and the grand total. Projects come in name
    order (`sorted_groupby` on the project), tags in name order. */
module Reports {
  import opened Wrappers
  import opened Text
  import opened Frames

  datatype TagReport = TagReport(name: string, time: int)
  datatype ProjectReport = ProjectReport(name: string, time: int, tags: seq<TagReport>)
  datatype Report = Report(from: int, to: int, projects: seq<ProjectReport>, time: int)

  /** `f.stop - f.start`; a frame without a stop counts for nothing. */
  function Duration(f: Frame): int {
    if f.stop.Some? then f.stop.value - f.start else 0
  }

  /** The summed durations, accumulated from the first frame to the last. */
  function TotalTime(fs: seq<Frame>): int
    decreases |fs|
  {
    if fs == [] then 0 else TotalTime(fs[..|fs| - 1]) + Duration(fs[|fs| - 1])
  }

  /** The frames of one project, in order. */
  function OfProject(fs: seq<Frame>, p: string): (r: seq<Frame>)
    ensures forall f :: f in r <==> f in fs && f.project == p
    decreases |fs|
  {
    if fs == [] then []
    else
      var init := OfProject(fs[..|fs| - 1], p);
      var last := fs[|fs| - 1];
      assert fs == fs[..|fs| - 1] + [last];
      if last.project == p then init + [last] else init
  }

  /** The frames carrying one tag, in order. */
  function WithTag(fs: seq<Frame>, t: string): (r: seq<Frame>)
    ensures forall f :: f in r <==> f in fs && t in f.tags
    decreases |fs|
  {
    if fs == [] then []
    else
      var init := WithTag(fs[..|fs| - 1], t);
      var last := fs[|fs| - 1];
      assert fs == fs[..|fs| - 1] + [last];
      if t in last.tags then init + [last] else init
  }

  function ProjectColumn(fs: seq<Frame>): (r: seq<string>)
    ensures |r| == |fs| && forall i :: 0 <= i < |fs| ==> r[i] == fs[i].project
  {
    seq(|fs|, i requires 0 <= i < |fs| => fs[i].project)
  }

  /** All tags of all frames, in order, with repetitions. */
  function AllTags(fs: seq<Frame>): (r: seq<string>)
    ensures forall t :: t in r <==> exists i :: 0 <= i < |fs| && t in fs[i].tags
    decreases |fs|
  {
    if fs == [] then []
    else
      var rest := AllTags(fs[1..]);
      assert forall i :: 1 <= i < |fs| ==> fs[i] == fs[1..][i - 1];
      assert forall t, i :: 0 <= i < |fs[1..]| && t in fs[1..][i].tags ==> t in fs[i + 1].tags;
      fs[0].tags + rest
  }

  /** `sorted(set(tag for frame in frames for tag in frame.tags if tag in tags or not tags))`. */
  function TagsToPrint(fs: seq<Frame>, wanted: seq<string>): (r: seq<string>)
    ensures StrictlySorted(r)
    ensures forall t :: t in r <==> (t in AllTags(fs) && (wanted == [] || t in wanted))
  {
    var all := AllTags(fs);
    var kept := Kept(all, wanted);
    var r := SortedUnique(kept);
    assert forall t :: t in r <==> t in Elements(kept);
    r
  }

  /** The elements of `xs` that pass `tag in wanted or not wanted`. */
  function Kept(xs: seq<string>, wanted: seq<string>): (r: seq<string>)
    ensures forall t :: t in r <==> (t in xs && (wanted == [] || t in wanted))
    decreases |xs|
  {
    if xs == [] then []
    else (if wanted == [] || xs[0] in wanted then [xs[0]] else []) + Kept(xs[1..], wanted)
  }

  /** The project names of the frames, sorted and each once. */
  function ProjectNames(fs: seq<Frame>): (r: seq<string>)
    ensures StrictlySorted(r)
    ensures forall p :: p in r <==> exists i :: 0 <= i < |fs| && fs[i].project == p
  {
    var col := ProjectColumn(fs);
    var r := SortedUnique(col);
    assert forall p :: p in r <==> p in Elements(col);
    r
  }

  function TagReports(fs: seq<Frame>, names: seq<string>): (r: seq<TagReport>)
    ensures |r| == |names|
    ensures forall i :: 0 <= i < |names| ==> r[i] == TagReport(names[i], TotalTime(WithTag(fs, names[i])))
  {
    seq(|names|, i requires 0 <= i < |names| => TagReport(names[i], TotalTime(WithTag(fs, names[i]))))
  }

  function ProjectReportOf(fs: seq<Frame>, p: string, wanted: seq<string>): ProjectReport {
    var group := OfProject(fs, p);
    ProjectReport(p, TotalTime(group), TagReports(group, TagsToPrint(group, wanted)))
  }

  function ProjectReports(fs: seq<Frame>, names: seq<string>, wanted: seq<string>): (r: seq<ProjectReport>)
    ensures |r| == |names|
    ensures forall i :: 0 <= i < |names| ==> r[i] == ProjectReportOf(fs, names[i], wanted)
  {
    seq(|names|, i requires 0 <= i < |names| => ProjectReportOf(fs, names[i], wanted))
  }

  /** The sum of the project times, accumulated from the first to the last. */
  function SumTimes(prs: seq<ProjectReport>): int
    decreases |prs|
  {
    if prs == [] then 0 else SumTimes(prs[..|prs| - 1]) + prs[|prs| - 1].time
  }

  /** The report over already filtered frames. */
  function ReportOf(fs: seq<Frame>, span: Span, wanted: seq<string>): (r: Report)
    ensures r.from == span.start && r.to == span.stop
    ensures |r.projects| == |ProjectNames(fs)|
    ensures r.time == TotalTime(fs)
  {
    var names := ProjectNames(fs);
    StrictlySortedDistinct(names);
    SumTimesProjects(fs, names, wanted);
    PartitionTotal(names, fs);
    var prs := ProjectReports(fs, names, wanted);
    Report(span.start, span.stop, prs, SumTimes(prs))
  }

  // ---------------------------------------------------------------------------
  // Properties

  /** The sum, over a list of names, of the time of each name's frames. */
  function SumOver(names: seq<string>, fs: seq<Frame>): int
    decreases |names|
  {
    if names == [] then 0 else SumOver(names[..|names| - 1], fs) + TotalTime(OfProject(fs, names[|names| - 1]))
  }

  lemma {:induction false} SumOverAppend(names: seq<string>, fs: seq<Frame>, f: Frame)
    requires Distinct(names)
    ensures SumOver(names, fs + [f]) == SumOver(names, fs) + (if f.project in names then Duration(f) else 0)
    decreases |names|
  {
    if names != [] {
      var init := names[..|names| - 1];
      var last := names[|names| - 1];
      assert Distinct(init);
      SumOverAppend(init, fs, f);
      assert (fs + [f])[..|fs + [f]| - 1] == fs;
      assert f.project in names <==> f.project in init || f.project == last;
      assert f.project == last ==> f.project !in init;
    }
  }

  lemma SumOverEmpty(names: seq<string>)
    ensures SumOver(names, []) == 0
    decreases |names|
  {
    if names != [] {
      SumOverEmpty(names[..|names| - 1]);
    }
  }

  /** Splitting frames by project and adding the parts up gives the whole. */
  lemma {:induction false} PartitionTotal(names: seq<string>, fs: seq<Frame>)
    requires Distinct(names)
    requires forall i :: 0 <= i < |fs| ==> fs[i].project in names
    ensures SumOver(names, fs) == TotalTime(fs)
    decreases |fs|
  {
    if fs == [] {
      SumOverEmpty(names);
    } else {
      var init := fs[..|fs| - 1];
      var last := fs[|fs| - 1];
      assert fs == init + [last];
      PartitionTotal(names, init);
      SumOverAppend(names, init, last);
    }
  }

  lemma {:induction false} SumTimesProjects(fs: seq<Frame>, names: seq<string>, wanted: seq<string>)
    ensures SumTimes(ProjectReports(fs, names, wanted)) == SumOver(names, fs)
    decreases |names|
  {
    if names != [] {
      var prs := ProjectReports(fs, names, wanted);
      var init := names[..|names| - 1];
      SumTimesProjects(fs, init, wanted);
      assert prs[..|prs| - 1] == ProjectReports(fs, init, wanted);
    }
  }

  /** The grand total is the summed time of all reported frames, and so the sum
      of the project times. */
  lemma ReportTotal(fs: seq<Frame>, span: Span, wanted: seq<string>)
    ensures ReportOf(fs, span, wanted).time == TotalTime(fs)
    ensures ReportOf(fs, span, wanted).time == SumTimes(ReportOf(fs, span, wanted).projects)
  {
    var names := ProjectNames(fs);
    StrictlySortedDistinct(names);
    SumTimesProjects(fs, names, wanted);
    PartitionTotal(names, fs);
  }

  function ReportNames(r: Report): seq<string> {
    seq(|r.projects|, i requires 0 <= i < |r.projects| => r.projects[i].name)
  }

  /** The projects are listed in name order, each once, exactly those of the
      reported frames; in each, the tags are in name order, each carried by some
      frame of the project, and limited to the requested tags when any are given. */
  lemma ReportOrder(fs: seq<Frame>, span: Span, wanted: seq<string>)
    ensures var r := ReportOf(fs, span, wanted);
      && StrictlySorted(ReportNames(r))
      && (forall p :: p in ReportNames(r) <==> exists i :: 0 <= i < |fs| && fs[i].project == p)
    ensures var r := ReportOf(fs, span, wanted);
      forall i :: 0 <= i < |r.projects| ==>
        var tags := seq(|r.projects[i].tags|, k requires 0 <= k < |r.projects[i].tags| => r.projects[i].tags[k].name);
        && StrictlySorted(tags)
        && (forall t :: t in tags ==> t in AllTags(OfProject(fs, r.projects[i].name)))
        && (wanted != [] ==> forall t :: t in tags ==> t in wanted)
  {
    var r := ReportOf(fs, span, wanted);
    assert ReportNames(r) == ProjectNames(fs);
    forall i | 0 <= i < |r.projects|
      ensures var tags := seq(|r.projects[i].tags|, k requires 0 <= k < |r.projects[i].tags| => r.projects[i].tags[k].name);
        && StrictlySorted(tags)
        && (forall t :: t in tags ==> t in AllTags(OfProject(fs, r.projects[i].name)))
        && (wanted != [] ==> forall t :: t in tags ==> t in wanted)
    {
      var group := OfProject(fs, r.projects[i].name);
      var tags := seq(|r.projects[i].tags|, k requires 0 <= k < |r.projects[i].tags| => r.projects[i].tags[k].name);
      assert tags == TagsToPrint(group, wanted);
    }
  }

  predicate NonNegativeDurations(fs: seq<Frame>) {
    forall i :: 0 <= i < |fs| ==> Duration(fs[i]) >= 0
  }

  lemma {:induction false} WithTagBounded(fs: seq<Frame>, t: string)
    requires NonNegativeDurations(fs)
    ensures 0 <= TotalTime(WithTag(fs, t)) <= TotalTime(fs)
    decreases |fs|
  {
    if fs != [] {
      var init := fs[..|fs| - 1];
      assert NonNegativeDurations(init) by {
        forall i | 0 <= i < |init| ensures Duration(init[i]) >= 0 {
          assert init[i] == fs[i];
        }
      }
      WithTagBounded(init, t);
      assert Duration(fs[|fs| - 1]) >= 0;
    }
  }

  /** When no frame ends before it starts, every tag's time is at most its
      project's time. */
  lemma TagTimeAtMostProjectTime(fs: seq<Frame>, span: Span, wanted: seq<string>)
    requires NonNegativeDurations(fs)
    ensures var r := ReportOf(fs, span, wanted);
      forall i, k :: 0 <= i < |r.projects| && 0 <= k < |r.projects[i].tags| ==>
        0 <= r.projects[i].tags[k].time <= r.projects[i].time
  {
    var r := ReportOf(fs, span, wanted);
    forall i, k | 0 <= i < |r.projects| && 0 <= k < |r.projects[i].tags|
      ensures 0 <= r.projects[i].tags[k].time <= r.projects[i].time
    {
      var group := OfProject(fs, r.projects[i].name);
      assert NonNegativeDurations(group) by {
        forall j | 0 <= j < |group| ensures Duration(group[j]) >= 0 {
          assert group[j] in fs;
        }
      }
      WithTagBounded(group, r.projects[i].tags[k].name);
    }
  }
}
