/** The frame store of watson/frames.py: `Frame` records, the day-aligned `Span`,
    and the ordered `Frames` collection with its lookup by index or by id prefix,
    upsert, delete, dump/load and `filter`. Timestamps are whole seconds. */
module Frames {
  import opened Wrappers
  import opened Text

  /** Seconds in a day. */
  const Day: int := 86400

  const Headers: seq<string> := ["start", "stop", "project", "id", "tags", "updated_at"]

  /** A tracked interval. `stop` is `None` for a row saved without a stop. */
  datatype Frame = Frame(
    start: int,
    stop: Option<int>,
    project: string,
    id: string,
    tags: seq<string>,
    updatedAt: int)

  /** One row of the frames file as `Frames(...)` receives it: four to six
      positional fields, the last two possibly absent. */
  datatype Row = Row(
    start: int,
    stop: Option<int>,
    project: string,
    id: string,
    tags: Option<seq<string>>,
    updatedAt: Option<int>)

  // ---------------------------------------------------------------------------
  // Construction, dump and load

  /** `Frame.__new__`: missing tags become `[]`, a missing `updated_at` becomes now. */
  function MakeFrame(start: int, stop: Option<int>, project: string, id: string,
                     tags: Option<seq<string>>, updatedAt: Option<int>, now: int): (f: Frame)
    ensures f.start == start && f.stop == stop && f.project == project && f.id == id
    ensures tags.None? ==> f.tags == []
    ensures tags.Some? ==> f.tags == tags.value
    ensures updatedAt.None? ==> f.updatedAt == now
    ensures updatedAt.Some? ==> f.updatedAt == updatedAt.value
  {
    Frame(start, stop, project, id,
          if tags.None? then [] else tags.value,
          if updatedAt.None? then now else updatedAt.value)
  }

  /** A stop read from the file as an integer: Python's `if stop` treats 0 like a
      missing stop, and such a frame later dumps its stop as `None`. */
  function StopFromFile(stop: Option<int>): Option<int> {
    if stop == Some(0) then None else stop
  }

  function LoadRow(r: Row, now: int): (f: Frame)
    ensures f.start == r.start && f.project == r.project && f.id == r.id
    ensures f.stop.None? <==> r.stop.None? || r.stop == Some(0)
    ensures f.stop.Some? ==> f.stop == r.stop
  {
    MakeFrame(r.start, StopFromFile(r.stop), r.project, r.id, r.tags, r.updatedAt, now)
  }

  /** `Frames(rows)`: every file row becomes a frame, in order. */
  function LoadRows(rows: seq<Row>, now: int): (fs: seq<Frame>)
    ensures |fs| == |rows|
    ensures forall i :: 0 <= i < |rows| ==> fs[i] == LoadRow(rows[i], now)
  {
    seq(|rows|, i requires 0 <= i < |rows| => LoadRow(rows[i], now))
  }

  /** `Frame.dump()`: the six fields as integers and lists. */
  function DumpFrame(f: Frame): (d: Row)
    ensures d.tags.Some? && d.updatedAt.Some?
    ensures f.stop != Some(0) ==> forall now :: LoadRow(d, now) == f
  {
    Row(f.start, f.stop, f.project, f.id, Some(f.tags), Some(f.updatedAt))
  }

  /** `Frames.dump()`. */
  function DumpRows(fs: seq<Frame>): (rows: seq<Row>)
    ensures |rows| == |fs|
    ensures forall i :: 0 <= i < |fs| ==> rows[i] == DumpFrame(fs[i])
  {
    seq(|fs|, i requires 0 <= i < |fs| => DumpFrame(fs[i]))
  }

  /** No frame carries a stop that the file format would read back as missing. */
  predicate NoZeroStop(fs: seq<Frame>) {
    forall i :: 0 <= i < |fs| ==> fs[i].stop != Some(0)
  }

  /** Dumping the frames and loading the dump gives back every frame, field by field. */
  lemma {:induction false} LoadDumpRoundTrip(fs: seq<Frame>, now: int)
    requires NoZeroStop(fs)
    ensures LoadRows(DumpRows(fs), now) == fs
  {
    var back := LoadRows(DumpRows(fs), now);
    forall i | 0 <= i < |fs| ensures back[i] == fs[i] {
      assert fs[i].stop != Some(0);
    }
  }

  /** A row without tags loads with `[]`, one without `updated_at` loads with now,
      and a frame without a stop dumps its stop as `None`. */
  lemma LoadDefaults(r: Row, now: int)
    ensures r.tags.None? ==> LoadRow(r, now).tags == []
    ensures r.updatedAt.None? ==> LoadRow(r, now).updatedAt == now
    ensures r.stop.None? ==> DumpFrame(LoadRow(r, now)).stop.None?
    ensures DumpFrame(LoadRow(r, now)).tags.Some? && DumpFrame(LoadRow(r, now)).updatedAt.Some?
  {
  }

  /** Loading a dump and dumping again is stable, whatever the stops. */
  lemma {:induction false} DumpLoadDumpStable(fs: seq<Frame>, now: int)
    ensures DumpRows(LoadRows(DumpRows(LoadRows(DumpRows(fs), now)), now))
         == DumpRows(LoadRows(DumpRows(fs), now))
  {
    var once := LoadRows(DumpRows(fs), now);
    assert NoZeroStop(once) by {
      forall i | 0 <= i < |once| ensures once[i].stop != Some(0) {
        assert once[i] == LoadRow(DumpFrame(fs[i]), now);
      }
    }
    LoadDumpRoundTrip(once, now);
  }

  // ---------------------------------------------------------------------------
  // Days and spans

  /** The start of the (hour-shifted) day holding `t`: `shifted_floor(t, 'day')`. */
  function DayFloor(t: int, hourShift: int): (r: int)
    ensures r <= t < r + Day
    ensures (r - hourShift * 3600) % Day == 0
  {
    var base := t - hourShift * 3600;
    assert (base / Day) * Day <= base < (base / Day) * Day + Day;
    (base / Day) * Day + hourShift * 3600
  }

  /** The last whole second of that day: `shifted_ceil(t, 'day')`. */
  function DayCeil(t: int, hourShift: int): (r: int)
    ensures t <= r < t + Day
    ensures (r + 1 - hourShift * 3600) % Day == 0
  {
    DayFloor(t, hourShift) + Day - 1
  }

  /** `a < b` and `a > b` (and the methods `__lte__`, `__gte__`, which the `<=`
      and `>=` operators do not call) compare starts only, while `==` compares
      all six fields. */
  predicate StartsBefore(a: Frame, b: Frame) {
    a.start < b.start
  }

  predicate StartsNotAfter(a: Frame, b: Frame) {
    a.start <= b.start
  }

  /** Two frames can differ while neither starts before the other: the ordering
      and the equality of frames do not agree. */
  lemma OrderingIsNotEquality(a: Frame)
    ensures var b := a.(updatedAt := a.updatedAt + 1);
      a != b && !StartsBefore(a, b) && !StartsBefore(b, a) && StartsNotAfter(a, b) && StartsNotAfter(b, a)
  {
  }

  /** `Frame.day`: the first second of the hour-shifted day the frame starts in. */
  function FrameDay(f: Frame, hourShift: int): (r: int)
    ensures r <= f.start < r + Day
    ensures (r - hourShift * 3600) % Day == 0
  {
    DayFloor(f.start, hourShift)
  }

  datatype Span = Span(start: int, stop: int)

  /** `Span(start, stop)` over whole days: the given instants lie inside it, and it
      reaches less than one day beyond each of them. */
  function MakeSpan(start: int, stop: int, hourShift: int): (s: Span)
    ensures s.start <= start && start - s.start < Day
    ensures stop <= s.stop && s.stop - stop < Day
    ensures (s.start - hourShift * 3600) % Day == 0
    ensures (s.stop + 1 - hourShift * 3600) % Day == 0
  {
    Span(DayFloor(start, hourShift), DayCeil(stop, hourShift))
  }

  /** `frame in span`. */
  predicate InSpan(s: Span, f: Frame)
    requires f.stop.Some?
    ensures InSpan(s, f) && f.start <= f.stop.value ==> Overlaps(s, f)
  {
    f.start >= s.start && f.stop.value <= s.stop
  }

  /** `span.overlaps(frame)`. */
  predicate Overlaps(s: Span, f: Frame)
    requires f.stop.Some?
    ensures f.start <= f.stop.value && s.start <= s.stop ==>
      (Overlaps(s, f) <==>
         (if f.start < s.start then s.start else f.start) <= (if f.stop.value < s.stop then f.stop.value else s.stop))
  {
    f.start <= s.stop && f.stop.value >= s.start
  }

  /** The part of a frame inside the span (`frame._replace(start=..., stop=...)`). */
  function Clip(f: Frame, s: Span): (c: Frame)
    requires f.stop.Some?
    ensures c.stop.Some?
    ensures c.start == (if f.start < s.start then s.start else f.start)
    ensures c.stop.value == (if f.stop.value > s.stop then s.stop else f.stop.value)
    ensures c.project == f.project && c.id == f.id && c.tags == f.tags && c.updatedAt == f.updatedAt
  {
    f.(start := if f.start < s.start then s.start else f.start,
       stop := Some(if f.stop.value > s.stop then s.stop else f.stop.value))
  }

  /** A frame overlapping a span is clipped into the span and gets no longer. */
  lemma ClipInsideAndShorter(f: Frame, s: Span)
    requires f.stop.Some? && f.start <= f.stop.value && Overlaps(s, f) && s.start <= s.stop
    ensures var c := Clip(f, s); c.start >= s.start && c.stop.value <= s.stop
    ensures var c := Clip(f, s); c.stop.value - c.start <= f.stop.value - f.start
    ensures var c := Clip(f, s); c.start <= c.stop.value
  {
  }

  // ---------------------------------------------------------------------------
  // Filtering

  /** The four name lists of `filter`; `None` means the list was not given. */
  datatype Filters = Filters(
    projects: Option<seq<string>>,
    tags: Option<seq<string>>,
    ignoreProjects: Option<seq<string>>,
    ignoreTags: Option<seq<string>>)

  predicate SharesTag(tags: seq<string>, wanted: seq<string>) {
    exists t :: t in wanted && t in tags
  }

  /** The project and tag tests of `filter`. */
  predicate PassesNames(f: Frame, q: Filters) {
    && (q.projects.None? || f.project in q.projects.value)
    && (q.ignoreProjects.None? || f.project !in q.ignoreProjects.value)
    && (q.tags.None? || SharesTag(f.tags, q.tags.value))
    && (q.ignoreTags.None? || !SharesTag(f.tags, q.ignoreTags.value))
  }

  /** A frame without a stop that passes the name tests makes `frame in span` or
      `span.overlaps(frame)` compare a missing stop, which raises TypeError, unless
      the comparison is cut short by the start test before it. */
  predicate StopComparisonRaises(f: Frame, q: Filters, span: Option<Span>, partial: bool) {
    && span.Some? && PassesNames(f, q) && f.stop.None?
    && (f.start >= span.value.start || (partial && f.start <= span.value.stop))
  }

  /** Consuming `filter(...)` raises TypeError. */
  predicate FilterRaises(fs: seq<Frame>, q: Filters, span: Option<Span>, partial: bool) {
    exists i :: 0 <= i < |fs| && StopComparisonRaises(fs[i], q, span, partial)
  }

  /** What `filter` yields for one frame, if anything. */
  function Select(f: Frame, q: Filters, span: Option<Span>, partial: bool): Option<Frame> {
    if !PassesNames(f, q) then None
    else if span.None? then Some(f)
    else if f.stop.None? then None
    else if InSpan(span.value, f) then Some(f)
    else if partial && Overlaps(span.value, f) then Some(Clip(f, span.value))
    else None
  }

  /** `Frames.filter(...)`, collected into a sequence. */
  function Filter(fs: seq<Frame>, q: Filters, span: Option<Span>, partial: bool): (r: seq<Frame>)
    ensures |r| <= |fs|
    ensures forall x :: x in r ==> PassesNames(x, q)
    decreases |fs|
  {
    if fs == [] then []
    else
      var first := Select(fs[0], q, span, partial);
      (if first.Some? then [first.value] else []) + Filter(fs[1..], q, span, partial)
  }

  /** Filtering two runs of rows one after the other gives the two results one
      after the other: `filter` keeps the order of the rows. */
  lemma {:induction false} FilterConcat(a: seq<Frame>, b: seq<Frame>, q: Filters, span: Option<Span>, partial: bool)
    ensures Filter(a + b, q, span, partial) == Filter(a, q, span, partial) + Filter(b, q, span, partial)
    decreases |a|
  {
    if a == [] {
      assert a + b == b;
    } else {
      assert (a + b)[0] == a[0];
      assert (a + b)[1..] == a[1..] + b;
      FilterConcat(a[1..], b, q, span, partial);
    }
  }

  /** Every yielded frame comes from some row. */
  lemma {:induction false} FilterFrom(fs: seq<Frame>, q: Filters, span: Option<Span>, partial: bool, x: Frame)
    ensures x in Filter(fs, q, span, partial) <==>
            exists i :: 0 <= i < |fs| && Select(fs[i], q, span, partial) == Some(x)
    decreases |fs|
  {
    if fs != [] {
      FilterFrom(fs[1..], q, span, partial, x);
      if exists i :: 0 <= i < |fs| && Select(fs[i], q, span, partial) == Some(x) {
        var i :| 0 <= i < |fs| && Select(fs[i], q, span, partial) == Some(x);
        if i > 0 {
          assert fs[1..][i - 1] == fs[i];
        }
      }
      if exists i :: 0 <= i < |fs[1..]| && Select(fs[1..][i], q, span, partial) == Some(x) {
        var i :| 0 <= i < |fs[1..]| && Select(fs[1..][i], q, span, partial) == Some(x);
        assert fs[i + 1] == fs[1..][i];
      }
    }
  }

  /** Every yielded frame passes the allow-lists and hits no ignore entry (an
      ignore entry wins over an allow entry), and with a span it lies inside it. */
  lemma FilterSound(fs: seq<Frame>, q: Filters, span: Option<Span>, partial: bool)
    requires span.Some? ==> span.value.start <= span.value.stop
    ensures forall x :: x in Filter(fs, q, span, partial) ==>
      && PassesNames(x, q)
      && (q.ignoreProjects.Some? ==> x.project !in q.ignoreProjects.value)
      && (q.ignoreTags.Some? ==> forall t :: t in q.ignoreTags.value ==> t !in x.tags)
      && (span.Some? ==> x.stop.Some? && span.value.start <= x.start && x.stop.value <= span.value.stop)
  {
    forall x | x in Filter(fs, q, span, partial)
      ensures PassesNames(x, q)
      ensures span.Some? ==> x.stop.Some? && span.value.start <= x.start && x.stop.value <= span.value.stop
    {
      FilterFrom(fs, q, span, partial, x);
      var i :| 0 <= i < |fs| && Select(fs[i], q, span, partial) == Some(x);
    }
  }

  /** Without a span, `filter` yields exactly the rows that pass the name tests,
      unchanged and in order. */
  lemma {:induction false} FilterWithoutSpan(fs: seq<Frame>, q: Filters, partial: bool)
    ensures SubsequenceOf(Filter(fs, q, None, partial), fs)
    ensures forall x :: x in Filter(fs, q, None, partial) <==> x in fs && PassesNames(x, q)
    decreases |fs|
  {
    if fs != [] {
      FilterWithoutSpan(fs[1..], q, partial);
      assert fs == [fs[0]] + fs[1..];
      var rest := Filter(fs[1..], q, None, partial);
      if PassesNames(fs[0], q) {
        assert ([fs[0]] + rest)[1..] == rest;
      } else {
        assert Filter(fs, q, None, partial) == rest;
        SubsequenceOfTail(rest, fs);
      }
    }
  }

  /** With a span: a frame inside it is yielded unchanged, an overlapping one is
      yielded clipped when partial frames are wanted, and any other is dropped. */
  lemma SelectWithSpan(f: Frame, q: Filters, s: Span, partial: bool)
    requires f.stop.Some? && PassesNames(f, q)
    ensures InSpan(s, f) ==> Select(f, q, Some(s), partial) == Some(f)
    ensures !InSpan(s, f) && partial && Overlaps(s, f) ==>
              Select(f, q, Some(s), partial) == Some(Clip(f, s))
    ensures !InSpan(s, f) && !(partial && Overlaps(s, f)) ==>
              Select(f, q, Some(s), partial).None?
  {
  }

  // ---------------------------------------------------------------------------
  // Lookup by column name, index or id prefix

  /** One field of a frame, as a column of `frames[name]` holds it. */
  datatype Field = TimeField(time: Option<int>) | TextField(text: string) | TagsField(tags: seq<string>)

  function FieldOf(f: Frame, column: string): Field
    requires column in Headers
  {
    if column == "start" then TimeField(Some(f.start))
    else if column == "stop" then TimeField(f.stop)
    else if column == "project" then TextField(f.project)
    else if column == "id" then TextField(f.id)
    else if column == "tags" then TagsField(f.tags)
    else TimeField(Some(f.updatedAt))
  }

  /** What `frames[key]` returns for a string key. */
  datatype Item = RowItem(frame: Frame) | ColumnItem(values: seq<Field>)

  /** `_get_index_by_id`: the first row whose id starts with `key`. */
  function FindId(fs: seq<Frame>, key: string): (r: Option<nat>)
    ensures r.Some? ==> r.value < |fs| && StartsWith(fs[r.value].id, key)
    ensures r.Some? ==> forall j :: 0 <= j < r.value ==> !StartsWith(fs[j].id, key)
    ensures r.None? <==> forall j :: 0 <= j < |fs| ==> !StartsWith(fs[j].id, key)
    decreases |fs|
  {
    if fs == [] then None
    else if StartsWith(fs[0].id, key) then Some(0)
    else
      var rest := FindId(fs[1..], key);
      assert forall j :: 1 <= j < |fs| ==> fs[j] == fs[1..][j - 1];
      if rest.None? then None else Some(rest.value + 1)
  }

  /** `frames[key]` with a string key: a column name gives that column of every
      row; any other key gives the first row whose id starts with it, or KeyError. */
  function LookupKey(fs: seq<Frame>, key: string): (r: Result<Item>)
    ensures key in Headers ==> r.Ok? && r.value.ColumnItem? && |r.value.values| == |fs|
    ensures key in Headers ==> forall i :: 0 <= i < |fs| ==> r.value.values[i] == FieldOf(fs[i], key)
    ensures key !in Headers ==> (r.Ok? <==> exists j :: 0 <= j < |fs| && StartsWith(fs[j].id, key))
    ensures key !in Headers && r.Ok? ==> r.value.RowItem? && StartsWith(r.value.frame.id, key)
    ensures key !in Headers && r.Ok? ==>
      exists j :: 0 <= j < |fs| && fs[j] == r.value.frame && forall k :: 0 <= k < j ==> !StartsWith(fs[k].id, key)
    ensures r.Err? ==> r.error == KeyError
  {
    if key in Headers then
      Ok(ColumnItem(seq(|fs|, i requires 0 <= i < |fs| => FieldOf(fs[i], key))))
    else
      var i := FindId(fs, key);
      if i.Some? then Ok(RowItem(fs[i.value])) else Err(KeyError)
  }

  /** Python's list index: negative keys count from the end. */
  function PyIndex(key: int, n: nat): int {
    if key >= 0 then key else n + key
  }

  predicate InRange(key: int, n: nat) {
    -(n as int) <= key < n
  }

  /** A value assigned into the store: a frame, or the positional fields of
      `new_frame` (project, start, stop, tags, id, updated_at). */
  datatype Value =
    | FrameValue(frame: Frame)
    | FieldsValue(project: string, start: int, stop: Option<int>,
                  tags: Option<seq<string>>, id: Option<string>, updatedAt: Option<int>)

  /** `Frames.new_frame`: a fresh id is used only when no (non-empty) id is given. */
  function NewFrame(project: string, start: int, stop: Option<int>, tags: Option<seq<string>>,
                    id: Option<string>, updatedAt: Option<int>, freshId: string, now: int): (f: Frame)
    ensures f.id == if id.None? || id.value == "" then freshId else id.value
  {
    var id' := if id.None? || id.value == "" then freshId else id.value;
    MakeFrame(start, stop, project, id', tags, updatedAt, now)
  }

  function ValueFrame(v: Value, freshId: string, now: int): Frame {
    match v
    case FrameValue(f) => f
    case FieldsValue(p, s, e, t, i, u) => NewFrame(p, s, e, t, i, u, freshId, now)
  }

  /** The rows after `frames[key] = frame` with a string key. */
  function UpsertRows(fs: seq<Frame>, key: string, frame: Frame): (r: seq<Frame>)
    ensures |r| == |fs| + (if FindId(fs, key).Some? then 0 else 1)
    ensures frame.(id := key) in r
    ensures forall j :: 0 <= j < |fs| && Some(j) != FindId(fs, key) ==> r[j] == fs[j]
  {
    var f := frame.(id := key);
    var i := FindId(fs, key);
    if i.Some? then
      assert fs[i.value := f][i.value] == f;
      fs[i.value := f]
    else
      assert (fs + [f])[|fs|] == f;
      fs + [f]
  }

  /** Upserting by key replaces the first matching row in place (its id forced to
      the key) or appends; the length grows by at most one, no other row changes,
      and looking the key up afterwards finds the stored frame. */
  lemma UpsertRowsSpec(fs: seq<Frame>, key: string, frame: Frame)
    ensures var r := UpsertRows(fs, key, frame);
      && (FindId(fs, key).Some? ==> |r| == |fs|)
      && (FindId(fs, key).None? ==> |r| == |fs| + 1 && r[..|fs|] == fs)
      && FindId(r, key).Some? && r[FindId(r, key).value] == frame.(id := key)
      && (forall j :: 0 <= j < |fs| && Some(j) != FindId(fs, key) ==> r[j] == fs[j])
  {
    var r := UpsertRows(fs, key, frame);
    assert StartsWith(key, key);
    var i := FindId(fs, key);
    if i.Some? {
      assert forall j :: 0 <= j < i.value ==> r[j] == fs[j];
      assert r[i.value] == frame.(id := key);
      assert FindId(r, key) == i;
    } else {
      assert forall j :: 0 <= j < |fs| ==> r[j] == fs[j];
      assert r[|fs|] == frame.(id := key);
      assert FindId(r, key) == Some(|fs|);
    }
  }

  /** The rows after deleting row `i`. */
  function RemoveAt(fs: seq<Frame>, i: nat): (r: seq<Frame>)
    requires i < |fs|
    ensures |r| == |fs| - 1
    ensures multiset(r) + multiset{fs[i]} == multiset(fs)
    ensures forall j :: 0 <= j < i ==> r[j] == fs[j]
    ensures forall j :: i < j < |fs| ==> r[j - 1] == fs[j]
  {
    assert fs == fs[..i] + [fs[i]] + fs[i + 1..];
    fs[..i] + fs[i + 1..]
  }

  // ---------------------------------------------------------------------------
  // The store

  /** `Frames`: an ordered list of rows and a `changed` flag that every mutation sets. */
  class FrameStore {
    var rows: seq<Frame>
    var changed: bool

    /** `Frames(rows)` from the content of the frames file. */
    constructor (file: seq<Row>, now: int)
      ensures rows == LoadRows(file, now) && !changed
    {
      rows := LoadRows(file, now);
      changed := false;
    }

    /** `frames[key]` with an integer key; out-of-range keys raise IndexError. */
    function GetAt(key: int): (r: Result<Frame>)
      reads this
      ensures r.Ok? <==> InRange(key, |rows|)
      ensures r.Ok? ==> r.value == rows[PyIndex(key, |rows|)]
      ensures r.Err? ==> r.error == IndexError
    {
      if InRange(key, |rows|) then Ok(rows[PyIndex(key, |rows|)]) else Err(IndexError)
    }

    /** `frames[key]` with a string key. */
    function GetByString(key: string): (r: Result<Item>)
      reads this
      ensures key in Headers ==> r.Ok? && r.value.ColumnItem? && |r.value.values| == |rows|
      ensures key !in Headers ==> (r.Ok? <==> FindId(rows, key).Some?)
      ensures key !in Headers && r.Ok? ==> r == Ok(RowItem(rows[FindId(rows, key).value]))
      ensures r.Err? ==> r.error == KeyError
    {
      LookupKey(rows, key)
    }

    /** `Frames.add`: one new frame at the end; earlier rows are untouched. */
    method Add(project: string, start: int, stop: Option<int>, tags: Option<seq<string>>,
               id: Option<string>, updatedAt: Option<int>, freshId: string, now: int)
      returns (f: Frame)
      modifies this
      ensures f == NewFrame(project, start, stop, tags, id, updatedAt, freshId, now)
      ensures rows == old(rows) + [f]
      ensures changed
    {
      changed := true;
      f := NewFrame(project, start, stop, tags, id, updatedAt, freshId, now);
      rows := rows + [f];
    }

    /** `frames[key] = value` with an integer key. `changed` is set even when the
        index is out of range and IndexError is raised. */
    method SetAt(key: int, value: Value, freshId: string, now: int) returns (o: Outcome)
      modifies this
      ensures changed
      ensures o.Pass? <==> InRange(key, |old(rows)|)
      ensures o.Pass? ==> rows == old(rows)[PyIndex(key, |old(rows)|) := ValueFrame(value, freshId, now)]
      ensures o.Fail? ==> o.error == IndexError && rows == old(rows)
    {
      changed := true;
      var frame := ValueFrame(value, freshId, now);
      if InRange(key, |rows|) {
        rows := rows[PyIndex(key, |rows|) := frame];
        o := Pass;
      } else {
        o := Fail(IndexError);
      }
    }

    /** `frames[key] = value` with a string key: replace the first row whose id
        starts with the key, or append; the stored frame takes the key as its id. */
    method SetById(key: string, value: Value, freshId: string, now: int)
      modifies this
      ensures changed
      ensures rows == UpsertRows(old(rows), key, ValueFrame(value, freshId, now))
    {
      changed := true;
      var frame := ValueFrame(value, freshId, now).(id := key);
      var i := FindId(rows, key);
      if i.Some? {
        rows := rows[i.value := frame];
      } else {
        rows := rows + [frame];
      }
    }

    /** `del frames[key]` with an integer key. */
    method DelAt(key: int) returns (o: Outcome)
      modifies this
      ensures changed
      ensures o.Pass? <==> InRange(key, |old(rows)|)
      ensures o.Pass? ==> rows == RemoveAt(old(rows), PyIndex(key, |old(rows)|))
      ensures o.Fail? ==> o.error == IndexError && rows == old(rows)
    {
      changed := true;
      if InRange(key, |rows|) {
        rows := RemoveAt(rows, PyIndex(key, |rows|));
        o := Pass;
      } else {
        o := Fail(IndexError);
      }
    }

    /** `del frames[key]` with a string key: removes the first row whose id starts
        with the key, or raises KeyError. */
    method DelById(key: string) returns (o: Outcome)
      modifies this
      ensures changed
      ensures o.Pass? <==> FindId(old(rows), key).Some?
      ensures o.Pass? ==> rows == RemoveAt(old(rows), FindId(old(rows), key).value)
      ensures o.Fail? ==> o.error == KeyError && rows == old(rows)
    {
      changed := true;
      var i := FindId(rows, key);
      if i.Some? {
        rows := RemoveAt(rows, i.value);
        o := Pass;
      } else {
        o := Fail(KeyError);
      }
    }

    /** `Frames.dump()`. */
    function Dump(): (d: seq<Row>)
      reads this
      ensures |d| == |rows|
      ensures NoZeroStop(rows) ==> forall now :: LoadRows(d, now) == rows
    {
      forall now ensures NoZeroStop(rows) ==> LoadRows(DumpRows(rows), now) == rows {
        if NoZeroStop(rows) {
          LoadDumpRoundTrip(rows, now);
        }
      }
      DumpRows(rows)
    }
  }
}
