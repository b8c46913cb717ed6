/** The frames-file conversion script: every row of the old layout
    (start, stop, project, id, tags, updated_at) is reordered into the new one and
    back. The direction is chosen from the first row: when its first two fields
    are integers the rows are converted to the new layout, otherwise to the old. */
module ConvFrames {
  import opened Wrappers

  /** A JSON value as the script reads it from the frames file. */
  datatype Json = JNull | JBool(b: bool) | JInt(i: int) | JFloat(text: string) | JStr(s: string) | JList(items: seq<Json>)

  /** Python's `isinstance(v, int)`, which a boolean also passes. */
  predicate IsInt(v: Json) {
    v.JInt? || v.JBool?
  }

  type Row = seq<Json>

  /** The new layout: `[f[3], f[2], f[0], f[1], f[4], f[5]]`. Fields past the
      sixth are dropped. */
  function ToNew(f: Row): (g: Row)
    requires |f| >= 6
    ensures |g| == 6 && g[0] == f[3] && g[1] == f[2] && g[2] == f[0] && g[3] == f[1]
    ensures g[4..] == f[4..6]
  {
    [f[3], f[2], f[0], f[1], f[4], f[5]]
  }

  /** The old layout: `[f[2], f[3], f[1], f[0], f[4], f[5]]`. */
  function ToOld(f: Row): (g: Row)
    requires |f| >= 6
    ensures |g| == 6 && g[0] == f[2] && g[1] == f[3] && g[2] == f[1] && g[3] == f[0]
    ensures g[4..] == f[4..6]
  {
    [f[2], f[3], f[1], f[0], f[4], f[5]]
  }

  /** The two reorderings undo each other on the first six fields. */
  lemma ConversionsInverse(f: Row)
    requires |f| >= 6
    ensures ToOld(ToNew(f)) == f[..6]
    ensures ToNew(ToOld(f)) == f[..6]
  {
  }

  /** The conversion chosen for a whole file. */
  datatype Direction = ToNewFormat | ToOldFormat

  /** `isinstance(frames[0][0], int) and isinstance(frames[0][1], int)`: the
      second field is only read when the first is an integer, and a missing field
      raises IndexError. */
  function DirectionOf(first: Row): (r: Result<Direction>)
    ensures r.Err? <==> |first| == 0 || (|first| == 1 && IsInt(first[0]))
    ensures r.Err? ==> r.error == IndexError
    ensures r.Ok? ==> (r.value == ToNewFormat <==> |first| >= 2 && IsInt(first[0]) && IsInt(first[1]))
  {
    if |first| < 1 then Err(IndexError)
    else if !IsInt(first[0]) then Ok(ToOldFormat)
    else if |first| < 2 then Err(IndexError)
    else if IsInt(first[1]) then Ok(ToNewFormat)
    else Ok(ToOldFormat)
  }

  /** Every row reordered one way; the first row shorter than six fields raises
      IndexError. */
  function ConvertRows(frames: seq<Row>, d: Direction): (r: Result<seq<Row>>)
    ensures r.Err? <==> exists i :: 0 <= i < |frames| && |frames[i]| < 6
    ensures r.Err? ==> r.error == IndexError
    ensures r.Ok? ==> |r.value| == |frames|
    ensures r.Ok? ==> forall i :: 0 <= i < |frames| ==>
      (|frames[i]| >= 6 && r.value[i] == (if d == ToNewFormat then ToNew(frames[i]) else ToOld(frames[i])))
    decreases |frames|
  {
    if frames == [] then Ok([])
    else if |frames[0]| < 6 then Err(IndexError)
    else
      var rest := ConvertRows(frames[1..], d);
      assert forall i :: 1 <= i < |frames| ==> frames[i] == frames[1..][i - 1];
      if rest.Err? then Err(IndexError)
      else Ok([if d == ToNewFormat then ToNew(frames[0]) else ToOld(frames[0])] + rest.value)
  }

  /** The script on the loaded rows: `None` when there are no frames (nothing to
      do), otherwise the direction and the converted rows. */
  function Convert(frames: seq<Row>): (r: Result<Option<(Direction, seq<Row>)>>)
    ensures frames == [] ==> r == Ok(None)
    ensures frames != [] && r.Ok? ==> r.value.Some? && |r.value.value.1| == |frames|
  {
    if frames == [] then Ok(None)
    else
      var d := DirectionOf(frames[0]);
      if d.Err? then Err(d.error)
      else
        var rows := ConvertRows(frames, d.value);
        if rows.Err? then Err(rows.error) else Ok(Some((d.value, rows.value)))
  }

  /** Fields 4 and 5 (tags, updated_at) are carried over unchanged in either
      direction, and the start and stop move between the front and the middle. */
  lemma ConvertKeepsTail(frames: seq<Row>)
    requires Convert(frames).Ok? && frames != []
    ensures var c := Convert(frames).value.value;
      forall i :: 0 <= i < |frames| ==> c.1[i][4] == frames[i][4] && c.1[i][5] == frames[i][5]
    ensures var c := Convert(frames).value.value;
      c.0 == ToNewFormat ==> forall i :: 0 <= i < |frames| ==> c.1[i][2..4] == frames[i][..2]
  {
    var c := Convert(frames).value.value;
    forall i | 0 <= i < |frames| ensures c.1[i][4] == frames[i][4] && c.1[i][5] == frames[i][5] {
      assert |frames[i]| >= 6;
    }
  }

  /** A first row of six or more fields whose converted form is detected as the
      other layout. */
  predicate Reversible(first: Row) {
    |first| >= 6 &&
    if IsInt(first[0]) && IsInt(first[1]) then !(IsInt(first[3]) && IsInt(first[2]))
    else IsInt(first[2]) && IsInt(first[3])
  }

  /** Running the script twice restores six-field rows when the first row's
      layout is recognisable both ways (integers in exactly one of the two
      timestamp positions). */
  lemma ConvertTwice(frames: seq<Row>)
    requires frames != [] && Reversible(frames[0])
    requires forall i :: 0 <= i < |frames| ==> |frames[i]| == 6
    ensures Convert(frames).Ok? && Convert(Convert(frames).value.value.1).Ok?
    ensures Convert(Convert(frames).value.value.1).value.value.1 == frames
    ensures Convert(Convert(frames).value.value.1).value.value.0 != Convert(frames).value.value.0
  {
    var d := DirectionOf(frames[0]).value;
    var once := ConvertRows(frames, d).value;
    var e := if d == ToNewFormat then ToOldFormat else ToNewFormat;
    assert DirectionOf(once[0]) == Ok(e);
    var twice := ConvertRows(once, e);
    assert twice.Ok?;
    forall i | 0 <= i < |frames| ensures twice.value[i] == frames[i] {
      ConversionsInverse(frames[i]);
      assert frames[i][..6] == frames[i];
    }
  }
}
