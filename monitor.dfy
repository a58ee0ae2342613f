/**
 * The scheduler snapshot: the fixed-width parser of `squeue` output, the `line_to_list`
 * splitter, and `SlurmMonitor`, a cache of the last parsed queue gated by a cooldown.
 * The `squeue` run is replaced by its standard output, passed in as a string, and the
 * clock by an integer `now`.
 */
module Monitor {
  import opened Wrappers
  import opened PyStr

  /** The column names looked up in the header, in order. */
  const Columns: seq<string> := ["JOBID", "PARTITION", "NAME", "ST", "NODELIST(REASON)"]

  /** Seconds that must pass between two non-forced refreshes. */
  const CooldownSeconds: int := 120

  /** One row of the queue table: the five columns, as text. */
  datatype Row = Row(jobId: string, partition: string, name: string, state: string, reason: string)

  // ---------------------------------------------------------------------------------
  // The fixed-width parser of `get_squeue_data`
  // ---------------------------------------------------------------------------------

  /** The position of each name in `cols`, each search starting just after the previous hit. */
  function StartsFrom(header: string, cols: seq<string>, start: nat): (r: seq<int>)
    ensures |r| == |cols|
    ensures forall j :: 0 <= j < |r| ==> r[j] == -1 || OccursAt(header, cols[j], r[j])
    decreases |cols|
  {
    if cols == [] then []
    else
      var pos := Find(header, cols[0], start);
      [pos] + StartsFrom(header, cols[1..], pos + 1)
  }

  /** The start of each column found in the header, then the header's length as the last end. */
  function ColumnStarts(header: string): (r: seq<int>)
    ensures |r| == |Columns| + 1 && r[|Columns|] == |header|
  {
    StartsFrom(header, Columns, 0) + [|header|]
  }

  /** Every column name was found in the header. */
  predicate AllColumnsFound(header: string) {
    forall j :: 0 <= j < |Columns| ==> ColumnStarts(header)[j] >= 0
  }

  lemma {:induction false} StartsFromIncrease(header: string, cols: seq<string>, start: nat)
    requires forall j :: 0 <= j < |cols| ==> StartsFrom(header, cols, start)[j] >= 0
    ensures |cols| > 0 ==> StartsFrom(header, cols, start)[0] >= start
    ensures forall j :: 0 <= j < |cols| - 1 ==>
      StartsFrom(header, cols, start)[j] < StartsFrom(header, cols, start)[j + 1]
    decreases |cols|
  {
    if cols != [] {
      var r := StartsFrom(header, cols, start);
      var pos := Find(header, cols[0], start);
      var tail := StartsFrom(header, cols[1..], pos + 1);
      assert r == [pos] + tail;
      forall j | 0 <= j < |cols[1..]| ensures tail[j] >= 0 {
        assert tail[j] == r[j + 1];
      }
      StartsFromIncrease(header, cols[1..], pos + 1);
      forall j | 0 <= j < |cols| - 1 ensures r[j] < r[j + 1] {
        if j > 0 {
          assert r[j] == tail[j - 1] && r[j + 1] == tail[j];
        }
      }
    }
  }

  /** When every name is in the header, the column starts strictly increase up to the header's length. */
  lemma ColumnStartsIncrease(header: string)
    requires AllColumnsFound(header)
    ensures forall j :: 0 <= j < |Columns| ==> ColumnStarts(header)[j] < ColumnStarts(header)[j + 1]
    ensures ColumnStarts(header)[0] >= 0 && ColumnStarts(header)[|Columns|] == |header|
  {
    ColumnNamesNonEmpty();
    StartsUpToLength(header, Columns, ColumnStarts(header));
  }

  /** No column name is empty. */
  lemma ColumnNamesNonEmpty()
    ensures |Columns| == 5 && forall j :: 0 <= j < |Columns| ==> Columns[j] != []
  {
  }

  /** Found names that are not empty start in increasing order, and all before the end of the header. */
  lemma StartsUpToLength(header: string, cols: seq<string>, r: seq<int>)
    requires cols != [] && forall j :: 0 <= j < |cols| ==> cols[j] != []
    requires r == StartsFrom(header, cols, 0) + [|header|]
    requires forall j :: 0 <= j < |cols| ==> r[j] >= 0
    ensures forall j :: 0 <= j < |cols| ==> r[j] < r[j + 1]
    ensures r[0] >= 0
  {
    var found := StartsFrom(header, cols, 0);
    forall j | 0 <= j < |cols| ensures found[j] >= 0 {
      assert found[j] == r[j];
    }
    StartsFromIncrease(header, cols, 0);
    var last := |cols| - 1;
    assert OccursAt(header, cols[last], found[last]);
    forall j | 0 <= j < |cols| ensures r[j] < r[j + 1] {
      if j < last {
        assert r[j] == found[j] && r[j + 1] == found[j + 1];
      }
    }
  }

  /** The five cells of `line` between the column starts, each stripped. */
  function Cells(line: string, starts: seq<int>): (r: seq<string>)
    requires |starts| == |Columns| + 1
    ensures |r| == |Columns|
  {
    seq(|Columns|, i requires 0 <= i < |Columns| => Strip(PySlice(line, starts[i], starts[i + 1])))
  }

  function RowOf(cells: seq<string>): Row
    requires |cells| == |Columns|
  {
    Row(cells[0], cells[1], cells[2], cells[3], cells[4])
  }

  /** Every field of a row has no leading or trailing whitespace. */
  predicate RowStripped(row: Row) {
    IsStripped(row.jobId) && IsStripped(row.partition) && IsStripped(row.name)
    && IsStripped(row.state) && IsStripped(row.reason)
  }

  /** The lines of the stripped output; the first is the header. */
  function OutputLines(stdout: string): (lines: seq<string>)
    ensures |lines| >= 1
  {
    SplitOn(Strip(stdout), '\n')
  }

  /** The table `get_squeue_data` builds from the output of `squeue`. */
  function ParseSqueue(stdout: string): (rows: seq<Row>)
    ensures |rows| == |OutputLines(stdout)| - 1
    ensures forall i :: 0 <= i < |rows| ==> RowStripped(rows[i])
    ensures '\n' !in Strip(stdout) ==> rows == []
  {
    var lines := OutputLines(stdout);
    var starts := ColumnStarts(lines[0]);
    RowsOf(lines[1..], starts)
  }

  /** The column-start loop of `get_squeue_data`, over the names `cols`. */
  method FindStarts(header: string, cols: seq<string>) returns (positions: seq<int>)
    ensures positions == StartsFrom(header, cols, 0)
  {
    positions := [];
    var start: nat := 0;
    for i := 0 to |cols|
      invariant positions + StartsFrom(header, cols[i..], start) == StartsFrom(header, cols, 0)
    {
      var pos := Find(header, cols[i], start);
      StartsFromStep(header, cols, i, start, positions, pos);
      positions := positions + [pos];
      start := pos + 1;
    }
  }

  /** One pass of the column-start loop keeps the positions found and still to find together. */
  lemma StartsFromStep(header: string, cols: seq<string>, i: nat, start: nat, positions: seq<int>, pos: int)
    requires i < |cols| && pos == Find(header, cols[i], start)
    requires positions + StartsFrom(header, cols[i..], start) == StartsFrom(header, cols, 0)
    ensures pos + 1 >= 0
    ensures (positions + [pos]) + StartsFrom(header, cols[i + 1..], pos + 1) == StartsFrom(header, cols, 0)
  {
    assert cols[i..][1..] == cols[i + 1..];
  }

  /** The inner loop of `get_squeue_data`: the stripped cells of one line. */
  method SliceCells(line: string, starts: seq<int>) returns (cells: seq<string>)
    requires |starts| == |Columns| + 1
    ensures cells == Cells(line, starts)
  {
    cells := [];
    for i := 0 to |Columns|
      invariant |cells| == i
      invariant forall k :: 0 <= k < i ==> cells[k] == Strip(PySlice(line, starts[k], starts[k + 1]))
    {
      cells := cells + [Strip(PySlice(line, starts[i], starts[i + 1]))];
    }
  }

  /** The rows cut from `body` at `starts`, one per line. */
  function RowsOf(body: seq<string>, starts: seq<int>): (rows: seq<Row>)
    requires |starts| == |Columns| + 1
    ensures |rows| == |body|
  {
    seq(|body|, i requires 0 <= i < |body| => RowOf(Cells(body[i], starts)))
  }

  /** The outer loop of `get_squeue_data`. */
  method SliceRows(body: seq<string>, starts: seq<int>) returns (rows: seq<Row>)
    requires |starts| == |Columns| + 1
    ensures rows == RowsOf(body, starts)
  {
    rows := [];
    for n := 0 to |body|
      invariant rows == RowsOf(body[..n], starts)
    {
      var cells := SliceCells(body[n], starts);
      RowsOfStep(body, starts, n);
      rows := rows + [RowOf(cells)];
    }
    assert body[..|body|] == body;
  }

  /** The rows of one more line are the rows so far and that line's row. */
  lemma RowsOfStep(body: seq<string>, starts: seq<int>, n: nat)
    requires |starts| == |Columns| + 1 && n < |body|
    ensures RowsOf(body[..n + 1], starts) == RowsOf(body[..n], starts) + [RowOf(Cells(body[n], starts))]
  {
    var next, prev := RowsOf(body[..n + 1], starts), RowsOf(body[..n], starts);
    forall i | 0 <= i < n ensures next[i] == prev[i] {
      assert body[..n + 1][i] == body[..n][i];
    }
  }

  /** `get_squeue_data`, given the standard output of `squeue`. */
  method GetSqueueData(stdout: string) returns (rows: seq<Row>)
    ensures rows == ParseSqueue(stdout)
  {
    var lines := OutputLines(stdout);
    var found := FindStarts(lines[0], Columns);
    var starts := found + [|lines[0]|];
    assert starts == ColumnStarts(lines[0]);
    rows := SliceRows(lines[1..], starts);
  }

  // ---------------------------------------------------------------------------------
  // `line_to_list`
  // ---------------------------------------------------------------------------------

  /**
   * A character of the rewritten line: itself, or the placeholder that stands for an
   * isolated space until the final split is done.
   */
  datatype Piece = Letter(c: char) | Placeholder

  /** The index-out-of-range case: the line ends in a space that has no space before it. */
  predicate LineToListFails(line: string) {
    |line| > 0 && line[|line| - 1] == ' ' && (|line| == 1 || line[|line| - 2] != ' ')
  }

  /** How the loop rewrites `line[i]`: an isolated space becomes the placeholder. */
  function MarkAt(line: string, i: nat): Piece
    requires i < |line|
  {
    if line[i] != ' ' then Letter(line[i])
    else if (i > 0 && line[i - 1] == ' ') || (i + 1 < |line| && line[i + 1] == ' ') then Letter(' ')
    else Placeholder
  }

  function Marked(line: string): (r: seq<Piece>)
    ensures |r| == |line|
  {
    seq(|line|, i requires 0 <= i < |line| => MarkAt(line, i))
  }

  /** `str.split()` separates at whitespace letters; the placeholder is not whitespace. */
  predicate IsBlank(p: Piece) {
    p.Letter? && IsSpace(p.c)
  }

  /** Puts the single spaces back in place of the placeholders. */
  function Unmark(ps: seq<Piece>): (r: string)
    ensures |r| == |ps|
  {
    seq(|ps|, i requires 0 <= i < |ps| => if ps[i].Placeholder? then ' ' else ps[i].c)
  }

  /** The list `line_to_list` returns when it does not raise. */
  function Fields(line: string): seq<string> {
    var words := SplitRuns(Marked(line), IsBlank);
    seq(|words|, i requires 0 <= i < |words| => Unmark(words[i]))
  }

  /** `line_to_list(line)`: `Err` when the look-ahead past the last character raises. */
  method LineToList(line: string) returns (r: Result<seq<string>>)
    ensures r.Err? <==> LineToListFails(line)
    ensures r.Ok? ==> r.value == Fields(line)
  {
    var pieces: seq<Piece> := [];
    var idx := 0;
    while idx < |line|
      invariant 0 <= idx <= |line|
      invariant pieces == Marked(line)[..idx]
      invariant LineToListFails(line) ==> idx < |line|
    {
      var letter := line[idx];
      if letter != ' ' {
        pieces := pieces + [Letter(letter)];
      } else if idx > 0 && line[idx - 1] == ' ' {
        pieces := pieces + [Letter(' ')];
      } else if idx + 1 >= |line| {
        return Err("IndexError: string index out of range");
      } else if line[idx + 1] == ' ' {
        pieces := pieces + [Letter(' ')];
      } else {
        pieces := pieces + [Placeholder];
      }
      idx := idx + 1;
    }
    assert pieces == Marked(line);
    var words := SplitRuns(pieces, IsBlank);
    r := Ok(seq(|words|, i requires 0 <= i < |words| => Unmark(words[i])));
  }

  /**
   * A line whose last field is followed by one space raises: the look-ahead reads past the
   * end, while Fields, which looks ahead only inside the line, keeps that space in the field.
   */
  lemma TrailingSpaceRaises(field: string)
    requires field != [] && field[|field| - 1] != ' '
    ensures LineToListFails(field + " ")
    ensures Marked(field + " ")[|field|] == Placeholder
  {
  }

  /** No element of the result is empty, and none holds two spaces in a row. */
  lemma FieldsShape(line: string)
    ensures forall f :: f in Fields(line) ==> f != [] && forall i :: 0 <= i < |f| - 1 ==> !(f[i] == ' ' && f[i + 1] == ' ')
  {
    var pieces := Marked(line);
    var words := SplitRuns(pieces, IsBlank);
    var isPlaceholder := (p: Piece) => p.Placeholder?;
    assert NoAdjacent(pieces, isPlaceholder) by {
      forall i | 0 <= i < |pieces| - 1 ensures !(pieces[i].Placeholder? && pieces[i + 1].Placeholder?) {
        if pieces[i].Placeholder? {
          assert line[i + 1] != ' ';
        }
      }
    }
    SplitRunsKeepsNoAdjacent(pieces, IsBlank, isPlaceholder);
    forall f | f in Fields(line)
      ensures f != [] && forall i :: 0 <= i < |f| - 1 ==> !(f[i] == ' ' && f[i + 1] == ' ')
    {
      var k :| 0 <= k < |words| && f == Unmark(words[k]);
      var w := words[k];
      assert w in words;
      assert NoAdjacent(w, isPlaceholder);
      forall i | 0 <= i < |f| - 1 ensures !(f[i] == ' ' && f[i + 1] == ' ') {
        assert !IsBlank(w[i]) && !IsBlank(w[i + 1]);
      }
    }
  }

  /** A field as squeue prints it: no other whitespace than isolated single spaces inside it. */
  predicate IsField(f: string) {
    f != [] && f[0] != ' ' && f[|f| - 1] != ' '
    && (forall i :: 0 <= i < |f| ==> IsSpace(f[i]) ==> f[i] == ' ')
    && (forall i :: 0 <= i < |f| - 1 ==> f[i] == ' ' ==> f[i + 1] != ' ')
  }

  /** `n` spaces. */
  function Spaces(n: nat): (r: string)
    ensures |r| == n && forall i :: 0 <= i < n ==> r[i] == ' '
  {
    seq(n, _ => ' ')
  }

  /** The rewrite of `a` does not look at `b` or the other way round. */
  predicate EndsSafely(a: string) {
    a == [] || a[|a| - 1] != ' ' || (|a| >= 2 && a[|a| - 2] == ' ')
  }

  predicate StartsSafely(b: string) {
    b == [] || b[0] != ' ' || (|b| >= 2 && b[1] == ' ')
  }

  lemma MarkedConcat(a: string, b: string)
    requires EndsSafely(a) && StartsSafely(b)
    ensures Marked(a + b) == Marked(a) + Marked(b)
  {
    var s := a + b;
    forall i | 0 <= i < |s| ensures Marked(s)[i] == (Marked(a) + Marked(b))[i] {
      if i < |a| {
        assert s[i] == a[i];
        if i > 0 { assert s[i - 1] == a[i - 1]; }
        if i + 1 < |a| { assert s[i + 1] == a[i + 1]; }
      } else {
        var j := i - |a|;
        assert s[i] == b[j];
        if j > 0 { assert s[i - 1] == b[j - 1]; }
        if j + 1 < |b| { assert s[i + 1] == b[j + 1]; }
      }
    }
  }

  /** A field's isolated spaces all become placeholders, so no piece of it is blank. */
  lemma MarkedField(f: string)
    requires IsField(f)
    ensures forall i :: 0 <= i < |f| ==> !IsBlank(Marked(f)[i])
    ensures Unmark(Marked(f)) == f
  {
  }

  /** A run of two or more spaces becomes blank letters only. */
  lemma MarkedGap(gap: nat)
    requires gap >= 2
    ensures forall i :: 0 <= i < gap ==> IsBlank(Marked(Spaces(gap))[i])
  {
  }

  function MarkedEach(fs: seq<string>): (r: seq<seq<Piece>>)
    ensures |r| == |fs|
  {
    seq(|fs|, i requires 0 <= i < |fs| => Marked(fs[i]))
  }

  lemma {:induction false} MarkedJoin(fs: seq<string>, gap: nat)
    requires gap >= 2 && forall f :: f in fs ==> IsField(f)
    ensures Marked(Join(fs, Spaces(gap))) == Join(MarkedEach(fs), Marked(Spaces(gap)))
    decreases |fs|
  {
    var sep := Spaces(gap);
    if |fs| >= 2 {
      var rest := Join(fs[1..], sep);
      assert fs[0] in fs && fs[1] in fs;
      MarkedJoin(fs[1..], gap);
      assert rest == fs[1] || rest[..|fs[1]|] == fs[1];
      MarkedConcat(sep, rest);
      MarkedConcat(fs[0], sep + rest);
      assert Join(fs, sep) == fs[0] + (sep + rest);
      assert MarkedEach(fs)[1..] == MarkedEach(fs[1..]);
    } else if |fs| == 1 {
      assert MarkedEach(fs) == [Marked(fs[0])];
    }
  }

  /**
   * Fields joined by runs of two or more spaces come back unchanged: runs of two or more
   * spaces separate, isolated spaces stay inside a field, and the line does not raise.
   */
  lemma FieldsRoundTrip(fs: seq<string>, gap: nat)
    requires gap >= 2 && forall f :: f in fs ==> IsField(f)
    ensures !LineToListFails(Join(fs, Spaces(gap)))
    ensures Fields(Join(fs, Spaces(gap))) == fs
  {
    var sep := Spaces(gap);
    var line := Join(fs, sep);
    MarkedJoin(fs, gap);
    MarkedGap(gap);
    var ws := MarkedEach(fs);
    forall w | w in ws ensures w != [] && forall i :: 0 <= i < |w| ==> !IsBlank(w[i]) {
      var k :| 0 <= k < |ws| && w == ws[k];
      assert fs[k] in fs;
      MarkedField(fs[k]);
    }
    SplitJoinRoundTrip(ws, Marked(sep), IsBlank);
    forall k | 0 <= k < |fs| ensures Unmark(ws[k]) == fs[k] {
      assert fs[k] in fs;
      MarkedField(fs[k]);
    }
    JoinEndsWithField(fs, sep);
  }

  lemma {:induction false} JoinEndsWithField(fs: seq<string>, sep: string)
    requires forall f :: f in fs ==> IsField(f)
    ensures Join(fs, sep) == [] || Join(fs, sep)[|Join(fs, sep)| - 1] != ' '
    decreases |fs|
  {
    if |fs| >= 2 {
      assert fs[1..][0] in fs;
      JoinEndsWithField(fs[1..], sep);
      assert fs[1] in fs;
    } else if |fs| == 1 {
      assert fs[0] in fs;
    }
  }

  // ---------------------------------------------------------------------------------
  // `SlurmMonitor`
  // ---------------------------------------------------------------------------------

  /** The number of rows whose NAME is `name`. */
  function CountName(rows: seq<Row>, name: string): (n: nat)
    ensures n <= |rows|
    ensures n == 0 <==> forall i :: 0 <= i < |rows| ==> rows[i].name != name
    decreases |rows|
  {
    if rows == [] then 0 else (if rows[0].name == name then 1 else 0) + CountName(rows[1..], name)
  }

  /** The first row whose NAME is `name`, or `|rows|`. */
  function FirstWithName(rows: seq<Row>, name: string): (k: nat)
    ensures k <= |rows| && forall i :: 0 <= i < k ==> rows[i].name != name
    ensures k < |rows| ==> rows[k].name == name
    decreases |rows|
  {
    if rows == [] || rows[0].name == name then 0 else 1 + FirstWithName(rows[1..], name)
  }

  /** The first row whose JOBID is `id`, or `|rows|`. */
  function FirstWithId(rows: seq<Row>, id: string): (k: nat)
    ensures k <= |rows| && forall i :: 0 <= i < k ==> rows[i].jobId != id
    ensures k < |rows| ==> rows[k].jobId == id
    decreases |rows|
  {
    if rows == [] || rows[0].jobId == id then 0 else 1 + FirstWithId(rows[1..], id)
  }

  /** A name counted once belongs to exactly one row. */
  lemma {:induction false} CountOneUnique(rows: seq<Row>, name: string, i: nat, j: nat)
    requires CountName(rows, name) == 1
    requires i < |rows| && j < |rows| && rows[i].name == name && rows[j].name == name
    ensures i == j
    decreases |rows|
  {
    if rows[0].name == name {
      assert CountName(rows[1..], name) == 0;
      forall k | 1 <= k < |rows| ensures rows[k].name != name {
        assert rows[1..][k - 1] == rows[k];
      }
    } else {
      assert rows[1..][i - 1] == rows[i] && rows[1..][j - 1] == rows[j];
      CountOneUnique(rows[1..], name, i - 1, j - 1);
    }
  }

  /** Two rows with the same name are counted twice. */
  lemma {:induction false} CountTwo(rows: seq<Row>, name: string, i: nat, j: nat)
    requires i < j < |rows| && rows[i].name == name && rows[j].name == name
    ensures CountName(rows, name) >= 2
    decreases |rows|
  {
    if i == 0 {
      assert rows[1..][j - 1] == rows[j];
    } else {
      assert rows[1..][i - 1] == rows[i] && rows[1..][j - 1] == rows[j];
      CountTwo(rows[1..], name, i - 1, j - 1);
    }
  }

  class SlurmMonitor {
    /** When the snapshot was last taken. */
    var lastPeek: int
    /** The last parsed queue, `None` before the first refresh. */
    var latestInfo: Option<seq<Row>>
    const cooldownSeconds: int

    constructor (cooldownSeconds: int := CooldownSeconds)
      ensures this.cooldownSeconds == cooldownSeconds
      ensures lastPeek == 0 && latestInfo == None
    {
      this.cooldownSeconds := cooldownSeconds;
      lastPeek := 0;
      latestInfo := None;
    }

    /**
     * Takes a new snapshot when forced or when more than the cooldown has passed since the
     * last one; `squeueOutput` is what `squeue` prints if it is run.
     */
    method Refresh(now: int, force: bool, squeueOutput: string) returns (refreshed: bool)
      modifies this
      ensures refreshed <==> force || now - old(lastPeek) > cooldownSeconds
      ensures refreshed ==> lastPeek == now && latestInfo == Some(ParseSqueue(squeueOutput))
      ensures !refreshed ==> lastPeek == old(lastPeek) && latestInfo == old(latestInfo)
    {
      if force || now - lastPeek > cooldownSeconds {
        lastPeek := now;
        var rows := GetSqueueData(squeueOutput);
        latestInfo := Some(rows);
        refreshed := true;
      } else {
        refreshed := false;
      }
    }

    /** Row `i` of the snapshot has NAME `name` and JOBID `id`. */
    predicate HasRow(i: int, name: string, id: string)
      reads this
      requires latestInfo.Some?
    {
      0 <= i < |latestInfo.value| && latestInfo.value[i].name == name && latestInfo.value[i].jobId == id
    }

    /** `row` is row `i` of the snapshot, and no earlier row has its JOBID. */
    predicate IsFirstWithId(i: int, row: Row)
      reads this
      requires latestInfo.Some?
    {
      0 <= i < |latestInfo.value| && latestInfo.value[i] == row
      && forall j :: 0 <= j < i ==> latestInfo.value[j].jobId != row.jobId
    }

    /** The NAME column, in table order. */
    function GetAllJobNames(): (names: seq<string>)
      reads this
      requires latestInfo.Some?
      ensures |names| == |latestInfo.value|
      ensures forall i :: 0 <= i < |names| ==> names[i] == latestInfo.value[i].name
    {
      var rows := latestInfo.value;
      seq(|rows|, i requires 0 <= i < |rows| => rows[i].name)
    }

    /** The JOBID column, in table order. */
    function GetAllJobIds(): (ids: seq<string>)
      reads this
      requires latestInfo.Some?
      ensures |ids| == |latestInfo.value|
      ensures forall i :: 0 <= i < |ids| ==> ids[i] == latestInfo.value[i].jobId
    {
      var rows := latestInfo.value;
      seq(|rows|, i requires 0 <= i < |rows| => rows[i].jobId)
    }

    /** The JOBID of the one row named `name`; `None` when no row or several rows have that name. */
    function JobNameToId(name: string): (r: Option<string>)
      reads this
      requires latestInfo.Some?
      ensures r.Some? <==> CountName(latestInfo.value, name) == 1
      ensures r.Some? ==> exists i :: HasRow(i, name, r.value)
    {
      var rows := latestInfo.value;
      if CountName(rows, name) == 1 then
        var k := FirstWithName(rows, name);
        assert HasRow(k, name, rows[k].jobId);
        Some(rows[k].jobId)
      else None
    }

    /** The row for `key` (a JOBID, or a NAME when `byJobName`); a JOBID no row has raises. */
    function GetJobInfo(key: string, byJobName: bool): (r: Result<Option<Row>>)
      reads this
      requires latestInfo.Some?
      ensures r == Ok(None) <==> byJobName && JobNameToId(key).None?
      ensures !byJobName ==>
        (r.Err? <==> forall i :: 0 <= i < |latestInfo.value| ==> latestInfo.value[i].jobId != key)
      ensures byJobName && JobNameToId(key).Some? ==> (r.Err? <==>
        forall i :: 0 <= i < |latestInfo.value| ==> latestInfo.value[i].jobId != JobNameToId(key).value)
      ensures r.Ok? && r.value.Some? ==>
        r.value.value.jobId == (if byJobName then JobNameToId(key).value else key)
        && exists i :: IsFirstWithId(i, r.value.value)
    {
      var rows := latestInfo.value;
      var resolved := if byJobName then JobNameToId(key) else Some(key);
      if resolved.None? then Ok(None)
      else
        var k := FirstWithId(rows, resolved.value);
        if k == |rows| then Err("IndexError: no row with this JOBID")
        else
          assert IsFirstWithId(k, rows[k]);
          Ok(Some(rows[k]))
    }
  }

  /** A name held by exactly one row resolves to that row's JOBID; a repeated name resolves to nothing. */
  lemma JobNameToIdExact(m: SlurmMonitor, name: string, i: nat)
    requires m.latestInfo.Some? && i < |m.latestInfo.value| && m.latestInfo.value[i].name == name
    ensures m.JobNameToId(name).Some? <==> forall j :: 0 <= j < |m.latestInfo.value| && j != i ==> m.latestInfo.value[j].name != name
    ensures m.JobNameToId(name).Some? ==> m.JobNameToId(name).value == m.latestInfo.value[i].jobId
  {
    var rows := m.latestInfo.value;
    if forall j :: 0 <= j < |rows| && j != i ==> rows[j].name != name {
      CountOnlyOne(rows, name, i);
    }
    if CountName(rows, name) == 1 {
      var k := FirstWithName(rows, name);
      CountOneUnique(rows, name, i, k);
      forall j | 0 <= j < |rows| && j != i ensures rows[j].name != name {
        if rows[j].name == name { CountOneUnique(rows, name, i, j); }
      }
    }
  }

  /** A name held only by row `i` is counted once. */
  lemma {:induction false} CountOnlyOne(rows: seq<Row>, name: string, i: nat)
    requires i < |rows| && rows[i].name == name
    requires forall j :: 0 <= j < |rows| && j != i ==> rows[j].name != name
    ensures CountName(rows, name) == 1
    decreases |rows|
  {
    if i == 0 {
      assert forall j :: 0 <= j < |rows[1..]| ==> rows[1..][j] == rows[j + 1];
    } else {
      assert rows[0].name != name;
      assert forall j :: 0 <= j < |rows[1..]| ==> rows[1..][j] == rows[j + 1];
      CountOnlyOne(rows[1..], name, i - 1);
    }
  }
}
