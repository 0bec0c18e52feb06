/** The `Weather` class of epw/weather.py: an EnergyPlus weather file is a
    block of header lines (a keyword and its values) followed by the hourly
    climate records. The file is given as the records a CSV reader yields,
    one per line; a blank line is the empty record. The header block becomes
    a dictionary from the first field of a line to the rest of it, the
    climate records a table of 35 named columns. */
module EpwWeather {
  import opened Wrappers

  type Row = seq<string>
  type File = seq<Row>

  /** One entry of the headers dictionary. The dictionary is kept as a
      sequence in insertion order, as Python's `dict` iterates. */
  datatype Header = Header(key: string, values: seq<string>)

  /** A cell of the climate table; `None` is the missing value (NaN). */
  type Cell = Option<string>

  datatype DataFrame = DataFrame(columns: seq<string>, rows: seq<seq<Cell>>)

  /** Why reading stops: a file without lines (the row index is never
      bound), a blank line met while scanning for the first climate record
      (the first field of an empty record does not exist), or a climate
      record with more fields than there are columns. */
  datatype ReadError = EmptyFile | EmptyRow(line: nat) | TooManyFields

  /** `write` with no climate table: the headers are written, then the
      attribute lookup on the missing table fails. */
  datatype WriteError = NoData

  const ColumnCount: nat := 35

  /** The column names of the climate table, in file order. */
  const ColumnNames: seq<string> := [
    "Year", "Month", "Day", "Hour", "Minute",
    "Data Source and Uncertainty Flags",
    "Dry Bulb Temperature", "Dew Point Temperature", "Relative Humidity",
    "Atmospheric Station Pressure",
    "Extraterrestrial Horizontal Radiation",
    "Extraterrestrial Direct Normal Radiation",
    "Horizontal Infrared Radiation Intensity",
    "Global Horizontal Radiation", "Direct Normal Radiation",
    "Diffuse Horizontal Radiation", "Global Horizontal Illuminance",
    "Direct Normal Illuminance", "Diffuse Horizontal Illuminance",
    "Zenith Luminance", "Wind Direction", "Wind Speed", "Total Sky Cover",
    "Opaque Sky Cover (used if Horizontal IR Intensity missing)",
    "Visibility", "Ceiling Height", "Present Weather Observation",
    "Present Weather Codes", "Precipitable Water", "Aerosol Optical Depth",
    "Snow Depth", "Days Since Last Snowfall", "Albedo",
    "Liquid Precipitation Depth", "Liquid Precipitation Quantity"]

  /** The strings the table reader takes for a missing value. */
  const NaValues: set<string> := {
    "", "#N/A", "#N/A N/A", "#NA", "-1.#IND", "-1.#QNAN", "-NaN", "-nan",
    "1.#IND", "1.#QNAN", "<NA>", "N/A", "NA", "NULL", "NaN", "None", "n/a",
    "nan", "null"}

  /** `str.isdigit()` on ASCII text: non-empty and all decimal digits. */
  predicate IsDigits(s: string)
  {
    s != [] && forall q :: 0 <= q < |s| ==> '0' <= s[q] <= '9'
  }

  /** A line that ends the header scan: blank, or a climate record. */
  predicate StopsScan(row: Row)
  {
    row == [] || IsDigits(row[0])
  }

  /** A climate record: its first field is a number. */
  predicate IsDataRow(row: Row)
  {
    row != [] && IsDigits(row[0])
  }

  /** Index of the first line at or after `from` that ends the header scan,
      or `|file|` when there is none. */
  function ScanEnd(file: File, from: nat): (e: nat)
    requires from <= |file|
    ensures from <= e <= |file|
    ensures e < |file| ==> StopsScan(file[e])
    ensures forall j :: from <= j < e ==> !StopsScan(file[j])
    decreases |file| - from
  {
    if from == |file| || StopsScan(file[from]) then from else ScanEnd(file, from + 1)
  }

  /** The scan ends at the first line that stops it. */
  lemma ScanEndAt(file: File, i: nat)
    requires i <= |file| && forall j :: 0 <= j < i ==> !StopsScan(file[j])
    requires i == |file| || StopsScan(file[i])
    ensures ScanEnd(file, 0) == i
  {
  }

  // ---------------------------------------------------------------------
  // The headers dictionary

  predicate HasKey(hs: seq<Header>, k: string)
  {
    exists i :: 0 <= i < |hs| && hs[i].key == k
  }

  predicate DistinctKeys(hs: seq<Header>)
  {
    forall i, j :: 0 <= i < j < |hs| ==> hs[i].key != hs[j].key
  }

  /** Past a first entry with another key, the key is present exactly when
      it is present in the rest. */
  lemma HasKeyTail(hs: seq<Header>, k: string)
    requires hs != [] && hs[0].key != k
    ensures HasKey(hs, k) <==> HasKey(hs[1..], k)
  {
    if HasKey(hs, k) {
      var i :| 0 <= i < |hs| && hs[i].key == k;
      assert hs[1..][i - 1].key == k;
    }
    if HasKey(hs[1..], k) {
      var i :| 0 <= i < |hs[1..]| && hs[1..][i].key == k;
      assert hs[i + 1].key == k;
    }
  }

  /** `d[k]`, `None` for a missing key. */
  function Lookup(hs: seq<Header>, k: string): (r: Option<seq<string>>)
    ensures r.Some? <==> HasKey(hs, k)
  {
    if hs == [] then None
    else if hs[0].key == k then Some(hs[0].values)
    else
      HasKeyTail(hs, k);
      Lookup(hs[1..], k)
  }

  /** `d[k] = v`: a key already present keeps its place, a new one goes
      last (what it maps to is `PutLookup`). */
  function Put(hs: seq<Header>, k: string, v: seq<string>): (r: seq<Header>)
    ensures HasKey(hs, k) ==> |r| == |hs| && forall i :: 0 <= i < |hs| ==> r[i].key == hs[i].key
    ensures !HasKey(hs, k) ==> r == hs + [Header(k, v)]
  {
    if hs == [] then [Header(k, v)]
    else if hs[0].key == k then [Header(k, v)] + hs[1..]
    else
      var t := Put(hs[1..], k, v);
      HasKeyTail(hs, k);
      assert !HasKey(hs, k) ==> [hs[0]] + (hs[1..] + [Header(k, v)]) == hs + [Header(k, v)];
      [hs[0]] + t
  }

  /** After `d[k] = v`, `k` maps to `v` and every other key to what it
      mapped to before. */
  lemma {:induction false} PutLookup(hs: seq<Header>, k: string, v: seq<string>, q: string)
    ensures Lookup(Put(hs, k, v), q) == if q == k then Some(v) else Lookup(hs, q)
    decreases |hs|
  {
    if hs != [] && hs[0].key != k {
      PutLookup(hs[1..], k, v, q);
      var r := Put(hs, k, v);
      assert r[1..] == Put(hs[1..], k, v);
    }
  }

  /** `Put` keeps the keys distinct. */
  lemma PutDistinct(hs: seq<Header>, k: string, v: seq<string>)
    requires DistinctKeys(hs)
    ensures DistinctKeys(Put(hs, k, v))
  {
    var r := Put(hs, k, v);
    if !HasKey(hs, k) {
      forall i, j | 0 <= i < j < |r| ensures r[i].key != r[j].key {
        if j == |hs| {
          assert r[i] == hs[i];
        }
      }
    }
  }

  /** The dictionary the header scan builds from its lines, in order. */
  function Collect(rows: File): seq<Header>
    requires forall j :: 0 <= j < |rows| ==> rows[j] != []
    decreases |rows|
  {
    if rows == [] then []
    else
      var n := |rows| - 1;
      Put(Collect(rows[..n]), rows[n][0], rows[n][1..])
  }

  /** One more line: the dictionary of a prefix, updated by that line. */
  lemma CollectStep(rows: File, i: nat)
    requires i < |rows| && forall j :: 0 <= j <= i ==> rows[j] != []
    ensures Collect(rows[..i + 1]) == Put(Collect(rows[..i]), rows[i][0], rows[i][1..])
  {
    assert rows[..i + 1][..i] == rows[..i];
  }

  /** The dictionary has at most one entry per line. */
  lemma {:induction false} CollectSize(rows: File)
    requires forall j :: 0 <= j < |rows| ==> rows[j] != []
    ensures |Collect(rows)| <= |rows|
    decreases |rows|
  {
    if rows != [] {
      var n := |rows| - 1;
      CollectSize(rows[..n]);
    }
  }

  /** A key no line starts with is absent from the dictionary. */
  lemma {:induction false} CollectAbsent(rows: File, k: string)
    requires forall j :: 0 <= j < |rows| ==> rows[j] != []
    requires forall j :: 0 <= j < |rows| ==> rows[j][0] != k
    ensures Lookup(Collect(rows), k) == None
    decreases |rows|
  {
    if rows != [] {
      var n := |rows| - 1;
      CollectAbsent(rows[..n], k);
      PutLookup(Collect(rows[..n]), rows[n][0], rows[n][1..], k);
    }
  }

  /** Looking a key up in the dictionary of all the lines: the last line
      when it starts with the key, otherwise the dictionary of the others. */
  lemma CollectLookupStep(rows: File, prev: File, q: string)
    requires rows != [] && forall i :: 0 <= i < |rows| ==> rows[i] != []
    requires prev == rows[..|rows| - 1]
    ensures forall i :: 0 <= i < |prev| ==> prev[i] != []
    ensures Lookup(Collect(rows), q) ==
              if q == rows[|rows| - 1][0] then Some(rows[|rows| - 1][1..]) else Lookup(Collect(prev), q)
  {
    PutLookup(Collect(prev), rows[|rows| - 1][0], rows[|rows| - 1][1..], q);
  }

  /** A key maps to the values of the LAST line that starts with it. */
  lemma {:induction false} CollectLast(rows: File, j: nat)
    requires forall i :: 0 <= i < |rows| ==> rows[i] != []
    requires j < |rows|
    requires forall i :: j < i < |rows| ==> rows[i][0] != rows[j][0]
    ensures Lookup(Collect(rows), rows[j][0]) == Some(rows[j][1..])
    decreases |rows|
  {
    var n := |rows| - 1;
    var prev := rows[..n];
    CollectLookupStep(rows, prev, rows[j][0]);
    if j < n {
      assert prev[j] == rows[j];
      assert forall i :: j < i < |prev| ==> prev[i][0] != prev[j][0];
      CollectLast(prev, j);
    }
  }

  /** The dictionary never holds a key twice. */
  lemma {:induction false} CollectDistinct(rows: File)
    requires forall j :: 0 <= j < |rows| ==> rows[j] != []
    ensures DistinctKeys(Collect(rows))
    decreases |rows|
  {
    if rows != [] {
      var n := |rows| - 1;
      CollectDistinct(rows[..n]);
      PutDistinct(Collect(rows[..n]), rows[n][0], rows[n][1..]);
    }
  }

  // ---------------------------------------------------------------------
  // Reading

  /** `_read_metadata`: the dictionary of the lines before the first
      climate record; a blank line before it is an error. */
  function Metadata(file: File): Result<seq<Header>, ReadError>
  {
    var e := ScanEnd(file, 0);
    if e < |file| && file[e] == [] then Failure(EmptyRow(e))
    else Success(Collect(file[..e]))
  }

  /** The headers dictionary when the scan stops at line `i`. */
  lemma MetadataAt(file: File, i: nat)
    requires i <= |file| && forall j :: 0 <= j < i ==> !StopsScan(file[j])
    requires i == |file| || StopsScan(file[i])
    ensures forall j :: 0 <= j < |file[..i]| ==> file[..i][j] != []
    ensures i < |file| && file[i] == [] ==> Metadata(file) == Failure(EmptyRow(i))
    ensures !(i < |file| && file[i] == []) ==> Metadata(file) == Success(Collect(file[..i]))
  {
    ScanEndAt(file, i);
  }

  /** `_first_row_with_climate_data`: the index of the first climate record,
      or of the last line when there is none. */
  function FirstClimateRow(file: File): Result<nat, ReadError>
  {
    if file == [] then Failure(EmptyFile)
    else
      var e := ScanEnd(file, 0);
      if e < |file| && file[e] == [] then Failure(EmptyRow(e))
      else if e < |file| then Success(e)
      else Success(|file| - 1)
  }

  /** How the table reader reads one field. */
  function ReadCell(s: string): Cell
  {
    if s in NaValues then None else Some(s)
  }

  /** One record as a table row: short records are padded with missing
      values. */
  function ParseRow(row: Row): (cells: seq<Cell>)
    requires |row| <= ColumnCount
    ensures |cells| == ColumnCount
  {
    seq(ColumnCount, q requires 0 <= q < ColumnCount => if q < |row| then ReadCell(row[q]) else None)
  }

  /** The rows of the table read from the given lines: blank lines are
      skipped, a record wider than the table is an error. */
  function FrameRows(rows: File): Result<seq<seq<Cell>>, ReadError>
    decreases |rows|
  {
    if rows == [] then Success([])
    else if rows[0] == [] then FrameRows(rows[1..])
    else if |rows[0]| > ColumnCount then Failure(TooManyFields)
    else
      var rest := FrameRows(rows[1..]);
      if rest.Failure? then rest else Success([ParseRow(rows[0])] + rest.value)
  }

  /** `_read_data`: the table of the lines from the first climate record
      on, under the 35 column names. */
  function FrameOf(file: File): Result<DataFrame, ReadError>
  {
    var first := FirstClimateRow(file);
    if first.Failure? then Failure(first.error)
    else
      assert first.value < |file|;
      var rows := FrameRows(file[first.value..]);
      if rows.Failure? then Failure(rows.error)
      else Success(DataFrame(ColumnNames, rows.value))
  }

  // ---------------------------------------------------------------------
  // Writing

  function HeaderLine(h: Header): Row
  {
    [h.key] + h.values
  }

  /** How the CSV writer writes one cell: a missing value as `nan`. */
  function WriteCell(c: Cell): string
  {
    match c
    case None => "nan"
    case Some(s) => s
  }

  function WriteRow(cells: seq<Cell>): Row
  {
    seq(|cells|, q requires 0 <= q < |cells| => WriteCell(cells[q]))
  }

  /** A line per header, in dictionary order. */
  function HeaderLines(hs: seq<Header>): File
  {
    seq(|hs|, i requires 0 <= i < |hs| => HeaderLine(hs[i]))
  }

  /** A line per table row. */
  function DataLines(cells: seq<seq<Cell>>): File
  {
    seq(|cells|, i requires 0 <= i < |cells| => WriteRow(cells[i]))
  }

  /** What `write` puts in the file: the header lines, then the table's
      lines when there is a table. */
  function Serialized(hs: seq<Header>, df: Option<DataFrame>): (file: File)
  {
    HeaderLines(hs) + if df.Some? then DataLines(df.value.rows) else []
  }

  // ---------------------------------------------------------------------
  // Properties

  /** When the file has a climate record, the headers are exactly the lines
      before the first one and the table starts there. */
  lemma DataFollowsHeaders(file: File, d: nat)
    requires d < |file| && IsDataRow(file[d])
    requires Metadata(file).Success?
    ensures var i := FirstClimateRow(file).value;
            && FirstClimateRow(file).Success?
            && i <= d && IsDataRow(file[i])
            && |Metadata(file).value| <= i
            && (forall j :: 0 <= j < i ==> !IsDataRow(file[j]) && file[j] != [])
            && forall k :: HasKey(Metadata(file).value, k) <==> exists j :: 0 <= j < i && file[j][0] == k
  {
    var e := ScanEnd(file, 0);
    assert e <= d;
    var hs := Metadata(file).value;
    var rows := file[..e];
    assert hs == Collect(rows);
    CollectSize(rows);
    forall k ensures HasKey(hs, k) <==> exists j :: 0 <= j < e && file[j][0] == k {
      if exists j :: 0 <= j < e && file[j][0] == k {
        var j :| 0 <= j < e && file[j][0] == k;
        var last := LastWith(rows, j);
        CollectLast(rows, last);
      } else {
        assert forall j :: 0 <= j < |rows| ==> rows[j][0] != k;
        CollectAbsent(rows, k);
      }
    }
  }

  /** The last line whose first field equals that of line `j`. */
  function LastWith(rows: File, j: nat): (l: nat)
    requires forall i :: 0 <= i < |rows| ==> rows[i] != []
    requires j < |rows|
    ensures j <= l < |rows| && rows[l][0] == rows[j][0]
    ensures forall i :: l < i < |rows| ==> rows[i][0] != rows[j][0]
    decreases |rows| - j
  {
    if forall i :: j < i < |rows| ==> rows[i][0] != rows[j][0] then j
    else
      var i :| j < i < |rows| && rows[i][0] == rows[j][0];
      LastWith(rows, i)
  }

  /** When no line is a climate record, the last line is read twice: its
      first field is a header key holding the rest of it, and the table
      starts with it. */
  lemma LastHeaderReadAsData(file: File)
    requires file != [] && forall j :: 0 <= j < |file| ==> !IsDataRow(file[j])
    requires Metadata(file).Success?
    ensures FirstClimateRow(file) == Success(|file| - 1)
    ensures Lookup(Metadata(file).value, file[|file| - 1][0]) == Some(file[|file| - 1][1..])
  {
    var e := ScanEnd(file, 0);
    assert e == |file|;
    assert file[..e] == file;
    CollectLast(file, |file| - 1);
  }

  /** Reading a written cell gives it back when it is not one of the
      missing-value strings. */
  lemma ReadWrittenCell(c: Cell)
    requires c.Some? ==> c.value !in NaValues
    ensures ReadCell(WriteCell(c)) == c
  {
  }

  /** A table `write` can reproduce: 35 columns, every row full, no cell
      text that reads as missing, and a first row that starts with a
      number so the reader finds it. */
  predicate WritableFrame(df: DataFrame)
  {
    && df.columns == ColumnNames
    && df.rows != []
    && (forall i :: 0 <= i < |df.rows| ==> |df.rows[i]| == ColumnCount)
    && (forall i, q :: 0 <= i < |df.rows| && 0 <= q < |df.rows[i]| && df.rows[i][q].Some? ==> df.rows[i][q].value !in NaValues)
    && df.rows[0][0].Some? && IsDigits(df.rows[0][0].value)
  }

  /** Headers `write` can reproduce: distinct keys, none a number. */
  predicate WritableHeaders(hs: seq<Header>)
  {
    DistinctKeys(hs) && forall i :: 0 <= i < |hs| ==> !IsDigits(hs[i].key)
  }

  /** The header lines read back as the dictionary they came from. */
  lemma {:induction false} CollectHeaderLines(hs: seq<Header>)
    requires DistinctKeys(hs)
    ensures Collect(HeaderLines(hs)) == hs
    decreases |hs|
  {
    if hs != [] {
      var n := |hs| - 1;
      var rows := HeaderLines(hs);
      var prev := HeaderLines(hs[..n]);
      HeaderLinesInit(hs, prev);
      CollectUnfold(rows, prev);
      CollectHeaderLines(hs[..n]);
      LastKeyNew(hs);
      assert hs[..n] + [Header(hs[n].key, hs[n].values)] == hs;
    }
  }

  /** The header lines of all but the last header, then that header's line. */
  lemma HeaderLinesInit(hs: seq<Header>, prev: File)
    requires hs != [] && prev == HeaderLines(hs[..|hs| - 1])
    ensures var rows := HeaderLines(hs);
            && (forall i :: 0 <= i < |rows| ==> rows[i] != [])
            && rows[..|hs| - 1] == prev
            && rows[|hs| - 1][0] == hs[|hs| - 1].key && rows[|hs| - 1][1..] == hs[|hs| - 1].values
  {
    var rows := HeaderLines(hs);
    assert rows[..|hs| - 1] == prev;
  }

  /** The dictionary of all the lines: that of all but the last, updated by
      the last. */
  lemma CollectUnfold(rows: File, prev: File)
    requires rows != [] && forall i :: 0 <= i < |rows| ==> rows[i] != []
    requires prev == rows[..|rows| - 1]
    ensures forall i :: 0 <= i < |prev| ==> prev[i] != []
    ensures Collect(rows) == Put(Collect(prev), rows[|rows| - 1][0], rows[|rows| - 1][1..])
  {
  }

  /** With distinct keys, the last key is not among the earlier ones. */
  lemma LastKeyNew(hs: seq<Header>)
    requires hs != [] && DistinctKeys(hs)
    ensures !HasKey(hs[..|hs| - 1], hs[|hs| - 1].key)
  {
    var n := |hs| - 1;
    forall i | 0 <= i < n ensures hs[..n][i].key != hs[n].key {
      assert hs[..n][i] == hs[i];
    }
  }

  /** The table rows read back as the rows they came from. */
  lemma {:induction false} FrameRowsWritten(cells: seq<seq<Cell>>)
    requires forall i :: 0 <= i < |cells| ==> |cells[i]| == ColumnCount
    requires forall i, q :: 0 <= i < |cells| && 0 <= q < |cells[i]| && cells[i][q].Some? ==> cells[i][q].value !in NaValues
    ensures FrameRows(DataLines(cells)) == Success(cells)
    decreases |cells|
  {
    var rows := DataLines(cells);
    if cells != [] {
      assert rows[1..] == DataLines(cells[1..]);
      FrameRowsWritten(cells[1..]);
      assert rows[0] != [];
      forall q | 0 <= q < ColumnCount ensures ParseRow(rows[0])[q] == cells[0][q] {
        ReadWrittenCell(cells[0][q]);
      }
      assert ParseRow(rows[0]) == cells[0];
      assert [cells[0]] + cells[1..] == cells;
    }
  }

  /** In a written file the header scan stops at the first table row. */
  lemma ScanEndOfWritten(hs: seq<Header>, df: DataFrame)
    requires WritableHeaders(hs) && WritableFrame(df)
    ensures |hs| < |Serialized(hs, Some(df))|
    ensures ScanEnd(Serialized(hs, Some(df)), 0) == |hs|
    ensures IsDataRow(Serialized(hs, Some(df))[|hs|])
    ensures Serialized(hs, Some(df))[..|hs|] == HeaderLines(hs)
    ensures Serialized(hs, Some(df))[|hs|..] == DataLines(df.rows)
  {
    var file := Serialized(hs, Some(df));
    forall j | 0 <= j < |hs| ensures !StopsScan(file[j]) {
      assert file[j] == HeaderLine(hs[j]);
    }
    assert file[|hs|] == WriteRow(df.rows[0]);
    assert StopsScan(file[|hs|]);
  }

  /** Writing headers and a table and reading the headers back gives the
      headers. */
  lemma WriteReadHeaders(hs: seq<Header>, df: DataFrame)
    requires WritableHeaders(hs) && WritableFrame(df)
    ensures Metadata(Serialized(hs, Some(df))) == Success(hs)
  {
    var file := Serialized(hs, Some(df));
    ScanEndOfWritten(hs, df);
    CollectHeaderLines(hs);
  }

  /** Writing headers and a table and reading the table back gives the
      table. */
  lemma WriteReadFrame(hs: seq<Header>, df: DataFrame)
    requires WritableHeaders(hs) && WritableFrame(df)
    ensures FrameOf(Serialized(hs, Some(df))) == Success(df)
  {
    var file := Serialized(hs, Some(df));
    ScanEndOfWritten(hs, df);
    assert FirstClimateRow(file) == Success(|hs|);
    FrameRowsWritten(df.rows);
    assert DataFrame(ColumnNames, df.rows) == df;
  }

  // ---------------------------------------------------------------------
  // The class

  class Weather {
    var headers: seq<Header>
    var dataframe: Option<DataFrame>

    /** No headers and no table. */
    constructor ()
      ensures headers == [] && dataframe == None
    {
      headers := [];
      dataframe := None;
    }

    /** `read`: the headers are replaced first, then the table; an error
        leaves what was not yet replaced as it was. */
    method Read(file: File) returns (r: Result<(), ReadError>)
      modifies this
      ensures Metadata(file).Failure? ==>
                r == Failure(Metadata(file).error) && headers == old(headers) && dataframe == old(dataframe)
      ensures Metadata(file).Success? ==> headers == Metadata(file).value
      ensures Metadata(file).Success? && FrameOf(file).Failure? ==>
                r == Failure(FrameOf(file).error) && dataframe == old(dataframe)
      ensures Metadata(file).Success? && FrameOf(file).Success? ==>
                r == Success(()) && dataframe == Some(FrameOf(file).value)
    {
      var m := ReadMetadata(file);
      if m.Failure? {
        return Failure(m.error);
      }
      headers := m.value;
      var d := ReadData(file);
      if d.Failure? {
        return Failure(d.error);
      }
      dataframe := Some(d.value);
      return Success(());
    }

    /** `_read_metadata`, line by line: a later line with the same first
        field overwrites the values of an earlier one. */
    method ReadMetadata(file: File) returns (r: Result<seq<Header>, ReadError>)
      ensures r == Metadata(file)
      ensures r.Success? ==> DistinctKeys(r.value)
    {
      var d: seq<Header> := [];
      var i := 0;
      while i < |file|
        invariant 0 <= i <= |file|
        invariant forall j :: 0 <= j < i ==> !StopsScan(file[j])
        invariant d == Collect(file[..i])
      {
        var row := file[i];
        if row == [] {
          MetadataAt(file, i);
          return Failure(EmptyRow(i));
        }
        if IsDigits(row[0]) {
          break;
        }
        CollectStep(file, i);
        d := Put(d, row[0], row[1..]);
        i := i + 1;
      }
      MetadataAt(file, i);
      CollectDistinct(file[..i]);
      return Success(d);
    }

    /** `_first_row_with_climate_data`: the scan stops at the first climate
        record or at the last line. */
    method FirstRowWithClimateData(file: File) returns (r: Result<nat, ReadError>)
      ensures r == FirstClimateRow(file)
      ensures r.Success? ==> r.value < |file|
    {
      if file == [] {
        return Failure(EmptyFile);
      }
      var i := 0;
      while true
        invariant 0 <= i < |file|
        invariant forall j :: 0 <= j < i ==> !StopsScan(file[j])
        decreases |file| - i
      {
        if file[i] == [] {
          ScanEndAt(file, i);
          return Failure(EmptyRow(i));
        }
        if IsDigits(file[i][0]) || i == |file| - 1 {
          break;
        }
        i := i + 1;
      }
      return Success(i);
    }

    /** `_read_data`: the table from the first climate record on. */
    method ReadData(file: File) returns (r: Result<DataFrame, ReadError>)
      ensures r == FrameOf(file)
      ensures r.Success? ==> r.value.columns == ColumnNames
                             && forall i :: 0 <= i < |r.value.rows| ==> |r.value.rows[i]| == ColumnCount
    {
      var first := FirstRowWithClimateData(file);
      if first.Failure? {
        return Failure(first.error);
      }
      var rows := FrameRows(file[first.value..]);
      if rows.Failure? {
        return Failure(rows.error);
      }
      FrameRowsWidth(file[first.value..]);
      return Success(DataFrame(ColumnNames, rows.value));
    }

    /** `write`: the lines of the file, header lines first; with no table
        the header lines are all that is written and the call fails. */
    method Write() returns (out: File, r: Result<(), WriteError>)
      ensures out == Serialized(headers, dataframe)
      ensures r.Failure? <==> dataframe.None?
    {
      out := [];
      var i := 0;
      while i < |headers|
        invariant 0 <= i <= |headers|
        invariant |out| == i && forall j :: 0 <= j < i ==> out[j] == HeaderLine(headers[j])
      {
        out := out + [HeaderLine(headers[i])];
        i := i + 1;
      }
      if dataframe.None? {
        return out, Failure(NoData);
      }
      var rows := dataframe.value.rows;
      var k := 0;
      while k < |rows|
        invariant 0 <= k <= |rows|
        invariant |out| == |headers| + k
        invariant forall j :: 0 <= j < |headers| ==> out[j] == HeaderLine(headers[j])
        invariant forall j :: 0 <= j < k ==> out[|headers| + j] == WriteRow(rows[j])
      {
        out := out + [WriteRow(rows[k])];
        k := k + 1;
      }
      return out, Success(());
    }
  }

  /** Every row of a table read from a file has all 35 columns. */
  lemma {:induction false} FrameRowsWidth(rows: File)
    requires FrameRows(rows).Success?
    ensures forall i :: 0 <= i < |FrameRows(rows).value| ==> |FrameRows(rows).value[i]| == ColumnCount
    decreases |rows|
  {
    if rows != [] {
      FrameRowsWidth(rows[1..]);
    }
  }
}
