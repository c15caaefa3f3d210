/**
  `process_file`: pick a reader from the file extension, parse the file into a
  table, cut the manager's fixed rectangle out of it, name its two columns
  Metric and Value, and drop the rows with a missing cell.
*/
module Extractor {
  import opened Wrappers
  import opened Text

  /** A cell's content as the parsers deliver it. */
  type Cell = string

  /** A parsed table: a column count and rows of possibly missing cells. */
  datatype Grid = Grid(width: nat, rows: seq<seq<Option<Cell>>>)

  /** Parsers always deliver rectangular tables. */
  type Table = g: Grid | forall i :: 0 <= i < |g.rows| ==> |g.rows[i]| == g.width
    witness Grid(0, [])

  /** The five pandas readers `process_file` dispatches to. */
  datatype ReaderKind = CommaSeparated | Json | LegacyExcel | Excel | TabSeparated

  /** What the reader for one kind makes of the file. */
  datatype ParseOutcome = ParseError | Parsed(table: Table)

  /** The exceptions `process_file` can raise. */
  datatype ExtractError =
    | UnreadableFile
    | UnsupportedFormat
    | ParseFailed
    | NoFilterProfile(manager: string)
    | ColumnOutOfRange

  /** One row of the slice after relabelling, before missing values are dropped. */
  datatype RawRecord = RawRecord(metric: Option<Cell>, value: Option<Cell>)

  /** One complete row of the result, as `to_dict(orient='records')` gives it. */
  datatype Record = Record(metric: Cell, value: Cell)

  /** A manager's rectangle: rows `start` up to `end` (exclusive) and two column positions. */
  datatype Profile = Profile(start: nat, end: nat, columns: seq<nat>)

  // ---------------------------------------------------------------------------
  // Extension dispatch

  /** The last position of `c` in `s`, or -1, as `str.rfind`. */
  function LastIndexOf(s: string, c: char): (r: int)
    ensures -1 <= r < |s|
    ensures r >= 0 ==> s[r] == c
    ensures forall j :: r < j < |s| ==> s[j] != c
    decreases |s|
  {
    if s == [] then -1
    else if s[|s| - 1] == c then |s| - 1
    else LastIndexOf(s[..|s| - 1], c)
  }

  /** The contract of LastIndexOf pins its result down. */
  lemma LastIndexOfAt(s: string, c: char, i: int)
    requires 0 <= i < |s| && s[i] == c
    requires forall j :: i < j < |s| ==> s[j] != c
    ensures LastIndexOf(s, c) == i
  {
  }

  /**
    `os.path.splitext(path)[1]` for '/'-separated paths: the text from the last
    dot of the last component, unless that component has only dots before it.
  */
  function Extension(path: string): (ext: string)
    ensures ext == "" || (ext[0] == '.' && |ext| <= |path| && ext == path[|path| - |ext|..])
    ensures forall j :: 1 <= j < |ext| ==> ext[j] != '.' && ext[j] != '/'
  {
    var sep := LastIndexOf(path, '/');
    var dot := LastIndexOf(path, '.');
    if dot > sep && exists k :: sep < k < dot && path[k] != '.' then path[dot..] else ""
  }

  /** The lower-case extension each reader is chosen for. */
  function CanonicalExtension(kind: ReaderKind): (ext: string)
  {
    match kind
    case CommaSeparated => ".csv"
    case Json => ".json"
    case LegacyExcel => ".xls"
    case Excel => ".xlsx"
    case TabSeparated => ".txt"
  }

  /**
    The if-chain on the lower-cased extension: a reader whose extension it is,
    or the unsupported-format error when it is none of the five.
  */
  function ReaderFor(ext: string): (r: Result<ReaderKind, ExtractError>)
    ensures r.Ok? ==> CanonicalExtension(r.value) == LowerStr(ext)
    ensures r.Err? ==> r.error == UnsupportedFormat
    ensures r.Err? ==> forall kind :: CanonicalExtension(kind) != LowerStr(ext)
  {
    var e := LowerStr(ext);
    if e == ".csv" then Ok(CommaSeparated)
    else if e == ".json" then Ok(Json)
    else if e == ".xls" then Ok(LegacyExcel)
    else if e == ".xlsx" then Ok(Excel)
    else if e == ".txt" then Ok(TabSeparated)
    else Err(UnsupportedFormat)
  }

  /** Each reader is chosen exactly for its extension, in any letter case. */
  lemma ReaderForCanonical(ext: string, kind: ReaderKind)
    ensures ReaderFor(ext) == Ok(kind) <==> LowerStr(ext) == CanonicalExtension(kind)
  {
  }

  /** Extensions keep their case; dot-files and dotted directories have none. */
  lemma ExtensionExamples()
    ensures Extension("dir/relatorio_jan24.XLSX") == ".XLSX"
    ensures Extension(".bashrc") == ""
    ensures Extension("dados.v2/leiame") == ""
  {
    var p := "dir/relatorio_jan24.XLSX";
    assert p[4] == 'r';
    LastIndexOfAt(p, '/', 3);
    LastIndexOfAt(p, '.', 19);
    LastIndexOfAt(".bashrc", '.', 0);
    var q := "dados.v2/leiame";
    LastIndexOfAt(q, '/', 8);
    LastIndexOfAt(q, '.', 5);
  }

  /** Letter case of the extension does not matter; other extensions fail. */
  lemma ReaderExamples()
    ensures ReaderFor(".XLSX") == Ok(Excel)
    ensures ReaderFor(".Csv") == Ok(CommaSeparated)
    ensures ReaderFor(".pdf") == Err(UnsupportedFormat)
  {
    assert LowerStr(".XLSX") == ".xlsx";
    assert LowerStr(".Csv") == ".csv";
    assert LowerStr(".pdf") == ".pdf";
  }

  // ---------------------------------------------------------------------------
  // Manager profiles

  /** The `filter_settings` table. */
  const FilterSettings: map<string, Profile> := map[
    "Acadian" := Profile(6, 12, [0, 1]),
    "Colchester" := Profile(15, 26, [10, 11]),
    "Fundamenta" := Profile(4, 10, [0, 2]),
    "Lord Abett" := Profile(6, 12, [0, 1]),
    "Man" := Profile(2, 20, [0, 1]),
    "Oaktree" := Profile(3, 8, [0, 1]),
    "Pearl Diver" := Profile(7, 14, [0, 1]),
    "Zeno" := Profile(1, 10, [1, 2])
  ]

  /** The eight names the manager drop-down offers. */
  const ManagerChoices: seq<string> :=
    ["Acadian", "Colchester", "Fundamenta", "Lord Abett", "Man", "Oaktree", "Pearl Diver", "Zeno"]

  /** Exactly two columns and a non-empty row range. */
  predicate ValidProfile(p: Profile)
  {
    |p.columns| == 2 && p.start < p.end
  }

  /**
    The profile lookup: the configured rectangle for one of the eight
    offered managers, the no-configuration error for any other name.
  */
  function ProfileFor(manager: string): (r: Result<Profile, ExtractError>)
    ensures r.Ok? <==> manager in ManagerChoices
    ensures r.Ok? ==> ValidProfile(r.value)
    ensures r.Err? ==> r.error == NoFilterProfile(manager)
  {
    if manager in FilterSettings then Ok(FilterSettings[manager])
    else Err(NoFilterProfile(manager))
  }

  // ---------------------------------------------------------------------------
  // Slicing, relabelling and dropping missing values

  function Min(a: int, b: int): (m: int) { if a <= b then a else b }

  /** `rows[start:end]` with Python's clamping of out-of-range bounds. */
  function SliceRows<R>(rows: seq<R>, start: nat, end: nat): (r: seq<R>)
    ensures |r| == if |rows| <= start || end <= start then 0 else Min(end, |rows|) - start
    ensures forall k :: 0 <= k < |r| ==> r[k] == rows[start + k]
  {
    var lo := Min(start, |rows|);
    var hi := Min(end, |rows|);
    if lo < hi then rows[lo..hi] else []
  }

  /**
    `data.iloc[start:end, columns]` renamed to Metric and Value: one raw record
    per sliced row, first configured column to Metric, second to Value; a
    column position past the table's width raises.
  */
  function Relabel(t: Table, p: Profile): (r: Result<seq<RawRecord>, ExtractError>)
    requires |p.columns| == 2
    ensures r.Ok? <==> p.columns[0] < t.width && p.columns[1] < t.width
    ensures r.Err? ==> r.error == ColumnOutOfRange
    ensures r.Ok? ==> |r.value| == |SliceRows(t.rows, p.start, p.end)|
    ensures r.Ok? ==> forall k :: 0 <= k < |r.value| ==>
      r.value[k] == RawRecord(t.rows[p.start + k][p.columns[0]], t.rows[p.start + k][p.columns[1]])
  {
    var m, v := p.columns[0], p.columns[1];
    if m < t.width && v < t.width then
      var slice := SliceRows(t.rows, p.start, p.end);
      Ok(seq(|slice|, k requires 0 <= k < |slice| => RawRecord(slice[k][m], slice[k][v])))
    else Err(ColumnOutOfRange)
  }

  /** The raw form of a complete record. */
  function AsRaw(rec: Record): (raw: RawRecord)
  {
    RawRecord(Some(rec.metric), Some(rec.value))
  }

  /** `dropna()`: keep the rows whose two cells are both present. */
  function DropMissing(rows: seq<RawRecord>): (r: seq<Record>)
    ensures |r| <= |rows|
    ensures forall rec :: rec in r <==> AsRaw(rec) in rows
    decreases |rows|
  {
    if rows == [] then []
    else
      var rest := DropMissing(rows[1..]);
      match rows[0]
      case RawRecord(Some(m), Some(v)) => [Record(m, v)] + rest
      case _ => rest
  }

  /** Dropping is done row by row, so the kept rows stay in their order. */
  lemma {:induction false} DropMissingAppend(a: seq<RawRecord>, b: seq<RawRecord>)
    ensures DropMissing(a + b) == DropMissing(a) + DropMissing(b)
    decreases |a|
  {
    if a == [] {
      assert a + b == b;
    } else {
      assert (a + b)[1..] == a[1..] + b;
      DropMissingAppend(a[1..], b);
    }
  }

  /** A slice with no missing cell loses no row. */
  lemma {:induction false} DropMissingComplete(rows: seq<RawRecord>)
    requires forall k :: 0 <= k < |rows| ==> rows[k].metric.Some? && rows[k].value.Some?
    ensures |DropMissing(rows)| == |rows|
    ensures forall k :: 0 <= k < |rows| ==> AsRaw(DropMissing(rows)[k]) == rows[k]
    decreases |rows|
  {
    if rows != [] {
      DropMissingComplete(rows[1..]);
    }
  }

  // ---------------------------------------------------------------------------
  // process_file

  /**
    `process_file(path, manager)`. The encoding probe and the pandas readers are
    the environment: `readable` says whether reading the bytes succeeded and
    `parse` what each reader makes of the file.
  */
  function ProcessFile(path: string, manager: string, readable: bool,
                       parse: ReaderKind -> ParseOutcome): (r: Result<seq<Record>, ExtractError>)
    ensures !readable ==> r == Err(UnreadableFile)
    ensures readable && ReaderFor(Extension(path)).Err? ==> r == Err(UnsupportedFormat)
    ensures manager !in ManagerChoices ==> r.Err?
    ensures r.Ok? ==> ReaderFor(Extension(path)).Ok? && parse(ReaderFor(Extension(path)).value).Parsed?
    ensures readable && ReaderFor(Extension(path)).Ok? && parse(ReaderFor(Extension(path)).value).ParseError? ==>
      r == Err(ParseFailed)
    ensures readable && ReaderFor(Extension(path)).Ok? && parse(ReaderFor(Extension(path)).value).Parsed? &&
            ProfileFor(manager).Ok? ==>
      var t, p := parse(ReaderFor(Extension(path)).value).table, ProfileFor(manager).value;
      (Relabel(t, p).Err? ==> r == Err(ColumnOutOfRange)) &&
      (Relabel(t, p).Ok? ==> r == Ok(DropMissing(Relabel(t, p).value)))
    ensures r.Ok? ==>
      var t, p := parse(ReaderFor(Extension(path)).value).table, ProfileFor(manager).value;
      ProfileFor(manager).Ok? && p == FilterSettings[manager] && Relabel(t, p).Ok? &&
      r.value == DropMissing(Relabel(t, p).value)
  {
    if !readable then Err(UnreadableFile)
    else
      match ReaderFor(Extension(path))
      case Err(e) => Err(e)
      case Ok(kind) =>
        match parse(kind)
        case ParseError => Err(ParseFailed)
        case Parsed(t) =>
          match ProfileFor(manager)
          case Err(e) => Err(e)
          case Ok(p) =>
            match Relabel(t, p)
            case Err(e) => Err(e)
            case Ok(raw) => Ok(DropMissing(raw))
  }

  /** An unsupported extension fails before any reader is consulted. */
  lemma UnsupportedNeverParses(path: string, manager: string, readable: bool,
                               parse1: ReaderKind -> ParseOutcome, parse2: ReaderKind -> ParseOutcome)
    requires ReaderFor(Extension(path)).Err?
    ensures ProcessFile(path, manager, readable, parse1) == ProcessFile(path, manager, readable, parse2)
    ensures ProcessFile(path, manager, readable, parse1).Err?
  {
  }

  /** An unconfigured manager fails with its own error once the file is parsed. */
  lemma UnknownManagerFails(path: string, manager: string, parse: ReaderKind -> ParseOutcome)
    requires manager !in ManagerChoices
    requires ReaderFor(Extension(path)).Ok? && parse(ReaderFor(Extension(path)).value).Parsed?
    ensures ProcessFile(path, manager, true, parse) == Err(NoFilterProfile(manager))
  {
  }

  /**
    After relabelling and dropping, a (Metric, Value) pair is in the result
    exactly when some row of the slice holds it in the two configured columns.
  */
  lemma RelabelledRecords(t: Table, p: Profile, m: Cell, v: Cell)
    requires |p.columns| == 2 && Relabel(t, p).Ok?
    ensures var slice := SliceRows(t.rows, p.start, p.end);
            Record(m, v) in DropMissing(Relabel(t, p).value) <==>
              exists k :: 0 <= k < |slice| && slice[k][p.columns[0]] == Some(m) && slice[k][p.columns[1]] == Some(v)
  {
    var slice := SliceRows(t.rows, p.start, p.end);
    var raw := Relabel(t, p).value;
    if Record(m, v) in DropMissing(raw) {
      assert AsRaw(Record(m, v)) in raw;
      var k :| 0 <= k < |raw| && raw[k] == AsRaw(Record(m, v));
      assert slice[k] == t.rows[p.start + k];
    }
    if exists k :: 0 <= k < |slice| && slice[k][p.columns[0]] == Some(m) && slice[k][p.columns[1]] == Some(v) {
      var k :| 0 <= k < |slice| && slice[k][p.columns[0]] == Some(m) && slice[k][p.columns[1]] == Some(v);
      assert raw[k] == AsRaw(Record(m, v));
    }
  }

  /**
    Every record returned comes from a row of the configured slice, its Metric
    from the first configured column and its Value from the second, and every
    complete row of the slice is returned.
  */
  lemma ProcessFileRecords(path: string, manager: string, parse: ReaderKind -> ParseOutcome, m: Cell, v: Cell)
    requires ProcessFile(path, manager, true, parse).Ok?
    ensures manager in FilterSettings
    ensures var t := parse(ReaderFor(Extension(path)).value).table;
            var p := FilterSettings[manager];
            var slice := SliceRows(t.rows, p.start, p.end);
            Record(m, v) in ProcessFile(path, manager, true, parse).value <==>
              exists k :: 0 <= k < |slice| && slice[k][p.columns[0]] == Some(m) && slice[k][p.columns[1]] == Some(v)
  {
    var t := parse(ReaderFor(Extension(path)).value).table;
    var p := FilterSettings[manager];
    assert ProcessFile(path, manager, true, parse) == Ok(DropMissing(Relabel(t, p).value));
    RelabelledRecords(t, p, m, v);
  }

  /**
    The end-to-end case of the Zeno profile (rows 1..10, columns 1 and 2) on a
    complete 12-row, 4-column table: nine records, in row order.
  */
  lemma ZenoExample(path: string, t: Table, parse: ReaderKind -> ParseOutcome)
    requires ReaderFor(Extension(path)).Ok? && parse(ReaderFor(Extension(path)).value) == Parsed(t)
    requires t.width == 4 && |t.rows| == 12
    requires forall i, j :: 0 <= i < 12 && 0 <= j < 4 ==> t.rows[i][j].Some?
    ensures var r := ProcessFile(path, "Zeno", true, parse);
            r.Ok? && |r.value| == 9 &&
            forall k :: 0 <= k < 9 ==>
              Some(r.value[k].metric) == t.rows[1 + k][1] && Some(r.value[k].value) == t.rows[1 + k][2]
  {
    var p := FilterSettings["Zeno"];
    assert p == Profile(1, 10, [1, 2]);
    var raw := Relabel(t, p).value;
    assert |raw| == 9;
    DropMissingComplete(raw);
    assert ProcessFile(path, "Zeno", true, parse) == Ok(DropMissing(raw));
  }
}
