# dataleo extraction core, modelled in Dafny

`projeto.py` is a desktop tool. The user picks a directory and a fund manager
(*gestora*). The tool reads every file in the directory and cuts a fixed
rectangle of rows and two columns out of each file's table. The rectangle
depends on the manager. The two columns are renamed `Metric` and `Value`, and
rows with a missing cell are dropped. Each non-empty result is upserted into
the manager's MongoDB collection, keyed by the file name. The stored document
also carries a year-month period read from the file name.

The model has five modules:

- `Wrappers` (`wrappers.dfy`): the `Option` and `Result` types. A `Result`
  stands for a value or the exception the source raises instead.
- `Text` (`text.dfy`): ASCII lower-casing, the `[a-zA-Z]` and `\d` character
  classes, and two-digit numerals.
- `Period` (`period.dfy`): `extract_date_from_filename`. This covers the
  leftmost match of `[a-zA-Z]{3}\d{2}`, the month table, and `strptime("%y-%m")`
  followed by `strftime("%Y-%m")`. It also has `ParsePeriod`, which reads a
  stored period back; it is the inverse used to state the format.
- `Extractor` (`extractor.dfy`): `process_file`. This covers `os.path.splitext`,
  the dispatch on the extension, the `filter_settings` profiles, the slice
  `iloc[start:end, columns]`, the relabelling and `dropna`.
- `Recorder` (`recorder.dfy`): the collection name, `insert_filtered_data` as a
  map upsert, and `process_directory`. The collection name, the upsert
  (`Upserted`, `StoreInto`) and the fold `Run` over per-file outcomes are
  module-level functions. The `Database` class holds every collection as a
  `map<string, map<string, Document>>`. Its two methods are
  `InsertFilteredData` and `ProcessDirectory`.
  The directory loop is a method proved against `Run`, a fold of per-file
  outcomes. The lemmas about `Run` give idempotence, "other keys unchanged"
  and "failed files keep their old document".

What the environment supplies is passed in as parameters:

- `readable` says whether reading the file's bytes for encoding detection
  succeeded.
- `parse` says what each of the five readers makes of the file: a rectangular
  `Table` of optional cells, or a parse error.
- `DirEntry` holds the rest: the listing order, whether an entry is a regular
  file, and whether the database accepts the write.

Two points of the code's behaviour are easy to misread:

- The manager is looked up only after the file has been read and parsed:
  encoding detection and the pandas reader run at projeto.py:37-50, the
  profile lookup at projeto.py:63-64. An unreadable or unparsable file
  therefore reports its own error, even for an unknown manager.
  `UnknownManagerFails` states the manager error for a file that was read and
  parsed. `DirectoryRunUnknownManager` states that such a run never writes.
- A configured column position outside the table raises: pandas rejects a
  positional column list that is out of bounds. The model returns
  `ColumnOutOfRange`. Row bounds are clamped, as Python slicing clamps them.

## Model

| member | source | states |
|---|---|---|
| Period.Search | projeto.py:22-23 | `re.search`: the result is a match position with no match before it, or None when no position from `from` on matches |
| Period.SearchFindsLeftmost | projeto.py:23 | whenever a leftmost match exists, the search reports exactly that position |
| Period.MatchIgnoresCase | projeto.py:22-23 | lower-casing the name neither creates nor removes a three-letters-two-digits match at any position |
| Period.CenturyYear | projeto.py:29 | the `%y` year is the one in 1969..2068 whose last two digits are `yy` |
| Period.ParseShortYearMonth | projeto.py:29 | `strptime("%y-%m")` succeeds iff the month is 1..12; the year is the `%y` window year and the month is the numeral's value |
| Period.FormatYearMonth | projeto.py:30 | `strftime("%Y-%m")`: seven characters, four digits, a dash, two digits; the digits read back as the year and the month |
| Period.FormatThenParse | projeto.py:30 | the `"%Y-%m"` text is 7 characters and reads back as the same year and month |
| Period.ParseThenFormat | projeto.py:30 | every text that reads as a period is exactly the printing of that period, so formatting is a bijection onto well-formed periods |
| Period.MonthNumber | projeto.py:17-21 | each table abbreviation maps to a month 1..12 whose calendar-order name is that abbreviation |
| Period.MonthTableInOrder | projeto.py:17-21 | the table has exactly the twelve Portuguese abbreviations, numbered jan=1 to dez=12 |
| Period.ExtractDate | projeto.py:16-33 | a present result reads back as a period with a year in 1969..2068 |
| Period.LoweredSearch | projeto.py:22-23 | searching the lower-cased name finds the name's own leftmost match, with the lower-cased letters and the same digits |
| Period.ExtractDateLeftmostNotMonth | projeto.py:22-33 | when the letters of the leftmost match are not a month, the result is None, whatever follows in the name |
| Period.ExtractDateLeftmostMonth | projeto.py:22-30 | when the letters of the leftmost match are a month, the result is that month of the `%y` year of the match's digits |
| Period.ExtractDateNoMatch | projeto.py:23-24 | a name without three letters followed by two digits has no period |
| Period.ExtractDateIgnoresCase | projeto.py:23 | names that agree up to letter case give the same result |
| Period.ParseNeverFails | projeto.py:27-32 | for every table month and two-digit year `strptime` succeeds, so the `except ValueError` branch cannot run |
| Period.ExampleUpperCase | projeto.py:16-30 | "REL_JAN24" gives "2024-01" |
| Period.ExampleLowerCase | projeto.py:23 | "rel_jan24" gives the same "2024-01" |
| Period.ExampleLastCentury | projeto.py:29-30 | "dez99" gives "1999-12" |
| Period.ExampleFirstMatchOnly | projeto.py:23-27 | "abc12_jan24" gives None: the first match "abc12" is not a month and hides "jan24" |
| Text.LowerStr | projeto.py:23 | `str.lower()` (also used at projeto.py:36 and 96): same length, every character lowered, A-Z to a-z and nothing else changed |
| Extractor.Extension | projeto.py:36 | `splitext` extension: empty, or a suffix of the path that starts with a dot and holds no other dot and no separator |
| Extractor.ExtensionExamples | projeto.py:36 | "dir/relatorio_jan24.XLSX" has ".XLSX"; ".bashrc" and "dados.v2/leiame" have none |
| Extractor.ReaderFor | projeto.py:36-50 | a reader is chosen iff the lower-cased extension is that reader's; any other extension gives the unsupported-format error |
| Extractor.ReaderForCanonical | projeto.py:39-50 | the reader for a kind is chosen exactly when the lower-cased extension equals that kind's extension (both directions) |
| Extractor.ReaderExamples | projeto.py:36-50 | ".XLSX" and ".Csv" are recognised in any case; ".pdf" is unsupported |
| Extractor.ProfileFor | projeto.py:52-64 | a profile exists iff the manager is one of the eight names the drop-down offers; every profile has two columns and start < end; others get the no-configuration error naming the manager |
| Extractor.SliceRows | projeto.py:70 | `rows[start:end]` has `min(end, n) - start` rows (0 when `n <= start`), row k being row `start + k` |
| Extractor.Relabel | projeto.py:70-71 | succeeds iff both configured columns exist; then one record per sliced row, Metric from the first configured column and Value from the second |
| Extractor.DropMissing | projeto.py:72 | no more rows than the input; a complete record is kept iff its row occurs in the input |
| Extractor.DropMissingAppend | projeto.py:72 | dropping works row by row, so the kept rows keep their relative order |
| Extractor.DropMissingComplete | projeto.py:72 | a slice with no missing cell keeps every row, in place |
| Extractor.ProcessFile | projeto.py:35-72 | an unreadable file fails with the read error; an unsupported extension with the format error; a reader failure with the parse error; an unconfigured manager never succeeds; a configured column outside the table gives the column error; otherwise the result is exactly the complete rows of the relabelled slice, in order and with repeats (via `DropMissing` and `DropMissingAppend`) |
| Extractor.UnsupportedNeverParses | projeto.py:36-50 | with an unsupported extension the result fails and does not depend on any reader |
| Extractor.UnknownManagerFails | projeto.py:37-64 | for a readable, parsed file, an unconfigured manager gives exactly the no-configuration error |
| Extractor.RelabelledRecords | projeto.py:70-72 | a (Metric, Value) pair is in the result iff some sliced row holds it in the two configured columns |
| Extractor.ProcessFileRecords | projeto.py:66-72 | for a successful file, a record is returned iff a row of the manager's slice holds it in the configured columns |
| Extractor.ZenoExample | projeto.py:60-72 | Zeno on a complete 12-row, 4-column table gives 9 records, record k from row 1+k, Metric from column 1 and Value from column 2 |
| Recorder.CollectionName | projeto.py:96 | the name is the manager's characters, lower-cased with spaces as underscores, followed by "_filtrados" |
| Recorder.ConfiguredCollectionsDistinct | projeto.py:96 | the eight offered managers write to eight different collections |
| Recorder.CollectionNameWithSpace | projeto.py:96 | "Lord Abett" writes to "lord_abett_filtrados" |
| Recorder.CollectionNameSingleWord | projeto.py:96 | "Zeno" writes to "zeno_filtrados" |
| Recorder.NewDocument | projeto.py:79-86 | the document has the file name as `_id`, the records as `dados`, and as `data_documento` the name's period, which reads back as a well-formed period when present |
| Recorder.Upserted | projeto.py:78-87 | `replace_one(..., upsert=True)`: the file name becomes a key holding the document built from it; every other document stays; documents stay under their own `_id` |
| Recorder.UpsertIdempotent | projeto.py:87 | upserting the same file and records twice equals upserting once |
| Recorder.UpsertLastWins | projeto.py:82-87 | a document is replaced whole: the later write wins |
| Recorder.UpsertCommutes | projeto.py:87 | upserts of different files commute |
| Recorder.StoreInto | projeto.py:81-87 | the upsert goes to the named collection, creating it if needed; other collections are unchanged |
| Recorder.Written | projeto.py:92-97 | a file's records are written iff it is a regular file, its extraction succeeded with non-empty records and the write is accepted, and then exactly those records are written; an unconfigured manager writes nothing |
| Recorder.JoinPath | projeto.py:91 | `os.path.join`: the path starts with the directory and ends with the name; a '/' is inserted between them only when the directory is non-empty and does not already end in '/', so there is exactly one separator |
| Recorder.Outcomes | projeto.py:90-99 | one outcome per listing entry, in listing order, carrying the entry's name and what the loop writes for it |
| Recorder.Step | projeto.py:93-97 | a skipped entry leaves the database unchanged; a written one upserts its document into the manager's collection, creating it, and leaves every other collection unchanged |
| Recorder.Run | projeto.py:90-99 | folding the outcomes in order adds at most the manager's collection to the database's collection names |
| Recorder.OutcomesDistinct | projeto.py:90 | a listing without repeated names gives outcomes without repeated file names |
| Recorder.UnknownManagerWritesNothing | projeto.py:63-64 | for an unconfigured manager no entry of the listing writes |
| Recorder.RunTouchesOnlyItsCollection | projeto.py:96-97 | a run changes no collection other than the manager's |
| Recorder.RunOfSkipsOnly | projeto.py:93-99 | when every file is skipped or fails, the database is unchanged |
| Recorder.RunCreatesCollection | projeto.py:81-87 | the manager's collection exists after a run iff it existed before or some file was written |
| Recorder.RunKeepsSkipped | projeto.py:93-99 | a file that failed, was empty, was refused or is not a regular file keeps its previous document, or stays absent |
| Recorder.RunStoresWritten | projeto.py:93-97 | with distinct names, a written file ends up holding exactly the document built from its records |
| Recorder.DirectoryRunStoresFile | projeto.py:90-97 | a regular file of the listing whose extraction gives records and whose write is accepted ends up stored with exactly the document built from those records |
| Recorder.RunIdempotent | projeto.py:87-99 | applying the same outcomes twice leaves the same database as applying them once |
| Recorder.DirectoryRunIdempotent | projeto.py:89-99 | running the same directory twice with the same results leaves the database of a single run |
| Recorder.DirectoryRunUnknownManager | projeto.py:63-64 | a run for an unconfigured manager leaves the database exactly as it was |
| Recorder.Database.constructor | projeto.py:75-76 | the connection starts with the given collections |
| Recorder.Database.InsertFilteredData | projeto.py:78-87 | an accepted write upserts the file's document into the named collection; a refused write raises and changes nothing |
| Recorder.Database.ProcessDirectory | projeto.py:89-99 | after the loop the collections are the fold `Run` of every entry's outcome, in listing order |

## Left out

- The Tkinter interface (`create_ui`, projeto.py:102-143) is a UI event loop. Only its list of eight manager names is used, as `ManagerChoices`.
- Encoding detection with `chardet` (projeto.py:11-14) is a foreign library plus file I/O. It is reduced to the `readable` flag; the detected encoding has no other effect in the model.
- The pandas readers (projeto.py:40-48) are foreign parsers. Their result is the `parse` parameter, a rectangular table or a parse error. Header handling and cell types are theirs; a cell is modelled as its text.
- The MongoDB connection (projeto.py:75-76) and the driver's network behaviour are left out. The database is an in-memory map, and a refused write is the `accepted` flag.
- `os.listdir` ordering and `os.path.isfile` are filesystem behaviour (projeto.py:90-92). They arrive as the given sequence of `DirEntry` values. `print` logging of failures (projeto.py:99) is output only.
- Text is ASCII only. `str.lower` changes only A-Z, and `\d` matches only 0-9. Python's Unicode case mapping and Unicode digits are not modelled.
- `splitext` treats '/' as the only separator; no alternative separator is modelled.
- `JoinPath` does not model `os.path.join` discarding the directory when the name is absolute (starts with '/'). Names from `os.listdir` never contain '/'.
- Negative column positions, which Python would accept, are not modelled: every configured position is non-negative.
- Extractor.Extension: its contract gives the shape of a non-empty result but not the exact condition for an empty one; that condition is covered only by `ExtensionExamples`.
- Period.ExtractDate: its own contract states only the format of a present result. The full behaviour is stated by `ExtractDateLeftmostMonth`, `ExtractDateLeftmostNotMonth` and `ExtractDateNoMatch`.
