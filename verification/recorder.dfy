/**
  The store side: `insert_filtered_data` writes one document per file by
  replace-or-insert keyed on the file name, and `process_directory` runs the
  extractor over a directory listing and stores every non-empty result in the
  manager's collection, skipping files that fail.
*/
module Recorder {
  import opened Wrappers
  import opened Text
  import Period
  import opened Extractor

  /** A stored document: `_id`, `data_documento` and `dados`. */
  datatype Document = Document(id: string, documentDate: Option<string>, records: seq<Record>)

  /** One collection: documents by `_id`. */
  type Collection = map<string, Document>

  /** The database: collections by name. */
  type Store = map<string, Collection>

  const CollectionSuffix: string := "_filtrados"

  /** `s.replace(" ", "_")`. */
  function ReplaceSpaces(s: string): (r: string)
    ensures |r| == |s|
    ensures forall i :: 0 <= i < |s| ==> r[i] == if s[i] == ' ' then '_' else s[i]
  {
    seq(|s|, i requires 0 <= i < |s| => if s[i] == ' ' then '_' else s[i])
  }

  /** How one character of a manager name appears in its collection name. */
  function NameChar(c: char): (r: char)
  {
    if c == ' ' then '_' else Lower(c)
  }

  /**
    `gestora.lower().replace(" ", "_") + "_filtrados"`: the manager name with
    letters lower-cased and spaces turned to underscores, then the suffix.
  */
  function CollectionName(manager: string): (r: string)
    ensures |r| == |manager| + |CollectionSuffix|
    ensures r[|manager|..] == CollectionSuffix
    ensures forall i :: 0 <= i < |manager| ==> r[i] == NameChar(manager[i])
  {
    ReplaceSpaces(LowerStr(manager)) + CollectionSuffix
  }

  /** Two managers sharing a collection have names of one length and one first letter. */
  lemma SameCollectionName(a: string, b: string)
    requires CollectionName(a) == CollectionName(b)
    ensures |a| == |b|
    ensures |a| > 0 ==> NameChar(a[0]) == NameChar(b[0])
  {
  }

  /** The eight configured managers write to eight different collections. */
  lemma ConfiguredCollectionsDistinct()
    ensures forall i, j :: 0 <= i < j < |ManagerChoices| ==>
      CollectionName(ManagerChoices[i]) != CollectionName(ManagerChoices[j])
  {
    forall i, j | 0 <= i < j < |ManagerChoices|
      ensures CollectionName(ManagerChoices[i]) != CollectionName(ManagerChoices[j])
    {
      var a, b := ManagerChoices[i], ManagerChoices[j];
      assert |a| != |b| || NameChar(a[0]) != NameChar(b[0]);
      if CollectionName(a) == CollectionName(b) {
        SameCollectionName(a, b);
        assert false;
      }
    }
  }

  /** A space becomes an underscore and capitals become lower case. */
  lemma CollectionNameWithSpace()
    ensures CollectionName("Lord Abett") == "lord_abett_filtrados"
  {
  }

  lemma CollectionNameSingleWord()
    ensures CollectionName("Zeno") == "zeno_filtrados"
  {
  }

  /** The document `insert_filtered_data` builds for a file. */
  function NewDocument(filename: string, records: seq<Record>): (d: Document)
    ensures d.id == filename && d.records == records
    ensures d.documentDate == Period.ExtractDate(filename)
    ensures d.documentDate.Some? ==> Period.ParsePeriod(d.documentDate.value).Some?
  {
    Document(filename, Period.ExtractDate(filename), records)
  }

  /** Every document is stored under its own `_id`. */
  ghost predicate WellKeyed(c: Collection)
  {
    forall k :: k in c ==> c[k].id == k
  }

  /**
    `replace_one({"_id": filename}, document, upsert=True)`: the file's document
    replaces any earlier one or is inserted; every other document stays.
  */
  function Upserted(c: Collection, filename: string, records: seq<Record>): (r: Collection)
    ensures r.Keys == c.Keys + {filename}
    ensures r[filename] == NewDocument(filename, records)
    ensures forall k :: k in c && k != filename ==> r[k] == c[k]
    ensures WellKeyed(c) ==> WellKeyed(r)
  {
    c[filename := NewDocument(filename, records)]
  }

  /** Writing the same file twice leaves what writing it once leaves. */
  lemma UpsertIdempotent(c: Collection, filename: string, records: seq<Record>)
    ensures Upserted(Upserted(c, filename, records), filename, records) == Upserted(c, filename, records)
  {
  }

  /** A document is replaced as a whole: the later write wins. */
  lemma UpsertLastWins(c: Collection, filename: string, first: seq<Record>, second: seq<Record>)
    ensures Upserted(Upserted(c, filename, first), filename, second) == Upserted(c, filename, second)
  {
  }

  /** Writes of different files do not interfere. */
  lemma UpsertCommutes(c: Collection, f1: string, r1: seq<Record>, f2: string, r2: seq<Record>)
    requires f1 != f2
    ensures Upserted(Upserted(c, f1, r1), f2, r2) == Upserted(Upserted(c, f2, r2), f1, r1)
  {
  }

  /** `db[name]`: a collection that was never written reads as empty. */
  function CollectionIn(db: Store, name: string): (c: Collection)
  {
    if name in db then db[name] else map[]
  }

  /** An upsert into one collection of the database, creating it on first use. */
  function StoreInto(db: Store, name: string, filename: string, records: seq<Record>): (r: Store)
    ensures r.Keys == db.Keys + {name}
    ensures CollectionIn(r, name) == Upserted(CollectionIn(db, name), filename, records)
    ensures forall n :: n in db && n != name ==> r[n] == db[n]
  {
    db[name := Upserted(CollectionIn(db, name), filename, records)]
  }

  // ---------------------------------------------------------------------------
  // process_directory

  /**
    One entry of the directory listing, with what the environment does for it:
    whether it is a regular file, whether its bytes can be read, what each
    reader makes of it, and whether the database accepts the write.
  */
  datatype DirEntry = DirEntry(name: string, isFile: bool, readable: bool,
                               parse: ReaderKind -> ParseOutcome, writeAccepted: bool)

  /** `os.path.join(directory, name)` for a name without a leading '/'. */
  function JoinPath(directory: string, name: string): (path: string)
    ensures |directory| + |name| <= |path| <= |directory| + |name| + 1
    ensures path[..|directory|] == directory && path[|path| - |name|..] == name
    ensures directory == [] ==> path == name
    ensures directory != [] ==> path[|path| - |name| - 1] == '/'
    ensures |path| == |directory| + |name| + (if directory == [] || directory[|directory| - 1] == '/' then 0 else 1)
  {
    if directory == [] || directory[|directory| - 1] == '/' then directory + name
    else directory + "/" + name
  }

  /** `os.listdir` never lists a name twice. */
  ghost predicate DistinctNames(entries: seq<DirEntry>)
  {
    forall i, j :: 0 <= i < j < |entries| ==> entries[i].name != entries[j].name
  }

  /** The records the loop writes for one entry: None when the entry is skipped. */
  function Written(directory: string, manager: string, e: DirEntry): (w: Option<seq<Record>>)
    ensures w.Some? ==> |w.value| > 0 && e.isFile && e.writeAccepted
    ensures w.Some? ==> ProcessFile(JoinPath(directory, e.name), manager, e.readable, e.parse) == Ok(w.value)
    ensures manager !in ManagerChoices ==> w.None?
    ensures var data := ProcessFile(JoinPath(directory, e.name), manager, e.readable, e.parse);
            e.isFile && e.writeAccepted && data.Ok? && |data.value| > 0 ==> w == Some(data.value)
  {
    if !e.isFile then None
    else
      match ProcessFile(JoinPath(directory, e.name), manager, e.readable, e.parse)
      case Err(_) => None
      case Ok(rows) => if |rows| > 0 && e.writeAccepted then Some(rows) else None
  }

  /** Written, read the other way round: which entries are written, and with what. */
  lemma WrittenExactly(directory: string, manager: string, e: DirEntry, data: Result<seq<Record>, ExtractError>)
    requires data == ProcessFile(JoinPath(directory, e.name), manager, e.readable, e.parse)
    ensures Written(directory, manager, e) ==
      if e.isFile && data.Ok? && |data.value| > 0 && e.writeAccepted then Some(data.value) else None
  {
  }

  /** One more entry of the loop is one more step of the fold. */
  lemma RunExtend(db: Store, name: string, outcomes: seq<Outcome>, i: nat)
    requires i < |outcomes|
    ensures Run(db, name, outcomes[..i + 1]) == Step(Run(db, name, outcomes[..i]), name, outcomes[i])
  {
    assert outcomes[..i + 1][..i] == outcomes[..i];
  }

  /** What the loop does with one entry: its name and the records written for it, if any. */
  datatype Outcome = Outcome(filename: string, written: Option<seq<Record>>)

  /** The outcome of every entry of the listing, in listing order. */
  function Outcomes(directory: string, manager: string, entries: seq<DirEntry>): (r: seq<Outcome>)
    ensures |r| == |entries|
    ensures forall i :: 0 <= i < |entries| ==>
      r[i] == Outcome(entries[i].name, Written(directory, manager, entries[i]))
  {
    seq(|entries|, i requires 0 <= i < |entries| => Outcome(entries[i].name, Written(directory, manager, entries[i])))
  }

  /** The database after one more outcome has been applied to collection `name`. */
  function Step(db: Store, name: string, o: Outcome): (r: Store)
    ensures o.written.None? ==> r == db
    ensures o.written.Some? ==> r.Keys == db.Keys + {name}
    ensures o.written.Some? ==>
      CollectionIn(r, name) == Upserted(CollectionIn(db, name), o.filename, o.written.value)
    ensures forall n :: n in db && n != name ==> n in r && r[n] == db[n]
  {
    match o.written
    case None => db
    case Some(rows) => StoreInto(db, name, o.filename, rows)
  }

  /** The database after the outcomes have been applied in order to collection `name`. */
  function Run(db: Store, name: string, outcomes: seq<Outcome>): (r: Store)
    ensures r.Keys == db.Keys || r.Keys == db.Keys + {name}
    decreases |outcomes|
  {
    if outcomes == [] then db
    else Step(Run(db, name, outcomes[..|outcomes| - 1]), name, outcomes[|outcomes| - 1])
  }

  /** No two outcomes are for the same file name. */
  ghost predicate DistinctFiles(outcomes: seq<Outcome>)
  {
    forall i, j :: 0 <= i < j < |outcomes| ==> outcomes[i].filename != outcomes[j].filename
  }

  /** Distinct names in the listing give distinct file names among the outcomes. */
  lemma OutcomesDistinct(directory: string, manager: string, entries: seq<DirEntry>)
    requires DistinctNames(entries)
    ensures DistinctFiles(Outcomes(directory, manager, entries))
  {
  }

  /** A manager without a profile writes nothing. */
  lemma UnknownManagerWritesNothing(directory: string, manager: string, entries: seq<DirEntry>)
    requires manager !in ManagerChoices
    ensures forall o :: o in Outcomes(directory, manager, entries) ==> o.written.None?
  {
  }

  /** A run writes only to its own collection. */
  lemma {:induction false} RunTouchesOnlyItsCollection(db: Store, name: string, outcomes: seq<Outcome>, other: string)
    requires other != name
    ensures other in Run(db, name, outcomes) <==> other in db
    ensures other in db ==> Run(db, name, outcomes)[other] == db[other]
    decreases |outcomes|
  {
    if outcomes != [] {
      RunTouchesOnlyItsCollection(db, name, outcomes[..|outcomes| - 1], other);
    }
  }

  /** Outcomes that write nothing leave the database exactly as it was. */
  lemma {:induction false} RunOfSkipsOnly(db: Store, name: string, outcomes: seq<Outcome>)
    requires forall o :: o in outcomes ==> o.written.None?
    ensures Run(db, name, outcomes) == db
    decreases |outcomes|
  {
    if outcomes != [] {
      assert outcomes[|outcomes| - 1] in outcomes;
      RunOfSkipsOnly(db, name, outcomes[..|outcomes| - 1]);
    }
  }

  /** Some outcome writes records. */
  ghost predicate AnyWritten(outcomes: seq<Outcome>)
  {
    exists i :: 0 <= i < |outcomes| && outcomes[i].written.Some?
  }

  /** The collection exists afterwards iff it did before or something was written. */
  lemma {:induction false} RunCreatesCollection(db: Store, name: string, outcomes: seq<Outcome>)
    ensures name in Run(db, name, outcomes) <==> name in db || AnyWritten(outcomes)
    decreases |outcomes|
  {
    if outcomes != [] {
      var init, last := outcomes[..|outcomes| - 1], outcomes[|outcomes| - 1];
      RunCreatesCollection(db, name, init);
      if last.written.None? {
        if AnyWritten(outcomes) {
          var i :| 0 <= i < |outcomes| && outcomes[i].written.Some?;
          assert init[i] == outcomes[i];
        }
        if AnyWritten(init) {
          var i :| 0 <= i < |init| && init[i].written.Some?;
          assert init[i] == outcomes[i];
        }
      }
    }
  }

  /**
    A file that was skipped (not a regular file, failed, empty result or refused
    write) keeps whatever document it had, or stays absent.
  */
  lemma {:induction false} RunKeepsSkipped(db: Store, name: string, outcomes: seq<Outcome>, filename: string)
    requires forall i :: 0 <= i < |outcomes| && outcomes[i].filename == filename ==> outcomes[i].written.None?
    ensures var before, after := CollectionIn(db, name), CollectionIn(Run(db, name, outcomes), name);
            (filename in after <==> filename in before) &&
            (filename in before ==> after[filename] == before[filename])
    decreases |outcomes|
  {
    if outcomes != [] {
      var init := outcomes[..|outcomes| - 1];
      assert forall i :: 0 <= i < |init| ==> init[i] == outcomes[i];
      RunKeepsSkipped(db, name, init, filename);
    }
  }

  /** A file whose records were written holds exactly the document built from them. */
  lemma {:induction false} RunStoresWritten(db: Store, name: string, outcomes: seq<Outcome>, i: nat)
    requires DistinctFiles(outcomes)
    requires i < |outcomes| && outcomes[i].written.Some?
    ensures var after := CollectionIn(Run(db, name, outcomes), name);
            outcomes[i].filename in after &&
            after[outcomes[i].filename] == NewDocument(outcomes[i].filename, outcomes[i].written.value)
    decreases |outcomes|
  {
    var init := outcomes[..|outcomes| - 1];
    if i < |outcomes| - 1 {
      assert init[i] == outcomes[i];
      RunStoresWritten(db, name, init, i);
    }
  }

  /**
    A regular file whose extraction gives records and whose write is accepted
    ends up stored, under its own name, with the document built from those
    records.
  */
  lemma DirectoryRunStoresFile(db: Store, directory: string, manager: string, entries: seq<DirEntry>, i: nat)
    requires DistinctNames(entries)
    requires i < |entries|
    requires var e := entries[i];
             var data := ProcessFile(JoinPath(directory, e.name), manager, e.readable, e.parse);
             e.isFile && e.writeAccepted && data.Ok? && |data.value| > 0
    ensures var e := entries[i];
            var data := ProcessFile(JoinPath(directory, e.name), manager, e.readable, e.parse);
            var after := CollectionIn(Run(db, CollectionName(manager), Outcomes(directory, manager, entries)), CollectionName(manager));
            e.name in after && after[e.name] == NewDocument(e.name, data.value)
  {
    var outcomes := Outcomes(directory, manager, entries);
    OutcomesDistinct(directory, manager, entries);
    RunStoresWritten(db, CollectionName(manager), outcomes, i);
  }

  /** Applying the same outcomes twice leaves what applying them once leaves. */
  lemma RunIdempotent(db: Store, name: string, outcomes: seq<Outcome>)
    requires DistinctFiles(outcomes)
    ensures Run(Run(db, name, outcomes), name, outcomes) == Run(db, name, outcomes)
  {
    var once := Run(db, name, outcomes);
    var twice := Run(once, name, outcomes);
    RunCreatesCollection(db, name, outcomes);
    RunCreatesCollection(once, name, outcomes);
    forall other | other != name && (other in once || other in twice)
      ensures other in once && other in twice && twice[other] == once[other]
    {
      RunTouchesOnlyItsCollection(once, name, outcomes, other);
    }
    var c1, c2 := CollectionIn(once, name), CollectionIn(twice, name);
    forall k | k in c1 || k in c2
      ensures k in c1 && k in c2 && c2[k] == c1[k]
    {
      if i :| 0 <= i < |outcomes| && outcomes[i].filename == k && outcomes[i].written.Some? {
        RunStoresWritten(db, name, outcomes, i);
        RunStoresWritten(once, name, outcomes, i);
      } else {
        RunKeepsSkipped(once, name, outcomes, k);
      }
    }
    assert c1 == c2;
    assert twice.Keys == once.Keys;
  }

  /** Running a directory twice with the same results leaves what running it once leaves. */
  lemma DirectoryRunIdempotent(db: Store, directory: string, manager: string, entries: seq<DirEntry>)
    requires DistinctNames(entries)
    ensures var name, outcomes := CollectionName(manager), Outcomes(directory, manager, entries);
            Run(Run(db, name, outcomes), name, outcomes) == Run(db, name, outcomes)
  {
    OutcomesDistinct(directory, manager, entries);
    RunIdempotent(db, CollectionName(manager), Outcomes(directory, manager, entries));
  }

  /** A manager without a profile leaves the database exactly as it was. */
  lemma DirectoryRunUnknownManager(db: Store, directory: string, manager: string, entries: seq<DirEntry>)
    requires manager !in ManagerChoices
    ensures Run(db, CollectionName(manager), Outcomes(directory, manager, entries)) == db
  {
    UnknownManagerWritesNothing(directory, manager, entries);
    RunOfSkipsOnly(db, CollectionName(manager), Outcomes(directory, manager, entries));
  }

  /** The database connection, holding every collection. */
  class Database {
    var collections: Store

    constructor (initial: Store)
      ensures collections == initial
    {
      collections := initial;
    }

    /**
      `insert_filtered_data`: upsert the file's document into the named
      collection. A write the server refuses raises and changes nothing.
    */
    method InsertFilteredData(collectionName: string, records: seq<Record>, filename: string, accepted: bool)
      returns (raised: bool)
      modifies this
      ensures raised == !accepted
      ensures accepted ==> collections == StoreInto(old(collections), collectionName, filename, records)
      ensures !accepted ==> collections == old(collections)
    {
      raised := !accepted;
      if accepted {
        collections := collections[collectionName := Upserted(CollectionIn(collections, collectionName), filename, records)];
      }
    }

    /**
      `process_directory`: every regular file in listing order; a non-empty
      result is stored in the manager's collection, an empty one or any
      exception skips the file.
    */
    method ProcessDirectory(directory: string, manager: string, entries: seq<DirEntry>)
      modifies this
      ensures collections == Run(old(collections), CollectionName(manager), Outcomes(directory, manager, entries))
    {
      ghost var outcomes := Outcomes(directory, manager, entries);
      var i := 0;
      while i < |entries|
        invariant 0 <= i <= |entries|
        invariant collections == Run(old(collections), CollectionName(manager), outcomes[..i])
      {
        var e := entries[i];
        RunExtend(old(collections), CollectionName(manager), outcomes, i);
        ghost var before := collections;
        ghost var w := Written(directory, manager, e);
        assert outcomes[i] == Outcome(e.name, w);
        if e.isFile {
          var data := ProcessFile(JoinPath(directory, e.name), manager, e.readable, e.parse);
          WrittenExactly(directory, manager, e, data);
          if data.Ok? && |data.value| > 0 {
            var collectionName := CollectionName(manager);
            var raised := InsertFilteredData(collectionName, data.value, e.name, e.writeAccepted);
          }
        }
        assert collections == Step(before, CollectionName(manager), Outcome(e.name, w));
        i := i + 1;
      }
      assert outcomes[..i] == outcomes;
    }
  }
}
