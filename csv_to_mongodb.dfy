/**
 * `CsvToMongoDB`: a registry of collections, each paired with the CSV file
 * that fills it, the read settings for those files, and `insert_data`, which
 * streams the rows of one file into its collection through a buffer that is
 * written out as one unordered bulk write whenever it holds `buffer_size`
 * documents, and once more at the end if it is not empty.
 *
 * The file system is the parameter `files`: each path maps to the records of
 * that file, already split into fields. A path missing from `files` is a file
 * that cannot be opened.
 */
module CsvToMongo {
  import opened Wrappers
  import opened Documents
  import opened Batching
  import opened Mongo

  /** The read settings: line terminator, text encoding, field delimiter. */
  datatype CsvProperty = CsvProperty(newline: string, encoding: string, delimiter: string)

  const DefaultCsvProperty := CsvProperty("\n", "utf-8", ",")

  /** The errors the core raises. */
  datatype Error =
    | KeyError(key: string)        // collection name not registered
    | FileNotFound(path: string)   // the CSV file cannot be opened
    | StopIteration                // the CSV file has no record, not even a header

  type Files = map<string, seq<seq<string>>>

  /** One registered collection: its handle and the path of its CSV file. */
  datatype Entry = Entry(col: Collection, path: string)

  /** The `collections` dictionary: its keys in insertion order, and the entry
      of each key. */
  datatype Registry = Registry(keys: seq<string>, entries: map<string, Entry>) {

    ghost predicate Valid() {
      && (forall i, j :: 0 <= i < j < |keys| ==> keys[i] != keys[j])
      && (forall k :: k in entries <==> k in keys)
      && (forall k :: k in entries ==> entries[k].col == Collection(k))
    }

    /** The handles, in key order. */
    function Cols(): (cols: seq<Collection>)
      requires Valid()
      ensures |cols| == |keys|
      ensures forall c: Collection :: c in cols <==> c.name in entries
    {
      var cols := seq(|keys|, i requires 0 <= i < |keys| => entries[keys[i]].col);
      assert forall c: Collection :: c.name in entries ==> c in cols by {
        forall c: Collection | c.name in entries ensures c in cols {
          var i :| 0 <= i < |keys| && keys[i] == c.name;
          assert cols[i] == c;
        }
      }
      cols
    }
  }

  /** The names of the `csv_path` dictionary, in order. */
  function Names(csvPath: seq<(string, string)>): seq<string>
  {
    seq(|csvPath|, i requires 0 <= i < |csvPath| => csvPath[i].0)
  }

  /** The batch size the buffer actually flushes at: `len(buffer) >= buffer_size`
      holds as soon as the buffer holds one document when `buffer_size < 1`. */
  function BatchSize(bufferSize: int): (k: nat)
    ensures k >= 1
    ensures bufferSize >= 1 ==> k == bufferSize
  {
    if bufferSize >= 1 then bufferSize else 1
  }

  /** The documents of the data rows, one per row, in row order. */
  function DataDocuments(header: seq<string>, dataRows: seq<seq<string>>): seq<Document>
  {
    seq(|dataRows|, i requires 0 <= i < |dataRows| => ToDocument(header, dataRows[i]))
  }

  /** What one `insert_data` call does: the operations it issues, in order,
      and how it ends. */
  datatype Run = Run(ops: seq<Op>, outcome: Outcome<Error>)

  /** `insert_data(col_name, buffer_size)` against registry `reg`: look the
      name up (KeyError), drop every registered collection when `db_check`
      is set, then load the name's file. */
  function Ingest(reg: Registry, dbCheck: bool, colName: string, bufferSize: int, files: Files): Run
    requires reg.Valid()
  {
    if colName !in reg.entries then Run([], Fail(KeyError(colName)))
    else
      var drops := if dbCheck then DropAll(reg.Cols()) else [];
      var load := LoadFile(reg.entries[colName], bufferSize, files);
      Run(drops + load.ops, load.outcome)
  }

  /** The `with open(...)` block of `insert_data` for entry `e`: open the
      file (FileNotFound), read the header (StopIteration on an empty file),
      then write the documents of the remaining records in batches. */
  function LoadFile(e: Entry, bufferSize: int, files: Files): Run
  {
    if e.path !in files then Run([], Fail(FileNotFound(e.path)))
    else if |files[e.path]| == 0 then Run([], Fail(StopIteration))
    else
      var rows := files[e.path];
      Run(Writes(e.col, Chunks(DataDocuments(rows[0], rows[1..]), BatchSize(bufferSize))), Pass)
  }

  /** Every batch of `xs` is full: the state of the buffer's input right
      after a flush. */
  ghost predicate FullBatches(xs: seq<Document>, k: nat)
    requires k >= 1
  {
    forall j :: 0 <= j < |Chunks(xs, k)| ==> |Chunks(xs, k)[j]| == k
  }

  /** One flush of the buffer `docs[done..end]` after full batches adds one
      bulk write of exactly that buffer, and leaves full batches behind when
      the buffer was full. */
  lemma FlushStep(target: Collection, docs: seq<Document>, k: nat, done: nat, end: nat)
    requires k >= 1
    requires done < end <= |docs| && end - done <= k
    requires FullBatches(docs[..done], k)
    ensures Writes(target, Chunks(docs[..end], k)) ==
      Writes(target, Chunks(docs[..done], k)) + [BulkWrite(target, docs[done..end])]
    ensures end - done == k ==> FullBatches(docs[..end], k)
  {
    var c := Chunks(docs[..done], k);
    ChunksSizes(docs[..done], k);
    if |c| > 0 {
      assert |c| * k == (|c| - 1) * k + k;
    }
    assert docs[..done] + docs[done..end] == docs[..end];
    ChunksSnoc(docs[..done], docs[done..end], k, |c|);
    WritesSnoc(target, c, docs[done..end]);
  }

  /** Appending the document of record `i` to the buffer of records
      `done..i` gives the buffer of records `done..i+1`. */
  lemma BufferStep(header: seq<string>, dataRows: seq<seq<string>>, done: nat, i: nat)
    requires done <= i < |dataRows|
    ensures DataDocuments(header, dataRows)[done..i] + [ToDocument(header, dataRows[i])] ==
      DataDocuments(header, dataRows)[done..i + 1]
  {
  }

  /** The loop state of `insert_data` after `done` documents were flushed:
      the batches so far are full and `written` holds their bulk writes. */
  ghost predicate Streamed(target: Collection, docs: seq<Document>, k: nat, done: nat, written: seq<Op>)
    requires k >= 1
  {
    done <= |docs| && FullBatches(docs[..done], k) && written == Writes(target, Chunks(docs[..done], k))
  }

  /** Flushing a full buffer keeps the loop state. */
  lemma StreamedFlush(target: Collection, docs: seq<Document>, k: nat, done: nat, written: seq<Op>)
    requires k >= 1 && Streamed(target, docs, k, done, written) && done + k <= |docs|
    ensures Streamed(target, docs, k, done + k, written + [BulkWrite(target, docs[done..done + k])])
  {
    FlushStep(target, docs, k, done, done + k);
  }

  /** After the last record, flushing what is left of the buffer completes
      the bulk writes of the whole document sequence. */
  lemma StreamedFinish(target: Collection, docs: seq<Document>, k: nat, done: nat, written: seq<Op>)
    requires k >= 1 && Streamed(target, docs, k, done, written) && |docs| - done < k
    ensures Writes(target, Chunks(docs, k)) ==
      written + if done < |docs| then [BulkWrite(target, docs[done..])] else []
  {
    assert docs[..|docs|] == docs;
    if done < |docs| {
      FlushStep(target, docs, k, done, |docs|);
    } else {
      assert docs[..done] == docs;
    }
  }

  /** The run succeeds exactly when the name is registered and its file
      exists and has a header; a failed run issues no bulk write, and an
      unknown name issues no operation at all. */
  lemma IngestOutcome(reg: Registry, dbCheck: bool, colName: string, bufferSize: int, files: Files)
    requires reg.Valid()
    ensures var r := Ingest(reg, dbCheck, colName, bufferSize, files);
      r.outcome == Pass <==>
        colName in reg.entries && reg.entries[colName].path in files && |files[reg.entries[colName].path]| >= 1
    ensures var r := Ingest(reg, dbCheck, colName, bufferSize, files);
      r.outcome.Fail? ==> Batches(r.ops) == []
    ensures colName !in reg.entries ==>
      Ingest(reg, dbCheck, colName, bufferSize, files) == Run([], Fail(KeyError(colName)))
  {
    var r := Ingest(reg, dbCheck, colName, bufferSize, files);
    if r.outcome.Fail? && colName in reg.entries {
      var cols := if dbCheck then reg.Cols() else [];
      BatchesOfDropsAndWrites(cols, Collection(colName), []);
      assert r.ops == DropAll(cols) + Writes(Collection(colName), []);
    }
  }

  /** The batches of a successful run are the chunks of the data documents. */
  lemma IngestBatches(reg: Registry, dbCheck: bool, colName: string, bufferSize: int, files: Files)
    requires reg.Valid()
    requires Ingest(reg, dbCheck, colName, bufferSize, files).outcome == Pass
    ensures var rows := files[reg.entries[colName].path];
      Batches(Ingest(reg, dbCheck, colName, bufferSize, files).ops) ==
        Chunks(DataDocuments(rows[0], rows[1..]), BatchSize(bufferSize))
  {
    var rows := files[reg.entries[colName].path];
    var cols := if dbCheck then reg.Cols() else [];
    var chunks := Chunks(DataDocuments(rows[0], rows[1..]), BatchSize(bufferSize));
    BatchesOfDropsAndWrites(cols, Collection(colName), chunks);
    assert Ingest(reg, dbCheck, colName, bufferSize, files).ops == DropAll(cols) + Writes(Collection(colName), chunks);
  }

  /** Every record after the header goes into exactly one bulk write, the
      writes in order give back the records in file order, and the header
      record is never written. */
  lemma IngestRowsInOrder(reg: Registry, dbCheck: bool, colName: string, bufferSize: int, files: Files)
    requires reg.Valid()
    requires Ingest(reg, dbCheck, colName, bufferSize, files).outcome == Pass
    ensures var rows := files[reg.entries[colName].path];
      var written := Flatten(Batches(Ingest(reg, dbCheck, colName, bufferSize, files).ops));
      |written| == |rows| - 1 &&
      forall i :: 0 <= i < |written| ==> written[i] == ToDocument(rows[0], rows[i + 1])
  {
    var rows := files[reg.entries[colName].path];
    IngestBatches(reg, dbCheck, colName, bufferSize, files);
    ChunksFlatten(DataDocuments(rows[0], rows[1..]), BatchSize(bufferSize));
  }

  /** No bulk write is empty; every write but the last carries exactly the
      batch size, the last between one and the batch size, and the number
      of data records is (writes - 1) * batch size + size of the last write. */
  lemma IngestBatchSizes(reg: Registry, dbCheck: bool, colName: string, bufferSize: int, files: Files)
    requires reg.Valid()
    requires Ingest(reg, dbCheck, colName, bufferSize, files).outcome == Pass
    ensures var b := Batches(Ingest(reg, dbCheck, colName, bufferSize, files).ops);
      var k := BatchSize(bufferSize);
      forall i :: 0 <= i < |b| ==> 1 <= |b[i]| <= k && (i < |b| - 1 ==> |b[i]| == k)
    ensures var b := Batches(Ingest(reg, dbCheck, colName, bufferSize, files).ops);
      var rows := files[reg.entries[colName].path];
      |b| > 0 ==> |rows| - 1 == (|b| - 1) * BatchSize(bufferSize) + |b[|b| - 1]|
  {
    var rows := files[reg.entries[colName].path];
    IngestBatches(reg, dbCheck, colName, bufferSize, files);
    ChunksSizes(DataDocuments(rows[0], rows[1..]), BatchSize(bufferSize));
  }

  /** With n data records the run issues ceil(n / batch size) bulk writes:
      none at all when the file holds only its header. */
  lemma IngestBatchCount(reg: Registry, dbCheck: bool, colName: string, bufferSize: int, files: Files)
    requires reg.Valid()
    requires Ingest(reg, dbCheck, colName, bufferSize, files).outcome == Pass
    ensures var rows := files[reg.entries[colName].path];
      |Batches(Ingest(reg, dbCheck, colName, bufferSize, files).ops)| == CeilDiv(|rows| - 1, BatchSize(bufferSize))
    ensures |files[reg.entries[colName].path]| == 1 ==>
      Batches(Ingest(reg, dbCheck, colName, bufferSize, files).ops) == []
  {
    var rows := files[reg.entries[colName].path];
    var docs := DataDocuments(rows[0], rows[1..]);
    IngestBatches(reg, dbCheck, colName, bufferSize, files);
    ChunksCount(docs, BatchSize(bufferSize));
    if |rows| == 1 {
      assert docs == [];
    }
  }

  /** With `db_check` the run first drops every registered collection, in
      key order, not only the target; without it nothing is dropped. Every
      bulk write goes to the named collection. */
  lemma IngestDrops(reg: Registry, dbCheck: bool, colName: string, bufferSize: int, files: Files)
    requires reg.Valid()
    requires colName in reg.entries
    ensures var ops := Ingest(reg, dbCheck, colName, bufferSize, files).ops;
      forall i :: 0 <= i < |ops| ==>
        (ops[i].Drop? <==> dbCheck && i < |reg.keys|) &&
        (ops[i].Drop? ==> ops[i].target == Collection(reg.keys[i])) &&
        (ops[i].BulkWrite? ==> ops[i].target == Collection(colName))
    ensures var ops := Ingest(reg, dbCheck, colName, bufferSize, files).ops;
      dbCheck ==> |ops| >= |reg.keys| && ops[..|reg.keys|] == DropAll(reg.Cols())
  {
  }

  /** The drops come before the file is opened: with `db_check`, a run that
      fails on a missing or empty file has still emptied every registered
      collection, and without it a failed run leaves every collection as it
      was. */
  lemma IngestFailureStillDrops(reg: Registry, dbCheck: bool, colName: string, bufferSize: int, files: Files,
                                log: seq<Op>, c: Collection)
    requires reg.Valid()
    requires colName in reg.entries
    requires Ingest(reg, dbCheck, colName, bufferSize, files).outcome.Fail?
    ensures Stored(log + Ingest(reg, dbCheck, colName, bufferSize, files).ops, c) ==
      if dbCheck && c.name in reg.entries then [] else Stored(log, c)
  {
    var cols := if dbCheck then reg.Cols() else [];
    assert Ingest(reg, dbCheck, colName, bufferSize, files).ops == DropAll(cols);
    StoredDropAll(log, cols, c);
  }

  /** After a successful run the target holds the documents of the data
      records after what it held before, or exactly them when `db_check`
      is set; with `db_check` every other registered collection is empty,
      without it every other collection is untouched. */
  lemma IngestFinalContents(reg: Registry, dbCheck: bool, colName: string, bufferSize: int, files: Files,
                            log: seq<Op>, c: Collection)
    requires reg.Valid()
    requires Ingest(reg, dbCheck, colName, bufferSize, files).outcome == Pass
    ensures var rows := files[reg.entries[colName].path];
      var after := Stored(log + Ingest(reg, dbCheck, colName, bufferSize, files).ops, c);
      var before := if dbCheck && c.name in reg.entries then [] else Stored(log, c);
      after == if c.name == colName then before + DataDocuments(rows[0], rows[1..]) else before
  {
    var rows := files[reg.entries[colName].path];
    var docs := DataDocuments(rows[0], rows[1..]);
    var k := BatchSize(bufferSize);
    var target := Collection(colName);
    var cols := if dbCheck then reg.Cols() else [];
    var ops := Ingest(reg, dbCheck, colName, bufferSize, files).ops;
    assert ops == DropAll(cols) + Writes(target, Chunks(docs, k));
    assert log + ops == (log + DropAll(cols)) + Writes(target, Chunks(docs, k));
    StoredDropAll(log, cols, c);
    StoredWrites(log + DropAll(cols), target, Chunks(docs, k), c);
    ChunksFlatten(docs, k);
  }

  class CsvToMongoDB {
    var collections: Registry
    var targetColName: string
    var targetColObject: Option<Collection>
    var csvProperty: CsvProperty
    var dbCheck: bool
    const db: Database

    ghost predicate Valid()
      reads this
    {
      collections.Valid()
    }

    /** Registers every name of `csvPath` with the handle of the collection
        of that name and the name's path; the read settings start at their
        defaults and no target is selected. */
    constructor (db: Database, csvPath: seq<(string, string)>, dbCheck: bool := false)
      requires forall i, j :: 0 <= i < j < |csvPath| ==> csvPath[i].0 != csvPath[j].0
      ensures Valid()
      ensures this.db == db && this.dbCheck == dbCheck
      ensures targetColName == "" && targetColObject == None
      ensures GetCsvProperty() == CsvProperty("\n", "utf-8", ",")
      ensures collections.keys == Names(csvPath)
      ensures forall i :: 0 <= i < |csvPath| ==>
        csvPath[i].0 in collections.entries &&
        collections.entries[csvPath[i].0] == Entry(Collection(csvPath[i].0), csvPath[i].1)
    {
      targetColName := "";
      targetColObject := None;
      csvProperty := DefaultCsvProperty;
      this.db := db;
      var reg := Registry([], map[]);
      for i := 0 to |csvPath|
        invariant reg.Valid()
        invariant reg.keys == Names(csvPath[..i])
        invariant forall j :: 0 <= j < i ==>
          csvPath[j].0 in reg.entries && reg.entries[csvPath[j].0] == Entry(Collection(csvPath[j].0), csvPath[j].1)
      {
        var name := csvPath[i].0;
        assert name !in reg.keys by {
          forall j | 0 <= j < i ensures reg.keys[j] != name {
            assert reg.keys[j] == csvPath[j].0;
          }
        }
        reg := Registry(reg.keys + [name], reg.entries[name := Entry(Collection(name), csvPath[i].1)]);
        assert csvPath[..i + 1] == csvPath[..i] + [csvPath[i]];
      }
      assert csvPath[..|csvPath|] == csvPath;
      collections := reg;
      this.dbCheck := dbCheck;
    }

    /** Drops every registered collection, in key order. */
    method AssureEmpty()
      requires Valid()
      modifies db
      ensures db.log == old(db.log) + DropAll(collections.Cols())
      ensures forall k :: k in collections.entries ==> Stored(db.log, Collection(k)) == []
    {
      var cols := collections.Cols();
      for i := 0 to |collections.keys|
        invariant db.log == old(db.log) + DropAll(cols[..i])
      {
        db.Drop(collections.entries[collections.keys[i]].col);
        assert DropAll(cols[..i + 1]) == DropAll(cols[..i]) + [Op.Drop(cols[i])];
      }
      assert cols[..|cols|] == cols;
      forall k | k in collections.entries
        ensures Stored(db.log, Collection(k)) == []
      {
        StoredDropAll(old(db.log), cols, Collection(k));
      }
    }

    /** Selects the target collection. The name is recorded before the
        lookup, so it changes even when the lookup raises KeyError; the
        handle changes only when the name is registered. */
    method SetTargetCol(colName: string) returns (res: Outcome<Error>)
      modifies this`targetColName, this`targetColObject
      ensures targetColName == colName
      ensures colName in collections.entries ==>
        res == Pass && targetColObject == Some(collections.entries[colName].col)
      ensures colName !in collections.entries ==>
        res == Fail(KeyError(colName)) && targetColObject == old(targetColObject)
    {
      targetColName := colName;
      if colName !in collections.entries {
        return Fail(KeyError(colName));
      }
      targetColObject := Some(collections.entries[colName].col);
      res := Pass;
    }

    /** Replaces all three read settings; each defaults to its initial value. */
    method SetCsvProperty(newline: string := "\n", encoding: string := "utf-8", delimiter: string := ",")
      modifies this`csvProperty
      ensures GetCsvProperty() == CsvProperty(newline, encoding, delimiter)
    {
      csvProperty := CsvProperty(newline, encoding, delimiter);
    }

    function GetCsvProperty(): CsvProperty
      reads this
    {
      csvProperty
    }

    /** Streams the records of the file registered under `colName` into its
        collection: the operations issued and the outcome are those of
        `Ingest`. */
    method InsertData(colName: string, files: Files, bufferSize: int := 10000) returns (res: Outcome<Error>)
      requires Valid()
      modifies this`targetColName, this`targetColObject, db
      ensures Valid()
      ensures targetColName == colName
      ensures colName in collections.entries ==> targetColObject == Some(collections.entries[colName].col)
      ensures colName !in collections.entries ==> targetColObject == old(targetColObject)
      ensures var run := Ingest(collections, dbCheck, colName, bufferSize, files);
        db.log == old(db.log) + run.ops && res == run.outcome
    {
      res := SetTargetCol(colName);
      if res.Fail? {
        return;
      }
      res := Load(colName, files, bufferSize);
    }

    /** `insert_data` once the name is found: drop every registered
        collection when `db_check` is set, then load the name's file. */
    method Load(colName: string, files: Files, bufferSize: int) returns (res: Outcome<Error>)
      requires Valid() && colName in collections.entries
      modifies db
      ensures var run := Ingest(collections, dbCheck, colName, bufferSize, files);
        db.log == old(db.log) + run.ops && res == run.outcome
    {
      if dbCheck {
        AssureEmpty();
      }
      res := OpenAndStream(collections.entries[colName], files, bufferSize);
    }

    /** The `with open(...)` block: open the entry's file, read the header
        and stream the remaining records into the entry's collection. */
    method OpenAndStream(e: Entry, files: Files, bufferSize: int) returns (res: Outcome<Error>)
      modifies db
      ensures db.log == old(db.log) + LoadFile(e, bufferSize, files).ops
      ensures res == LoadFile(e, bufferSize, files).outcome
    {
      if e.path !in files {
        return Fail(FileNotFound(e.path));
      }
      var rows := files[e.path];
      if |rows| == 0 {
        return Fail(StopIteration);
      }
      StreamRows(e.col, rows[0], rows[1..], bufferSize);
      res := Pass;
    }

    /** The buffered writer of `insert_data`: each data record becomes a
        document appended to the buffer; a buffer holding `bufferSize`
        documents is written as one bulk write and cleared; a non-empty
        remainder is written once at the end. */
    method StreamRows(target: Collection, header: seq<string>, dataRows: seq<seq<string>>, bufferSize: int)
      modifies db
      ensures db.log == old(db.log) + Writes(target, Chunks(DataDocuments(header, dataRows), BatchSize(bufferSize)))
    {
      ghost var docs := DataDocuments(header, dataRows);
      ghost var k := BatchSize(bufferSize);
      ghost var done: nat := 0;          // documents flushed
      ghost var written: seq<Op> := [];  // the bulk writes issued so far
      var buffer: seq<Document> := [];
      for i := 0 to |dataRows|
        invariant done + |buffer| == i && |buffer| < k
        invariant buffer == docs[done..i]
        invariant Streamed(target, docs, k, done, written)
        invariant db.log == old(db.log) + written
      {
        buffer, done, written := BufferRecord(target, header, dataRows, bufferSize, i, buffer, done, written, old(db.log));
      }
      StreamedFinish(target, docs, k, done, written);
      assert buffer == docs[done..];
      if |buffer| > 0 {
        db.BulkWrite(target, buffer);
      }
    }

    /** One pass of the loop of `insert_data`: the document of record `i`
        joins the buffer, and a buffer that reaches `bufferSize` documents
        is written as one bulk write and cleared. `done` documents were
        flushed before the call, by the bulk writes `written`, which the
        database log holds after `base`. */
    method BufferRecord(target: Collection, header: seq<string>, dataRows: seq<seq<string>>, bufferSize: int,
                        i: nat, buffer: seq<Document>, ghost done: nat, ghost written: seq<Op>, ghost base: seq<Op>)
      returns (rest: seq<Document>, ghost flushed: nat, ghost issued: seq<Op>)
      requires i < |dataRows|
      requires done + |buffer| == i && |buffer| < BatchSize(bufferSize)
      requires buffer == DataDocuments(header, dataRows)[done..i]
      requires Streamed(target, DataDocuments(header, dataRows), BatchSize(bufferSize), done, written)
      requires db.log == base + written
      modifies db
      ensures flushed + |rest| == i + 1 && |rest| < BatchSize(bufferSize)
      ensures rest == DataDocuments(header, dataRows)[flushed..i + 1]
      ensures Streamed(target, DataDocuments(header, dataRows), BatchSize(bufferSize), flushed, issued)
      ensures db.log == base + issued
    {
      ghost var docs := DataDocuments(header, dataRows);
      ghost var k := BatchSize(bufferSize);
      var drug := ToDocument(header, dataRows[i]);
      BufferStep(header, dataRows, done, i);
      rest, flushed, issued := buffer + [drug], done, written;
      if |rest| >= bufferSize {
        assert rest == docs[done..done + k];
        StreamedFlush(target, docs, k, done, written);
        db.BulkWrite(target, rest);
        rest, flushed, issued := [], done + k, written + [BulkWrite(target, docs[done..done + k])];
      }
    }
  }
}
