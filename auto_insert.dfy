/**
 * The `auto_insert` branch of the constructor: `insert_data(name)` for every
 * registered name in key order, with the default buffer size. An error ends
 * the loop.
 *
 * As written, every `insert_data` call with `db_check` set drops every
 * registered collection, so each call empties the collections the earlier
 * calls filled, and only the last collection keeps its documents
 * (`AutoInsertAsWrittenKeepsOnlyLast`). `AutoInsertFixed` drops the
 * registered collections once, before the loop, and then inserts without
 * dropping; after it every collection holds the documents of its own file
 * (`AutoInsertFixedFillsEvery`).
 */
module AutoInsert {
  import opened Wrappers
  import opened Documents
  import opened Mongo
  import opened CsvToMongo

  const DefaultBufferSize := 10000

  /** The documents `insert_data` writes for a file: one per record after
      the header. */
  function FileDocuments(rows: seq<seq<string>>): seq<Document>
  {
    if |rows| == 0 then [] else DataDocuments(rows[0], rows[1..])
  }

  /** `insert_data(name)` for each of `names` in order, stopping at the first
      failed call. */
  function InsertEach(reg: Registry, dbCheck: bool, files: Files, names: seq<string>): Run
    requires reg.Valid()
    decreases |names|
  {
    if |names| == 0 then Run([], Pass)
    else
      var init := InsertEach(reg, dbCheck, files, names[..|names| - 1]);
      if init.outcome.Fail? then init
      else
        var last := Ingest(reg, dbCheck, names[|names| - 1], DefaultBufferSize, files);
        Run(init.ops + last.ops, last.outcome)
  }

  /** The loop of the constructor as written. */
  function AutoInsertAsWritten(reg: Registry, dbCheck: bool, files: Files): Run
    requires reg.Valid()
  {
    InsertEach(reg, dbCheck, files, reg.keys)
  }

  /** The loop as evidently intended: clear once, then insert every file. */
  function AutoInsertFixed(reg: Registry, dbCheck: bool, files: Files): Run
    requires reg.Valid()
  {
    var drops := if dbCheck then DropAll(reg.Cols()) else [];
    var rest := InsertEach(reg, false, files, reg.keys);
    Run(drops + rest.ops, rest.outcome)
  }

  /** A successful loop found every file of `names`. */
  lemma {:induction false} InsertEachPass(reg: Registry, dbCheck: bool, files: Files, names: seq<string>)
    requires reg.Valid()
    requires InsertEach(reg, dbCheck, files, names).outcome == Pass
    ensures forall j :: 0 <= j < |names| ==>
      names[j] in reg.entries && reg.entries[names[j]].path in files
    decreases |names|
  {
    if |names| > 0 {
      var init := names[..|names| - 1];
      InsertEachPass(reg, dbCheck, files, init);
      IngestOutcome(reg, dbCheck, names[|names| - 1], DefaultBufferSize, files);
      forall j | 0 <= j < |names| - 1
        ensures names[j] in reg.entries && reg.entries[names[j]].path in files
      {
        assert names[j] == init[j];
      }
    }
  }

  /** Without dropping, a successful loop over distinct names appends to each
      named collection the documents of its file and leaves every other
      collection alone. */
  lemma {:induction false} InsertEachStores(reg: Registry, files: Files, names: seq<string>, log: seq<Op>, c: Collection)
    requires reg.Valid()
    requires forall i, j :: 0 <= i < j < |names| ==> names[i] != names[j]
    requires InsertEach(reg, false, files, names).outcome == Pass
    ensures c.name in names ==> c.name in reg.entries && reg.entries[c.name].path in files
    ensures Stored(log + InsertEach(reg, false, files, names).ops, c) ==
      if c.name in names then Stored(log, c) + FileDocuments(files[reg.entries[c.name].path])
      else Stored(log, c)
    decreases |names|
  {
    InsertEachPass(reg, false, files, names);
    if |names| > 0 {
      var init := names[..|names| - 1];
      var name := names[|names| - 1];
      var initRun := InsertEach(reg, false, files, init);
      var lastRun := Ingest(reg, false, name, DefaultBufferSize, files);
      LastOfDistinct(names);
      assert InsertEach(reg, false, files, names).ops == initRun.ops + lastRun.ops;
      InsertEachStores(reg, files, init, log, c);
      assert log + (initRun.ops + lastRun.ops) == (log + initRun.ops) + lastRun.ops;
      IngestFinalContents(reg, false, name, DefaultBufferSize, files, log + initRun.ops, c);
    } else {
      assert log + InsertEach(reg, false, files, names).ops == log;
    }
  }

  /** The last element of a sequence of distinct elements does not occur
      before it. */
  lemma LastOfDistinct<T>(s: seq<T>)
    requires |s| > 0
    requires forall i, j :: 0 <= i < j < |s| ==> s[i] != s[j]
    ensures forall x :: x in s <==> x in s[..|s| - 1] || x == s[|s| - 1]
    ensures s[|s| - 1] !in s[..|s| - 1]
  {
    assert s == s[..|s| - 1] + [s[|s| - 1]];
  }

  /** As written, with `db_check` set, a successful loop leaves every
      registered collection except the last one empty: each call dropped the
      documents of the calls before it. */
  lemma AutoInsertAsWrittenKeepsOnlyLast(reg: Registry, files: Files, log: seq<Op>, c: Collection)
    requires reg.Valid()
    requires |reg.keys| >= 1
    requires AutoInsertAsWritten(reg, true, files).outcome == Pass
    requires c.name in reg.entries
    ensures var lastName := reg.keys[|reg.keys| - 1];
      Stored(log + AutoInsertAsWritten(reg, true, files).ops, c) ==
        if c.name == lastName then FileDocuments(files[reg.entries[lastName].path]) else []
  {
    var names := reg.keys;
    var lastName := names[|names| - 1];
    var initRun := InsertEach(reg, true, files, names[..|names| - 1]);
    var lastRun := Ingest(reg, true, lastName, DefaultBufferSize, files);
    assert log + (initRun.ops + lastRun.ops) == (log + initRun.ops) + lastRun.ops;
    IngestFinalContents(reg, true, lastName, DefaultBufferSize, files, log + initRun.ops, c);
  }

  /** The two-file configuration of the module's entry point: after the loop
      as written, the first collection is empty although its file has a
      data record. */
  lemma AutoInsertAsWrittenLosesFirst()
    ensures var reg := Registry(["offsides", "twosides"],
                                map["offsides" := Entry(Collection("offsides"), "OFFSIDES.csv"),
                                    "twosides" := Entry(Collection("twosides"), "TWOSIDES.csv")]);
      var files := map["OFFSIDES.csv" := [["drug"], ["a"]], "TWOSIDES.csv" := [["drug"], ["b"]]];
      reg.Valid() &&
      AutoInsertAsWritten(reg, true, files).outcome == Pass &&
      |FileDocuments(files["OFFSIDES.csv"])| == 1 &&
      Stored(AutoInsertAsWritten(reg, true, files).ops, Collection("offsides")) == []
  {
    var reg := Registry(["offsides", "twosides"],
                        map["offsides" := Entry(Collection("offsides"), "OFFSIDES.csv"),
                            "twosides" := Entry(Collection("twosides"), "TWOSIDES.csv")]);
    var files := map["OFFSIDES.csv" := [["drug"], ["a"]], "TWOSIDES.csv" := [["drug"], ["b"]]];
    assert reg.Valid();
    assert reg.keys[..1] == ["offsides"];
    assert reg.keys[..1][..0] == [];
    var first := Ingest(reg, true, "offsides", DefaultBufferSize, files);
    IngestOutcome(reg, true, "offsides", DefaultBufferSize, files);
    assert first.outcome == Pass;
    assert InsertEach(reg, true, files, reg.keys[..1]).outcome == Pass;
    IngestOutcome(reg, true, "twosides", DefaultBufferSize, files);
    assert AutoInsertAsWritten(reg, true, files).outcome == Pass;
    var written := files["OFFSIDES.csv"];
    assert |FileDocuments(files["OFFSIDES.csv"])| == 1;
    AutoInsertAsWrittenKeepsOnlyLast(reg, files, [], Collection("offsides"));
    assert [] + AutoInsertAsWritten(reg, true, files).ops == AutoInsertAsWritten(reg, true, files).ops;
  }

  /** Corrected: after a successful loop every registered collection holds
      exactly the documents of its own file; without `db_check` they are
      added after what each collection held. */
  lemma AutoInsertFixedFillsEvery(reg: Registry, dbCheck: bool, files: Files, log: seq<Op>, c: Collection)
    requires reg.Valid()
    requires AutoInsertFixed(reg, dbCheck, files).outcome == Pass
    requires c.name in reg.entries
    ensures reg.entries[c.name].path in files
    ensures Stored(log + AutoInsertFixed(reg, dbCheck, files).ops, c) ==
      (if dbCheck then [] else Stored(log, c)) + FileDocuments(files[reg.entries[c.name].path])
  {
    var cols := if dbCheck then reg.Cols() else [];
    var rest := InsertEach(reg, false, files, reg.keys);
    assert AutoInsertFixed(reg, dbCheck, files).ops == DropAll(cols) + rest.ops;
    assert c.name in reg.keys;
    InsertEachStores(reg, files, reg.keys, log + DropAll(cols), c);
    ClearThenFill(log, cols, rest.ops, c, FileDocuments(files[reg.entries[c.name].path]));
    assert c in cols <==> dbCheck;
  }

  /** Drops followed by operations that append `docs` to `c`: `c` ends up
      holding `docs` after what it kept through the drops. */
  lemma ClearThenFill(log: seq<Op>, cols: seq<Collection>, ops: seq<Op>, c: Collection, docs: seq<Document>)
    requires Stored(log + DropAll(cols) + ops, c) == Stored(log + DropAll(cols), c) + docs
    ensures Stored(log + (DropAll(cols) + ops), c) == (if c in cols then [] else Stored(log, c)) + docs
  {
    assert log + (DropAll(cols) + ops) == log + DropAll(cols) + ops;
    StoredDropAll(log, cols, c);
  }
}
