# CsvToMongoDB in Dafny

A model of the `CsvToMongoDB` class of `Tool/data_store.py`, which loads CSV
files into MongoDB collections. The class keeps a registry from collection name
to (collection handle, CSV path), a set of read settings (line terminator,
encoding, delimiter), a "target" collection, and a `db_check` flag. Its
`insert_data` method reads one file's header, turns every later record into a
document with `dict(zip(header, row))`, and adds the documents to a buffer. The
buffer is written as one unordered bulk write whenever it holds `buffer_size`
documents, and once more at the end if it is not empty. When `db_check` is set,
every registered collection is dropped first.

Modules:

- `Wrappers` (`wrappers.dfy`): `Option` and `Outcome`.
- `Documents` (`documents.dfy`): `Zip`, `DictOf` and `ToDocument`, which model
  Python's `zip` and `dict` and the row-to-document step.
- `Batching` (`batching.dfy`): `Chunks`, the sequence of batches that the
  buffer's threshold-flush rule produces, and `Flatten`.
- `Mongo` (`mongo.dfy`): the database as a log of operations, either
  `BulkWrite(collection, docs)` or `Drop(collection)`. It has a `Database`
  class whose methods append to the log. `Stored` replays the log and gives
  the documents a collection holds.
- `CsvToMongo` (`csv_to_mongodb.dfy`): the class `CsvToMongoDB`, and
  `Ingest`, the value-level specification of one `insert_data` call together
  with its lemmas. `LoadFile` specifies the `with open(...)` block on its
  own. The class's methods follow the same split: `InsertData` does the
  lookup, `Load` the optional drops, `OpenAndStream` the file, `StreamRows`
  the buffered loop, and `BufferRecord` one pass of that loop.
- `AutoInsert` (`auto_insert.dfy`): the constructor's `auto_insert` loop and
  the finding below.

The file system is a parameter, `files: map<path, records>`. Each file is
already split into records and fields. A path that is missing from `files`
stands for a file that `open` cannot open. The connection to the server is the
`Database` object that the constructor receives.

Behaviour of the code worth noting:

- Every column is kept: a document holds every header name that has a value
  in the row.
- A row that is shorter or longer than the header is not an error. `zip`
  silently truncates to the shorter of the two.
- A repeated header name keeps the value of its later position.
- An empty file raises `StopIteration` from `next(reader)`. An empty header
  record is accepted.
- `set_target_col` records the name before the lookup. So `target_col_name`
  changes even when the lookup raises `KeyError`, and only
  `target_col_object` stays as it was.
- `buffer_size < 1` is not rejected. `len(buffer) >= buffer_size` then holds
  after every append, so every document is written on its own (`BatchSize`).

## Model

| member | source | states |
|---|---|---|
| `Documents.Zip` | Tool/data_store.py:97 | `zip(header, row)` has min(len(header), len(row)) pairs, and pair i is (header[i], row[i]) |
| `Documents.DictOf` | Tool/data_store.py:97 | `dict(pairs)`: a key is present iff some pair has it as its first component (values: see `DictOfFields`) |
| `Documents.DictOfFields` | Tool/data_store.py:97 | `dict(pairs)` has exactly the first components as keys, and each key holds the value of its last pair |
| `Documents.ToDocument` | Tool/data_store.py:97 | `dict(zip(header, row))`; no contract of its own, see `ToDocumentFields` and the lemmas after it |
| `Documents.ToDocumentKeys` | Tool/data_store.py:97 | The document's keys are exactly the header names among the first min(len(header), len(row)) positions |
| `Documents.ToDocumentFields` | Tool/data_store.py:97 | The document's keys are exactly the header names among the first min(len(header), len(row)) positions. A name's value is the raw row field at the name's last position among those |
| `Documents.ToDocumentRoundTrip` | Tool/data_store.py:97 | With distinct names and a full-length row, the keys are the header names and reading each name back gives the row, empty fields included |
| `Documents.ToDocumentTruncates` | Tool/data_store.py:97 | A name past the end of a short row is absent from the document unless it also occurs earlier in the header. No error is raised |
| `Documents.ToDocumentLaterWins` | Tool/data_store.py:97 | For a repeated header name, the value at the later position wins |
| `Batching.Chunks` | Tool/data_store.py:98-106 | The batches the buffer's flush rule cuts a document sequence into; no contract of its own, see `ChunksFlatten`, `ChunksSizes`, `ChunksCount` and `StreamRows` |
| `Batching.ChunksFlatten` | Tool/data_store.py:96-106 | The batches, concatenated in order, give back the documents: each one appears exactly once, in source order |
| `Batching.ChunksSizes` | Tool/data_store.py:99-106 | No batch is empty. Every batch except the last has exactly k documents, and the last has 1..k. n = (batches - 1) * k + size of the last batch |
| `Batching.ChunksCount` | Tool/data_store.py:98-106 | The number of batches is ceil(n / k), so there are none for n = 0 |
| `Batching.ChunksSnoc` | Tool/data_store.py:99-106 | A flush of a 1..k buffer after m full batches appends exactly that buffer as the next batch |
| `Mongo.Stored` | Tool/data_store.py:49-106 | The documents a collection holds after the log, in the log's view; no contract of its own, see `StoredSnoc`, `StoredWrites`, `StoredDropAll` and the first line under Left out |
| `Mongo.StoredSnoc` | Tool/data_store.py:49-101 | One more operation: a bulk write to c appends its documents to what c holds, a drop of c empties it, and any other operation leaves c alone |
| `Mongo.StoredWrites` | Tool/data_store.py:100-106 | In the log's view, bulk writes to c append their documents in order to what c holds. Other collections are unchanged |
| `Mongo.StoredDropAll` | Tool/data_store.py:48-49 | After dropping a list of collections, each one in the list is empty and every other collection is unchanged |
| `Mongo.BatchesOfDropsAndWrites` | Tool/data_store.py:88-106 | The bulk writes of a run made of drops followed by writes are exactly the written batches |
| `Mongo.Database.BulkWrite` | Tool/data_store.py:101 | `bulk_write` appends one unordered bulk write to the log, and the collection gains those documents |
| `Mongo.Database.Drop` | Tool/data_store.py:49 | `drop` appends one drop to the log, after which the collection is empty |
| `CsvToMongo.Registry.Cols` | Tool/data_store.py:48 | The handles visited by `collections.items()` are one per key, and they are exactly the collections of the registered names |
| `CsvToMongo.BatchSize` | Tool/data_store.py:99 | The flush threshold is at least 1, and it equals `buffer_size` when `buffer_size >= 1` |
| `CsvToMongo.DataDocuments` | Tool/data_store.py:96-98 | One document per data record, in record order; no contract of its own, see `IngestRowsInOrder` |
| `CsvToMongo.Ingest` | Tool/data_store.py:83-106 | What one `insert_data` call issues and how it ends: the lookup, the drops, then `LoadFile`; no contract of its own, see the `Ingest*` lemmas and `InsertData` |
| `CsvToMongo.LoadFile` | Tool/data_store.py:92-106 | The `with open(...)` block for one registry entry; no contract of its own, see `OpenAndStream` and the `Ingest*` lemmas |
| `CsvToMongo.FlushStep` | Tool/data_store.py:99-106 | After full batches, flushing a buffer of 1..k documents appends exactly one bulk write of that buffer. A full buffer leaves full batches behind |
| `CsvToMongo.StreamedFlush` | Tool/data_store.py:99-102 | Flushing a full buffer keeps the loop state: the batches flushed so far are full, and their bulk writes are the ones issued |
| `CsvToMongo.StreamedFinish` | Tool/data_store.py:104-106 | After the last record, writing the non-empty remainder (and nothing when it is empty) completes the bulk writes of all the chunks |
| `CsvToMongo.IngestOutcome` | Tool/data_store.py:83-94 | A run succeeds iff the name is registered and its file exists and has a header. A failed run writes nothing. An unknown name issues no operation (KeyError) |
| `CsvToMongo.IngestBatches` | Tool/data_store.py:94-106 | The bulk writes of a successful run are the chunks of the data documents, using the effective batch size |
| `CsvToMongo.IngestRowsInOrder` | Tool/data_store.py:94-106 | The concatenated writes hold one document per record after the header, in file order. The header record is never written |
| `CsvToMongo.IngestBatchSizes` | Tool/data_store.py:99-106 | No bulk write is empty. Every write but the last carries exactly the batch size, and the last carries 1..batch size |
| `CsvToMongo.IngestBatchCount` | Tool/data_store.py:98-106 | ceil(n / batch size) bulk writes are issued, so a file holding only its header gets none |
| `CsvToMongo.IngestDrops` | Tool/data_store.py:88-89 | With `db_check`, the run's first len(keys) operations are exactly one drop of every registered collection in key order, not only the target. Without it nothing is dropped. All writes go to the target |
| `CsvToMongo.IngestFailureStillDrops` | Tool/data_store.py:88-94 | A run that fails after the lookup (missing file or empty file) has still emptied every registered collection when `db_check` is set. Without `db_check` it changes nothing |
| `CsvToMongo.IngestFinalContents` | Tool/data_store.py:88-106 | After success the target holds its earlier documents plus the data documents; with `db_check` it holds exactly the data documents. With `db_check`, every other registered collection is empty; otherwise the others are untouched |
| `CsvToMongo.CsvToMongoDB.constructor` | Tool/data_store.py:29-38 | `collections` has exactly the names of `csv_path` in order, each with handle `db[name]` and its path. The read settings are the defaults `'\n'`, `'utf-8'`, `','`. No target is set |
| `CsvToMongo.CsvToMongoDB.AssureEmpty` | Tool/data_store.py:46-49 | Drops every registered collection in key order. Afterwards each one is empty |
| `CsvToMongo.CsvToMongoDB.SetTargetCol` | Tool/data_store.py:51-57 | Sets the name in all cases. When the name is registered, sets the handle and returns Pass. Otherwise it raises KeyError and the handle stays as it was |
| `CsvToMongo.CsvToMongoDB.SetCsvProperty` | Tool/data_store.py:59-74 | After the call, `GetCsvProperty` returns exactly the three values passed, and each value defaults to its initial setting |
| `CsvToMongo.CsvToMongoDB.GetCsvProperty` | Tool/data_store.py:69-74 | Returns the current read settings; no contract of its own, see `SetCsvProperty` and the constructor |
| `CsvToMongo.CsvToMongoDB.InsertData` | Tool/data_store.py:76-106 | The operations issued and the outcome are those of `Ingest`, and the target fields are set as `set_target_col` sets them |
| `CsvToMongo.CsvToMongoDB.Load` | Tool/data_store.py:88-106 | Once the name is found, the operations issued and the outcome are those of `Ingest`: the drops under `db_check`, then the file's |
| `CsvToMongo.CsvToMongoDB.OpenAndStream` | Tool/data_store.py:92-106 | Opening, reading the header and streaming issue exactly the operations of `LoadFile` and end with its outcome |
| `CsvToMongo.CsvToMongoDB.BufferRecord` | Tool/data_store.py:96-102 | One pass of the loop keeps its state: the buffer is the data documents after the last flush, it stays below the batch size, and the log holds exactly the full batches' bulk writes |
| `CsvToMongo.CsvToMongoDB.StreamRows` | Tool/data_store.py:94-106 | The buffered loop issues exactly one bulk write per chunk of the data documents, in order |
| `AutoInsert.InsertEach` | Tool/data_store.py:42-43 | `insert_data` for each name in turn, stopping at the first error; no contract of its own, see `InsertEachStores` |
| `AutoInsert.AutoInsertAsWritten` | Tool/data_store.py:39-43 | The `auto_insert` loop as written; no contract of its own, see `AutoInsertAsWrittenKeepsOnlyLast` |
| `AutoInsert.AutoInsertFixed` | Tool/data_store.py:39-49 | The loop with a single clear before it; no contract of its own, see `AutoInsertFixedFillsEvery` |
| `AutoInsert.InsertEachStores` | Tool/data_store.py:42-43 | Without drops, inserting distinct names in turn appends each file's documents to its own collection and nothing else |
| `AutoInsert.AutoInsertAsWrittenKeepsOnlyLast` | Tool/data_store.py:39-43 | As written, with `db_check` set, every registered collection except the last one is empty after the loop |
| `AutoInsert.AutoInsertAsWrittenLosesFirst` | Tool/data_store.py:113-117 | With the entry point's two-collection setup, the first collection ends up empty even though its file has a data record |
| `AutoInsert.AutoInsertFixedFillsEvery` | Tool/data_store.py:39-49 | If the collections are cleared once before the loop, every registered collection ends up holding exactly its own file's documents |

## Findings

| source | as written | input that shows it | evidently intended | confidence | as-written member | corrected member |
|---|---|---|---|---|---|---|
| Tool/data_store.py:39-43, 88-89 | With `db_check`, the `auto_insert` loop calls `insert_data` once per collection. Each call runs `assure_empty`, which drops every registered collection, including those that earlier calls filled | `csv_path` with the two entries `offsides` and `twosides`, `db_check=True`, `auto_insert=True` (the entry point's own call). Each file has one data record. Afterwards `offsides` is empty | The registered collections are cleared once, before the loop, and then every collection keeps its own file's documents | high (not executed) | `AutoInsert.AutoInsertAsWrittenKeepsOnlyLast` | `AutoInsert.AutoInsertFixedFillsEvery` |

## Left out

- `Stored` is the view of the log, not of the server: it lists a
  collection's documents in the order they were sent, exactly as sent. The
  server keeps no order among the inserts of an unordered bulk write
  (`ordered=False`), a collection has no guaranteed order, and `InsertOne`
  adds an `_id` field to every inserted dict. So the ordered contents stated
  by `StoredWrites`, `IngestFinalContents`, `InsertEachStores` and
  `AutoInsertFixedFillsEvery` are what was sent. Only
  `multiset(Stored(...))` with `_id` removed reflects what the server holds.
- The MongoDB connection (`MongoClient(db_url, port)`, database name): the
  constructor receives the `Database` object. Unordered-write failures and
  any other server-side errors are not modelled.
- Opening the file, newline handling, decoding and the `csv.reader`
  tokenizer (Tool/data_store.py:92-93): records arrive already split. So the
  read settings are stored and returned but do not affect the model.
- `get_csv_property` returns the settings dictionary itself, so a caller
  could mutate it. The model returns a value, so this aliasing is not
  modelled.
- Timing and logging (Tool/data_store.py:44, 90-91, 108): these are
  wall-clock reads and telemetry.
- The `target_col_object is None` check (Tool/data_store.py:84-85) is dead
  code, because `set_target_col` has either raised or set the handle. It is
  not modelled.
- The constructor's `auto_insert` branch is modelled as the functions of
  `AutoInsert`, not inside the constructor. The constructor takes no
  `auto_insert` argument.
- The field order of a document (Python dicts keep insertion order) is not
  modelled. A document is a `map`.
- `csv_path` is a sequence of (name, path) pairs with distinct names,
  standing for the dictionary's items in order.
- The `__main__` block's logging setup and hard-coded paths: these are
  configuration, not core logic.
