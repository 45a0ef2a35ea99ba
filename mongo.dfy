/**
 * The database as the core sees it: a log of the operations issued against
 * it. `bulk_write` appends one unordered bulk insert of a list of documents
 * to a collection, `drop` empties a collection. `Stored` replays the log to
 * give the documents a collection holds because of it.
 */
module Mongo {
  import opened Documents
  import opened Batching

  /** A collection handle, `db[name]`. */
  datatype Collection = Collection(name: string)

  datatype Op =
    | BulkWrite(target: Collection, docs: seq<Document>)  // unordered insert of `docs`
    | Drop(target: Collection)

  /** The documents `c` holds after the log has been applied, oldest first:
      those written since the last drop of `c`. */
  function Stored(log: seq<Op>, c: Collection): seq<Document>
  {
    if |log| == 0 then []
    else
      var prev := Stored(log[..|log| - 1], c);
      match log[|log| - 1]
      case BulkWrite(t, docs) => if t == c then prev + docs else prev
      case Drop(t) => if t == c then [] else prev
  }

  /** One bulk write of each batch to `c`, in order. */
  function Writes(c: Collection, batches: seq<seq<Document>>): seq<Op>
  {
    seq(|batches|, i requires 0 <= i < |batches| => BulkWrite(c, batches[i]))
  }

  /** One drop of each collection, in order. */
  function DropAll(cols: seq<Collection>): seq<Op>
  {
    seq(|cols|, i requires 0 <= i < |cols| => Drop(cols[i]))
  }

  /** The document lists of the bulk writes in the log, in order. */
  function Batches(log: seq<Op>): seq<seq<Document>>
  {
    if |log| == 0 then []
    else
      var prev := Batches(log[..|log| - 1]);
      match log[|log| - 1]
      case BulkWrite(_, docs) => prev + [docs]
      case Drop(_) => prev
  }

  /** Applying one more operation: a bulk write to `d` appends its documents,
      a drop of `d` empties it, any other operation leaves it alone. */
  lemma StoredSnoc(log: seq<Op>, op: Op, d: Collection)
    ensures op.BulkWrite? ==>
      Stored(log + [op], d) == if op.target == d then Stored(log, d) + op.docs else Stored(log, d)
    ensures op.Drop? ==>
      Stored(log + [op], d) == if op.target == d then [] else Stored(log, d)
  {
    assert (log + [op])[..|log|] == log;
  }

  lemma WritesSnoc(c: Collection, batches: seq<seq<Document>>, batch: seq<Document>)
    ensures Writes(c, batches + [batch]) == Writes(c, batches) + [BulkWrite(c, batch)]
  {
    assert |Writes(c, batches + [batch])| == |batches| + 1;
  }

  /** Writing batches to `c` adds their documents, in order, to what `c`
      holds, and leaves every other collection as it was. */
  lemma {:induction false} StoredWrites(log: seq<Op>, c: Collection, batches: seq<seq<Document>>, d: Collection)
    ensures Stored(log + Writes(c, batches), d) ==
              if d == c then Stored(log, d) + Flatten(batches) else Stored(log, d)
    decreases |batches|
  {
    if |batches| == 0 {
      assert log + Writes(c, batches) == log;
    } else {
      var init := batches[..|batches| - 1];
      var last := batches[|batches| - 1];
      assert batches == init + [last];
      StoredWrites(log, c, init, d);
      WritesSnoc(c, init, last);
      assert log + Writes(c, batches) == (log + Writes(c, init)) + [BulkWrite(c, last)];
      StoredSnoc(log + Writes(c, init), BulkWrite(c, last), d);
      FlattenSnoc(init, last);
    }
  }

  lemma {:induction false} FlattenSnoc<T>(xss: seq<seq<T>>, xs: seq<T>)
    ensures Flatten(xss + [xs]) == Flatten(xss) + xs
    decreases |xss|
  {
    if |xss| == 0 {
      assert [xs] + [] == [xs];
      assert Flatten([xs]) == xs + Flatten<T>([]);
    } else {
      FlattenSnoc(xss[1..], xs);
      assert (xss + [xs])[1..] == xss[1..] + [xs];
    }
  }

  /** After dropping a list of collections, each of them is empty and every
      other collection is as it was. */
  lemma {:induction false} StoredDropAll(log: seq<Op>, cols: seq<Collection>, d: Collection)
    ensures Stored(log + DropAll(cols), d) == if d in cols then [] else Stored(log, d)
    decreases |cols|
  {
    if |cols| == 0 {
      assert log + DropAll(cols) == log;
    } else {
      var init := cols[..|cols| - 1];
      StoredDropAll(log, init, d);
      var all := log + DropAll(cols);
      assert all[..|all| - 1] == log + DropAll(init);
      assert all[|all| - 1] == Drop(cols[|cols| - 1]);
      assert cols == init + [cols[|cols| - 1]];
    }
  }

  /** The batches of drops followed by writes are exactly the written batches. */
  lemma {:induction false} BatchesOfDropsAndWrites(cols: seq<Collection>, c: Collection, batches: seq<seq<Document>>)
    ensures Batches(DropAll(cols) + Writes(c, batches)) == batches
    decreases |cols| + |batches|
  {
    var all := DropAll(cols) + Writes(c, batches);
    if |batches| > 0 {
      var init := batches[..|batches| - 1];
      BatchesOfDropsAndWrites(cols, c, init);
      assert all[..|all| - 1] == DropAll(cols) + Writes(c, init);
      assert batches == init + [batches[|batches| - 1]];
    } else if |cols| > 0 {
      var init := cols[..|cols| - 1];
      BatchesOfDropsAndWrites(init, c, batches);
      assert all[..|all| - 1] == DropAll(init) + Writes(c, batches);
    } else {
      assert all == [];
    }
  }

  /** The database the core writes to; its state is the log of operations
      issued against it. */
  class Database {
    var log: seq<Op>

    constructor ()
      ensures log == []
    {
      log := [];
    }

    /** `collection.bulk_write([InsertOne(doc) for doc in docs], ordered=False)` */
    method BulkWrite(c: Collection, docs: seq<Document>)
      modifies this
      ensures log == old(log) + [Op.BulkWrite(c, docs)]
      ensures Stored(log, c) == old(Stored(log, c)) + docs
    {
      log := log + [Op.BulkWrite(c, docs)];
      assert log[..|log| - 1] == old(log);
    }

    /** `collection.drop()` */
    method Drop(c: Collection)
      modifies this
      ensures log == old(log) + [Op.Drop(c)]
      ensures Stored(log, c) == []
    {
      log := log + [Op.Drop(c)];
    }
  }
}
