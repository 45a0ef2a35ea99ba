/**
 * The row-to-document step of `insert_data`: `dict(zip(header, row))`.
 * `zip` stops at the shorter of its two inputs, and `dict` adds the pairs
 * from left to right, so a header name that occurs twice keeps the value of
 * its later position.
 */
module Documents {

  /** A document as handed to the database: field name to raw text value. */
  type Document = map<string, string>

  function Min(a: int, b: int): int
  {
    if a <= b then a else b
  }

  /** Python's `zip` over two lists: one pair per position both lists have. */
  function Zip(header: seq<string>, row: seq<string>): (r: seq<(string, string)>)
    ensures |r| == Min(|header|, |row|)
    ensures forall i :: 0 <= i < |r| ==> r[i] == (header[i], row[i])
  {
    if |header| == 0 || |row| == 0 then []
    else [(header[0], row[0])] + Zip(header[1..], row[1..])
  }

  /** Python's `dict(pairs)`: later pairs overwrite earlier ones with the same key. */
  function DictOf(pairs: seq<(string, string)>): (d: Document)
    ensures forall k :: k in d <==> exists i :: 0 <= i < |pairs| && pairs[i].0 == k
  {
    if |pairs| == 0 then map[]
    else DictOf(pairs[..|pairs| - 1])[pairs[|pairs| - 1].0 := pairs[|pairs| - 1].1]
  }

  /** The document built from one data row. */
  function ToDocument(header: seq<string>, row: seq<string>): Document
  {
    DictOf(Zip(header, row))
  }

  /** Each key of `dict(pairs)` holds the second component of its last pair. */
  lemma {:induction false} DictOfFields(pairs: seq<(string, string)>)
    ensures forall i :: 0 <= i < |pairs| && (forall j :: i < j < |pairs| ==> pairs[j].0 != pairs[i].0) ==>
              DictOf(pairs)[pairs[i].0] == pairs[i].1
  {
    if |pairs| > 0 {
      var init := pairs[..|pairs| - 1];
      DictOfFields(init);
      forall i | 0 <= i < |pairs| && (forall j :: i < j < |pairs| ==> pairs[j].0 != pairs[i].0)
        ensures DictOf(pairs)[pairs[i].0] == pairs[i].1
      {
        if i < |init| {
          assert pairs[|pairs| - 1].0 != pairs[i].0;
          assert forall j :: i < j < |init| ==> init[j].0 != init[i].0 by {
            forall j | i < j < |init| ensures init[j].0 != init[i].0 {
              assert init[j] == pairs[j];
            }
          }
        }
      }
    }
  }

  /** The keys of `dict(zip(header, row))` are the header names of the
      first min(|header|, |row|) positions. */
  lemma ToDocumentKeys(header: seq<string>, row: seq<string>)
    ensures var m := Min(|header|, |row|);
      forall k :: k in ToDocument(header, row) <==> k in header[..m]
  {
    var pairs := Zip(header, row);
    var m := Min(|header|, |row|);
    forall k ensures k in ToDocument(header, row) <==> k in header[..m] {
      if k in header[..m] {
        var i :| 0 <= i < m && header[..m][i] == k;
        assert pairs[i].0 == k;
      }
    }
  }

  /** `dict(zip(header, row))` has exactly the header names of the first
      min(|header|, |row|) positions as keys; a name maps to the row value
      at its last position among those; every value is a raw row field. */
  lemma ToDocumentFields(header: seq<string>, row: seq<string>)
    ensures var m := Min(|header|, |row|);
      forall k :: k in ToDocument(header, row) <==> k in header[..m]
    ensures var m := Min(|header|, |row|);
      forall i :: 0 <= i < m && (forall j :: i < j < m ==> header[j] != header[i]) ==>
        ToDocument(header, row)[header[i]] == row[i]
  {
    var pairs := Zip(header, row);
    var m := Min(|header|, |row|);
    ToDocumentKeys(header, row);
    DictOfFields(pairs);
    forall i | 0 <= i < m && (forall j :: i < j < m ==> header[j] != header[i])
      ensures ToDocument(header, row)[header[i]] == row[i]
    {
      assert forall j :: i < j < |pairs| ==> pairs[j].0 != pairs[i].0;
    }
  }

  /** With distinct header names and a row of the header's length, reading
      the document back field by field gives the row again, empty fields
      included. */
  lemma ToDocumentRoundTrip(header: seq<string>, row: seq<string>)
    requires forall i, j :: 0 <= i < j < |header| ==> header[i] != header[j]
    requires |row| == |header|
    ensures ToDocument(header, row).Keys == set i | 0 <= i < |header| :: header[i]
    ensures forall i :: 0 <= i < |header| ==> ToDocument(header, row)[header[i]] == row[i]
  {
    ToDocumentFields(header, row);
    assert header[..|header|] == header;
    var d := ToDocument(header, row);
    forall k ensures k in d.Keys <==> k in set i | 0 <= i < |header| :: header[i] {
      if k in d.Keys {
        var i :| 0 <= i < |header| && header[i] == k;
      }
    }
  }

  /** A short row is not an error: the names past its end are absent from
      the document unless they also occur earlier in the header. */
  lemma ToDocumentTruncates(header: seq<string>, row: seq<string>, i: int)
    requires |row| <= i < |header|
    requires header[i] !in header[..|row|]
    ensures header[i] !in ToDocument(header, row)
  {
    ToDocumentFields(header, row);
  }

  /** Duplicate header names: the later position wins. */
  lemma ToDocumentLaterWins(header: seq<string>, row: seq<string>, i: int, j: int)
    requires 0 <= i < j < Min(|header|, |row|)
    requires header[i] == header[j]
    requires forall l :: j < l < Min(|header|, |row|) ==> header[l] != header[j]
    ensures header[i] in ToDocument(header, row) && ToDocument(header, row)[header[i]] == row[j]
  {
    ToDocumentFields(header, row);
  }
}
