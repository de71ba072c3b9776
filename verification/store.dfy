/**
 * The abstract pixel table: a map from row id to pixel, written by a batch
 * insert-or-replace. Rows are processed in order, so when a batch names the
 * same id twice the later row is the one that stays.
 */
module PixelStore {
  import opened PixelIds

  /** One stored pixel; `ip` is the hashed address of its author and
      `createdAt` the time it was placed, in milliseconds. */
  datatype Pixel = Pixel(x: int, y: int, color: string, ip: string, createdAt: int)

  /** The pixels table, keyed by row id. */
  type Store = map<string, Pixel>

  /** A row as written or listed: its id and its data. */
  datatype Row = Row(id: string, pixel: Pixel)

  /** Every row sits under the id derived from its own coordinates. */
  predicate WellFormed(s: Store) {
    forall id :: id in s ==> id == PixelId(s[id].x, s[id].y)
  }

  /** Every row of a batch carries the id derived from its coordinates. */
  predicate RowsWellFormed(rows: seq<Row>) {
    forall i :: 0 <= i < |rows| ==> rows[i].id == PixelId(rows[i].pixel.x, rows[i].pixel.y)
  }

  function RowIds(rows: seq<Row>): set<string> {
    set i | 0 <= i < |rows| :: rows[i].id
  }

  /** No later row of the batch has the same id as row i. */
  predicate LastWithId(rows: seq<Row>, i: int)
    requires 0 <= i < |rows|
  {
    forall j :: i < j < |rows| ==> rows[j].id != rows[i].id
  }

  /** Insert-or-replace of a batch, row by row in order. */
  function Upsert(s: Store, rows: seq<Row>): (r: Store)
    ensures r.Keys == s.Keys + RowIds(rows)
    decreases |rows|
  {
    if |rows| == 0 then s
    else
      var init := rows[..|rows| - 1];
      var last := rows[|rows| - 1];
      assert RowIds(rows) == RowIds(init) + {last.id} by {
        assert forall i :: 0 <= i < |init| ==> init[i] == rows[i];
      }
      Upsert(s, init)[last.id := last.pixel]
  }

  /** After an insert-or-replace every id the batch names holds the data of
      the batch's last row with that id, and every other row is unchanged. */
  lemma {:induction false} UpsertContents(s: Store, rows: seq<Row>)
    ensures forall id :: id in s && id !in RowIds(rows) ==> Upsert(s, rows)[id] == s[id]
    ensures forall i :: 0 <= i < |rows| && LastWithId(rows, i) ==> Upsert(s, rows)[rows[i].id] == rows[i].pixel
    decreases |rows|
  {
    if |rows| > 0 {
      var init := rows[..|rows| - 1];
      var last := rows[|rows| - 1];
      UpsertContents(s, init);
      assert RowIds(rows) == RowIds(init) + {last.id} by {
        assert forall i :: 0 <= i < |init| ==> init[i] == rows[i];
      }
      forall i | 0 <= i < |rows| && LastWithId(rows, i)
        ensures Upsert(s, rows)[rows[i].id] == rows[i].pixel
      {
        if i < |init| {
          assert init[i] == rows[i];
          assert LastWithId(init, i) by {
            assert forall j :: i < j < |init| ==> init[j] == rows[j];
          }
        }
      }
    }
  }

  /** Every id of a batch has a last row carrying it. */
  lemma {:induction false} LastOccurrence(rows: seq<Row>, id: string) returns (i: int)
    requires id in RowIds(rows)
    ensures 0 <= i < |rows| && rows[i].id == id && LastWithId(rows, i)
    decreases |rows|
  {
    var init := rows[..|rows| - 1];
    if rows[|rows| - 1].id == id {
      i := |rows| - 1;
    } else {
      assert id in RowIds(init) by {
        var k :| 0 <= k < |rows| && rows[k].id == id;
        assert init[k] == rows[k];
      }
      i := LastOccurrence(init, id);
      assert init[i] == rows[i];
      assert forall j :: i < j < |init| ==> init[j] == rows[j];
    }
  }

  /** After an insert-or-replace every id maps to the row of the last batch
      entry carrying it, or to its old row when the batch does not name it;
      so a batch of well-formed rows keeps the table well formed. */
  lemma {:induction false} UpsertPreservesWellFormed(s: Store, rows: seq<Row>)
    requires WellFormed(s) && RowsWellFormed(rows)
    ensures WellFormed(Upsert(s, rows))
  {
    var r := Upsert(s, rows);
    forall id | id in r
      ensures id == PixelId(r[id].x, r[id].y)
    {
      UpsertContents(s, rows);
      if id in RowIds(rows) {
        var i := LastOccurrence(rows, id);
      }
    }
  }
}
