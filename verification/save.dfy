/**
 * The save handler: cooldown check, then batch-size check, then stamping
 * and insert-or-replace, then the check of the change count the data
 * service reports. The caller's hashed address, the clock reading and the
 * reported change count are inputs.
 */
module SaveHandler {
  import opened PixelIds
  import opened Cooldown
  import opened PixelStore

  /** Largest batch a caller may submit at once. */
  const MaxBatch: int := 10

  /** A pixel as submitted by a client. Any `ip`, `created_at` or `id` it
      carries is overwritten by stamping, so they are not modelled. */
  datatype PixelInput = PixelInput(x: int, y: int, color: string)

  /** The `pixels` field of the request body: missing or falsy, some
      value that is not an array, or an array of pixels. */
  datatype Body = Absent | NotAnArray | Pixels(items: seq<PixelInput>)

  /** Response status and the table after the request. */
  datatype SaveOutcome = SaveOutcome(status: int, store: Store)

  /** Row `id` is one of the caller's rows and none of the caller's rows is newer. */
  predicate NewestOfCaller(s: Store, hash: string, id: string) {
    && id in s && s[id].ip == hash
    && forall k :: k in s && s[k].ip == hash ==> s[k].createdAt <= s[id].createdAt
  }

  /** A caller who has rows has a newest one. */
  lemma {:induction false} NewestInKeys(s: Store, hash: string, ks: set<string>) returns (id: string)
    requires ks <= s.Keys && exists k :: k in ks && s[k].ip == hash
    ensures id in ks && s[id].ip == hash
    ensures forall k :: k in ks && s[k].ip == hash ==> s[k].createdAt <= s[id].createdAt
    decreases ks
  {
    var k :| k in ks && s[k].ip == hash;
    var rest := ks - {k};
    if exists k' :: k' in rest && s[k'].ip == hash {
      var m := NewestInKeys(s, hash, rest);
      id := if s[k].createdAt >= s[m].createdAt then k else m;
    } else {
      id := k;
    }
  }

  /** A caller who has a row in the table has a newest row. */
  lemma NewestExists(s: Store, hash: string)
    requires exists k :: k in s && s[k].ip == hash
    ensures exists id :: NewestOfCaller(s, hash, id)
  {
    var id := NewestInKeys(s, hash, s.Keys);
    assert NewestOfCaller(s, hash, id);
  }

  /** The timeout query: some row by this caller was placed within the last
      five minutes. That holds exactly when the caller's newest row was. */
  function InCooldown(s: Store, hash: string, now: int): (r: bool)
    ensures r <==> exists id :: NewestOfCaller(s, hash, id) && InWindow(s[id].createdAt, now)
  {
    if exists id :: id in s && s[id].ip == hash then
      NewestExists(s, hash);
      exists id :: id in s && s[id].ip == hash && InWindow(s[id].createdAt, now)
    else
      false
  }

  /** A caller none of whose rows is inside the window is not in timeout. */
  lemma NoRowInWindow(s: Store, hash: string, now: int)
    requires forall id :: id in s && s[id].ip == hash ==> !InWindow(s[id].createdAt, now)
    ensures !InCooldown(s, hash, now)
  {
  }

  /** An array of one to ten pixels. */
  predicate ValidBatch(body: Body) {
    body.Pixels? && 1 <= |body.items| <= MaxBatch
  }

  /** The row a submitted pixel becomes: its coordinates and colour, the
      caller's hash, the time of the save and the derived id. */
  function Stamp(p: PixelInput, hash: string, now: int): Row {
    Row(PixelId(p.x, p.y), Pixel(p.x, p.y, p.color, hash, now))
  }

  function StampAll(items: seq<PixelInput>, hash: string, now: int): seq<Row> {
    seq(|items|, i requires 0 <= i < |items| => Stamp(items[i], hash, now))
  }

  /** The ids the batch derives from its coordinates. */
  function BatchIds(items: seq<PixelInput>): set<string> {
    set i | 0 <= i < |items| :: PixelId(items[i].x, items[i].y)
  }

  /** No later pixel of the batch is at the same coordinates as pixel i. */
  predicate LastAtCoordinate(items: seq<PixelInput>, i: int)
    requires 0 <= i < |items|
  {
    forall j :: i < j < |items| ==> items[j].x != items[i].x || items[j].y != items[i].y
  }

  /** The table `after` is `before` with the batch stamped and written. */
  predicate Written(before: Store, hash: string, now: int, items: seq<PixelInput>, after: Store) {
    && after.Keys == before.Keys + BatchIds(items)
    && (forall id :: id in before && id !in BatchIds(items) ==> after[id] == before[id])
    && (forall i :: 0 <= i < |items| && LastAtCoordinate(items, i) ==>
          var p := items[i];
          after[PixelId(p.x, p.y)] == Pixel(p.x, p.y, p.color, hash, now))
  }

  /** One POST to the save endpoint. `changes` is the change count the data
      service reports for the insert-or-replace. */
  function Save(s: Store, hash: string, now: int, body: Body, changes: int): (out: SaveOutcome)
    ensures out.status == 429 <==> InCooldown(s, hash, now)
    ensures out.status == 400 <==> !InCooldown(s, hash, now) && !ValidBatch(body)
    ensures out.status == 500 <==> !InCooldown(s, hash, now) && ValidBatch(body) && changes != |body.items|
    ensures out.status == 200 <==> !InCooldown(s, hash, now) && ValidBatch(body) && changes == |body.items|
    ensures out.status == 429 || out.status == 400 ==> out.store == s
  {
    if InCooldown(s, hash, now) then SaveOutcome(429, s)
    else if !ValidBatch(body) then SaveOutcome(400, s)
    else
      var after := Upsert(s, StampAll(body.items, hash, now));
      if changes != |body.items| then SaveOutcome(500, after) else SaveOutcome(200, after)
  }

  /** Stamping derives each row's id from its coordinates, so the ids of
      the stamped rows are the batch's ids. */
  lemma StampedIds(items: seq<PixelInput>, hash: string, now: int)
    ensures RowsWellFormed(StampAll(items, hash, now))
    ensures RowIds(StampAll(items, hash, now)) == BatchIds(items)
  {
    var rows := StampAll(items, hash, now);
    assert forall id :: id in RowIds(rows) ==> id in BatchIds(items);
    forall id | id in BatchIds(items)
      ensures id in RowIds(rows)
    {
      var i :| 0 <= i < |items| && id == PixelId(items[i].x, items[i].y);
      assert rows[i].id == id;
    }
  }

  /** Since distinct coordinates get distinct ids, a pixel that is the last
      at its coordinates becomes the last row with its id. */
  lemma StampedLast(items: seq<PixelInput>, hash: string, now: int, i: int)
    requires 0 <= i < |items| && LastAtCoordinate(items, i)
    ensures LastWithId(StampAll(items, hash, now), i)
  {
    var rows := StampAll(items, hash, now);
    forall j | i < j < |rows|
      ensures rows[j].id != rows[i].id
    {
      PixelIdInjective(items[j].x, items[j].y, items[i].x, items[i].y);
    }
  }

  /** A save that gets past both checks writes exactly the stamped batch:
      each coordinate of the batch holds the last pixel submitted for it,
      with the caller's hash and the save time, no other row changes, and
      the table stays one row per coordinate. */
  lemma SaveWritesBatch(s: Store, hash: string, now: int, body: Body, changes: int)
    requires Save(s, hash, now, body, changes).status in {200, 500}
    ensures ValidBatch(body)
    ensures Written(s, hash, now, body.items, Save(s, hash, now, body, changes).store)
    ensures WellFormed(s) ==> WellFormed(Save(s, hash, now, body, changes).store)
  {
    var items := body.items;
    var rows := StampAll(items, hash, now);
    var after := Save(s, hash, now, body, changes).store;
    assert after == Upsert(s, rows);
    StampedIds(items, hash, now);
    UpsertContents(s, rows);
    forall i | 0 <= i < |items| && LastAtCoordinate(items, i)
      ensures after[PixelId(items[i].x, items[i].y)] == Pixel(items[i].x, items[i].y, items[i].color, hash, now)
    {
      StampedLast(items, hash, now, i);
      assert rows[i] == Stamp(items[i], hash, now);
    }
    if WellFormed(s) {
      UpsertPreservesWellFormed(s, rows);
    }
  }
}
