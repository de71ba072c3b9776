/**
 * Properties of sequences of requests: the five-minute timeout that follows
 * an accepted save, the resave that succeeds once it has passed, and the
 * way another caller's write at the same coordinates ends the timeout early.
 */
module Scenarios {
  import opened PixelIds
  import opened Cooldown
  import opened PixelStore
  import opened SaveHandler

  /** After a save that wrote its batch at time t, the same caller is refused
      with 429 at any moment of the following five minutes, whatever it sends,
      as long as the table is not written in between. */
  lemma TimeoutFollowsWrite(s: Store, hash: string, t: int, body: Body, changes: int,
                            t': int, body': Body, changes': int)
    requires Save(s, hash, t, body, changes).status in {200, 500}
    requires t <= t' < t + CooldownMs
    ensures Save(Save(s, hash, t, body, changes).store, hash, t', body', changes').status == 429
  {
    var after := Save(s, hash, t, body, changes).store;
    SaveWritesBatch(s, hash, t, body, changes);
    var items := body.items;
    var k := |items| - 1;
    assert LastAtCoordinate(items, k);
    var id := PixelId(items[k].x, items[k].y);
    assert after[id].ip == hash && InWindow(after[id].createdAt, t');
  }

  /** Every pixel of a batch has a last pixel at its coordinates, at or after it. */
  lemma {:induction false} LastAtSameCoordinate(items: seq<PixelInput>, i: int) returns (j: int)
    requires 0 <= i < |items|
    ensures i <= j < |items| && items[j].x == items[i].x && items[j].y == items[i].y
    ensures LastAtCoordinate(items, j)
    decreases |items| - i
  {
    if LastAtCoordinate(items, i) {
      j := i;
    } else {
      var k :| i < k < |items| && items[k].x == items[i].x && items[k].y == items[i].y;
      j := LastAtSameCoordinate(items, k);
    }
  }

  /** A table the caller wrote at t, on top of rows of the caller that were
      all outside the window at t, has no row of the caller inside the window
      five minutes or more later. */
  lemma WrittenRowsExpire(s: Store, hash: string, t: int, items: seq<PixelInput>, after: Store, t': int)
    requires Written(s, hash, t, items, after)
    requires !InCooldown(s, hash, t)
    requires t' >= t + CooldownMs
    ensures !InCooldown(after, hash, t')
  {
    forall k | k in after && after[k].ip == hash
      ensures !InWindow(after[k].createdAt, t')
    {
      if k in BatchIds(items) {
        var i :| 0 <= i < |items| && k == PixelId(items[i].x, items[i].y);
        var j := LastAtSameCoordinate(items, i);
        assert PixelId(items[j].x, items[j].y) == k;
        assert after[k].createdAt == t;
      } else {
        assert after[k] == s[k];
        assert !InWindow(s[k].createdAt, t);
      }
    }
    NoRowInWindow(after, hash, t');
  }

  /** Five minutes or more after a save that wrote its batch at time t, the
      same caller is out of timeout, so a valid batch whose change count
      matches is accepted. */
  lemma CooldownEndsAfterWrite(s: Store, hash: string, t: int, body: Body, changes: int,
                               t': int, body': Body, changes': int)
    requires Save(s, hash, t, body, changes).status in {200, 500}
    requires t' >= t + CooldownMs
    ensures !InCooldown(Save(s, hash, t, body, changes).store, hash, t')
    ensures ValidBatch(body') && changes' == |body'.items| ==>
              Save(Save(s, hash, t, body, changes).store, hash, t', body', changes').status == 200
  {
    SaveWritesBatch(s, hash, t, body, changes);
    WrittenRowsExpire(s, hash, t, body.items, Save(s, hash, t, body, changes).store, t');
  }

  /** Placing a pixel, then placing another at the same coordinates once five
      minutes have passed: the second save succeeds and the coordinate then
      holds the second colour, by the same caller, at the later time. */
  lemma ResaveAfterCooldown(s: Store, hash: string, t: int, p1: PixelInput, t': int, p2: PixelInput)
    requires Save(s, hash, t, Pixels([p1]), 1).status == 200
    requires p2.x == p1.x && p2.y == p1.y
    requires t' >= t + CooldownMs
    ensures Save(Save(s, hash, t, Pixels([p1]), 1).store, hash, t', Pixels([p2]), 1).status == 200
    ensures Save(Save(s, hash, t, Pixels([p1]), 1).store, hash, t', Pixels([p2]), 1).store[PixelId(p1.x, p1.y)]
              == Pixel(p1.x, p1.y, p2.color, hash, t')
  {
    var mid := Save(s, hash, t, Pixels([p1]), 1).store;
    SaveWritesBatch(s, hash, t, Pixels([p1]), 1);
    assert LastAtCoordinate([p1], 0);
    var id := PixelId(p1.x, p1.y);
    assert BatchIds([p1]) == {id};
    forall k | k in mid && mid[k].ip == hash
      ensures !InWindow(mid[k].createdAt, t')
    {
      if k != id {
        assert mid[k] == s[k];
        assert !InWindow(s[k].createdAt, t);
      }
    }
    NoRowInWindow(mid, hash, t');
    SaveWritesBatch(mid, hash, t', Pixels([p2]), 1);
    assert LastAtCoordinate([p2], 0);
  }

  /** A one-pixel batch names exactly the id of its pixel's coordinates. */
  lemma SingletonBatch(p: PixelInput)
    ensures BatchIds([p]) == {PixelId(p.x, p.y)}
    ensures LastAtCoordinate([p], 0)
  {
    assert [p][0] == p;
  }

  /** An accepted one-pixel save, reported as one change, replaces the row at
      the pixel's coordinates and touches nothing else. */
  lemma SinglePixelSave(s: Store, hash: string, t: int, p: PixelInput)
    requires !InCooldown(s, hash, t)
    ensures Save(s, hash, t, Pixels([p]), 1).status == 200
    ensures Save(s, hash, t, Pixels([p]), 1).store
              == s[PixelId(p.x, p.y) := Pixel(p.x, p.y, p.color, hash, t)]
  {
    var out := Save(s, hash, t, Pixels([p]), 1);
    var id := PixelId(p.x, p.y);
    var row := Pixel(p.x, p.y, p.color, hash, t);
    assert out.status == 200;
    SaveWritesBatch(s, hash, t, Pixels([p]), 1);
    SingletonBatch(p);
    assert Written(s, hash, t, [p], out.store);
    assert out.store.Keys == s.Keys + {id};
    assert out.store[id] == row;
    assert out.store == s[id := row];
  }

  /** The five-minute timeout rests on the caller's own rows, and another
      caller's pixel at the same coordinates replaces them: caller a places
      a pixel, caller b overwrites it at once, and a's next save, one
      millisecond later, is accepted. */
  lemma OverwriteEndsTimeout(s: Store, a: string, b: string, t: int, p: PixelInput, q: PixelInput)
    requires a != b && q.x == p.x && q.y == p.y
    requires !InCooldown(s, a, t) && !InCooldown(s, b, t)
    ensures Save(s, a, t, Pixels([p]), 1).status == 200
    ensures Save(Save(s, a, t, Pixels([p]), 1).store, b, t, Pixels([q]), 1).status == 200
    ensures Save(Save(Save(s, a, t, Pixels([p]), 1).store, b, t, Pixels([q]), 1).store,
                 a, t + 1, Pixels([p]), 1).status == 200
  {
    var id := PixelId(p.x, p.y);
    assert PixelId(q.x, q.y) == id;
    SinglePixelSave(s, a, t, p);
    var s1 := s[id := Pixel(p.x, p.y, p.color, a, t)];
    forall k | k in s1 && s1[k].ip == b
      ensures !InWindow(s1[k].createdAt, t)
    {
      assert k != id && s1[k] == s[k];
    }
    NoRowInWindow(s1, b, t);
    SinglePixelSave(s1, b, t, q);
    var s2 := s1[id := Pixel(q.x, q.y, q.color, b, t)];
    forall k | k in s2 && s2[k].ip == a
      ensures !InWindow(s2[k].createdAt, t + 1)
    {
      assert k != id && s2[k] == s[k];
      assert !InWindow(s[k].createdAt, t);
    }
    NoRowInWindow(s2, a, t + 1);
    SinglePixelSave(s2, a, t + 1, p);
  }
}
