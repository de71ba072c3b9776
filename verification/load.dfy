/**
 * The load handler: up to 1000 rows of the table, plus the caller's
 * remaining wait computed from the caller's most recent pixel. The data
 * service returns rows in no specified order, so both queries are modelled
 * as loops that visit the table's ids in an arbitrary order.
 */
module LoadHandler {
  import opened Wrappers
  import opened Cooldown
  import opened PixelStore
  import opened SaveHandler

  /** The row cap the data service applies to the listing. */
  const LoadLimit: int := 1000

  /** The JSON payload: the listed rows and the wait in seconds. */
  datatype LoadResponse = LoadResponse(pixels: seq<Row>, waitTime: int)

  /** The caller's most recent pixel: a row with the caller's hash whose
      creation time no other such row exceeds; None when the caller has no row. */
  method MostRecent(s: Store, hash: string) returns (latest: Option<Pixel>)
    ensures latest.None? <==> forall id :: id in s ==> s[id].ip != hash
    ensures latest.Some? ==> latest.value.ip == hash && latest.value in s.Values
    ensures latest.Some? ==> forall id :: id in s && s[id].ip == hash ==> s[id].createdAt <= latest.value.createdAt
  {
    var todo := s.Keys;
    latest := None;
    while todo != {}
      invariant todo <= s.Keys
      invariant latest.None? ==> forall id :: id in s && id !in todo ==> s[id].ip != hash
      invariant latest.Some? ==> latest.value.ip == hash && latest.value in s.Values
      invariant latest.Some? ==> forall id :: id in s && id !in todo && s[id].ip == hash ==> s[id].createdAt <= latest.value.createdAt
      decreases todo
    {
      var id :| id in todo;
      if s[id].ip == hash && (latest.None? || s[id].createdAt > latest.value.createdAt) {
        latest := Some(s[id]);
      }
      todo := todo - {id};
    }
  }

  /** Up to LoadLimit rows of the table, each once, in some order. */
  method ListPixels(s: Store) returns (rows: seq<Row>)
    ensures |rows| == if |s| < LoadLimit then |s| else LoadLimit
    ensures forall i :: 0 <= i < |rows| ==> rows[i].id in s && s[rows[i].id] == rows[i].pixel
    ensures forall i, j :: 0 <= i < j < |rows| ==> rows[i].id != rows[j].id
  {
    var todo := s.Keys;
    rows := [];
    while todo != {} && |rows| < LoadLimit
      invariant todo <= s.Keys && |rows| + |todo| == |s.Keys| && |rows| <= LoadLimit
      invariant forall i :: 0 <= i < |rows| ==> rows[i].id in s && rows[i].id !in todo && s[rows[i].id] == rows[i].pixel
      invariant forall i, j :: 0 <= i < j < |rows| ==> rows[i].id != rows[j].id
      decreases todo
    {
      var id :| id in todo;
      rows := rows + [Row(id, s[id])];
      todo := todo - {id};
    }
  }

  /** One GET of the load endpoint. The wait is positive exactly when a save
      by the same caller at the same moment would be refused with 429. */
  method LoadPixels(s: Store, hash: string, now: int) returns (resp: LoadResponse)
    ensures |resp.pixels| == if |s| < LoadLimit then |s| else LoadLimit
    ensures forall i :: 0 <= i < |resp.pixels| ==> resp.pixels[i].id in s && s[resp.pixels[i].id] == resp.pixels[i].pixel
    ensures forall i, j :: 0 <= i < j < |resp.pixels| ==> resp.pixels[i].id != resp.pixels[j].id
    ensures resp.waitTime >= 0
    ensures resp.waitTime > 0 <==> InCooldown(s, hash, now)
    ensures resp.waitTime > 0 ==>
              exists id :: (NewestOfCaller(s, hash, id) && InWindow(s[id].createdAt, now) &&
                (resp.waitTime - 1) * MsPerSecond < s[id].createdAt + CooldownMs - now <= resp.waitTime * MsPerSecond)
    ensures (forall id :: id in s && s[id].ip == hash ==> s[id].createdAt <= now) ==>
              resp.waitTime <= CooldownMs / MsPerSecond
  {
    var pixels := ListPixels(s);
    var latest := MostRecent(s, hash);
    var waitTime := WaitTime(if latest.Some? then Some(latest.value.createdAt) else None, now);
    resp := LoadResponse(pixels, waitTime);
  }
}
