/**
 * The row id the save handler derives from a pixel's coordinates,
 * `x{x}_y{y}`, and the parser that recovers the coordinates from it.
 * Because the id can be parsed back, distinct coordinates get distinct ids.
 */
module PixelIds {
  import opened Wrappers
  import opened Decimal

  /** The id stamped on a pixel at (x, y); its coordinates can be read back from it. */
  function PixelId(x: int, y: int): (id: string)
    ensures ParseId(id) == Some((x, y))
  {
    ParseIdText(x, y);
    IdText(x, y)
  }

  /** The text `x{x}_y{y}`. */
  function IdText(x: int, y: int): string {
    "x" + IntToString(x) + "_y" + IntToString(y)
  }

  /** The coordinates an id of the form `x{x}_y{y}` names; None for any other text. */
  function ParseId(id: string): Option<(int, int)> {
    if |id| == 0 || id[0] != 'x' then None else ParseFrom(id[1..], 0)
  }

  /** Parses `{x}_y{y}`, given that `rest[..i]` holds no underscore: the first
      underscore ends the x text, and `y` must follow it. */
  function ParseFrom(rest: string, i: nat): Option<(int, int)>
    decreases |rest| - i
  {
    if i >= |rest| then None
    else if rest[i] != '_' then ParseFrom(rest, i + 1)
    else if |rest| < i + 2 || rest[i + 1] != 'y' then None
    else
      match (ParseInt(rest[..i]), ParseInt(rest[i + 2..]))
      case (Some(x), Some(y)) => Some((x, y))
      case _ => None
  }

  /** Scanning `{x}_y{y}` from any position inside the x text stops at the
      underscore after it and reads both numbers back. */
  lemma {:induction false} ParseFromText(x: int, y: int, i: nat)
    requires i <= |IntToString(x)|
    ensures ParseFrom(IntToString(x) + "_y" + IntToString(y), i) == Some((x, y))
    decreases |IntToString(x)| - i
  {
    var xs, ys := IntToString(x), IntToString(y);
    var rest := xs + "_y" + ys;
    if i < |xs| {
      assert rest[i] == xs[i] != '_';
      ParseFromText(x, y, i + 1);
    } else {
      assert rest[i] == '_' && rest[i + 1] == 'y';
      assert rest[..i] == xs;
      assert rest[i + 2..] == ys;
      IntRoundTrip(x);
      IntRoundTrip(y);
    }
  }

  /** The parser reads the coordinates back from the id text. */
  lemma ParseIdText(x: int, y: int)
    ensures ParseId(IdText(x, y)) == Some((x, y))
  {
    var id := IdText(x, y);
    assert id[1..] == IntToString(x) + "_y" + IntToString(y);
    ParseFromText(x, y, 0);
  }

  /** Two pixels get the same id exactly when they are at the same coordinates. */
  lemma PixelIdInjective(x1: int, y1: int, x2: int, y2: int)
    ensures PixelId(x1, y1) == PixelId(x2, y2) <==> x1 == x2 && y1 == y2
  {
    var id1, id2 := PixelId(x1, y1), PixelId(x2, y2);
  }
}
