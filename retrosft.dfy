/**
 * src/retrosft.h: the set-up of the software line drawer. Given two end
 * points, retrosoft_line_strategy picks the major ("for") axis from the
 * slope, orders the end points along it, and fills the int16_t[2] out
 * arrays `dist`, `start`, `end` and `iter` and the out values `inc` and
 * `delta` the Bresenham loop of retrosoft_line steps with.
 */
module RetroSft {
  import opened Maug

  /** RETROFLAT_LINE_X and RETROFLAT_LINE_Y: indexes into the [2] arrays. */
  const LINE_X: nat := 0
  const LINE_Y: nat := 1

  /** A coordinate small enough that no int16_t store below wraps. */
  predicate Coord(v: int) {
    -0x1000 <= v < 0x1000
  }

  /** The strategy's scalar outputs: *p_for_axis, *p_off_axis, *p_inc, *p_delta. */
  datatype Strategy = Strategy(forAxis: nat, offAxis: nat, inc: int, delta: int)

  /** The major axis: X exactly when the line is flatter than 45 degrees. */
  function MajorAxis(x1: int, y1: int, x2: int, y2: int): (axis: nat)
    ensures axis == LINE_X <==> Abs(y2 - y1) < Abs(x2 - x1)
    ensures axis == LINE_X || axis == LINE_Y
  {
    if Abs(y2 - y1) < Abs(x2 - x1) then LINE_X else LINE_Y
  }

  /** Whether the first end point lies after the second along the major axis. */
  function Swapped(x1: int, y1: int, x2: int, y2: int): bool
  {
    if MajorAxis(x1, y1, x2, y2) == LINE_X then x2 < x1 else y2 < y1
  }

  /** The start and end points as the int16_t[2] arrays hold them. */
  function StartOf(x1: int, y1: int, x2: int, y2: int): (p: seq<int>)
    ensures |p| == 2
  {
    if Swapped(x1, y1, x2, y2) then [Wrap16(x2), Wrap16(y2)] else [Wrap16(x1), Wrap16(y1)]
  }

  function EndOf(x1: int, y1: int, x2: int, y2: int): (p: seq<int>)
    ensures |p| == 2
  {
    if Swapped(x1, y1, x2, y2) then [Wrap16(x1), Wrap16(y1)] else [Wrap16(x2), Wrap16(y2)]
  }

  /**
   * retrosoft_line_strategy: X is the major axis iff |y2 - y1| < |x2 - x1|;
   * the end points are swapped when the first lies after the second on it.
   * The coordinates are C ints and every store goes to an int16_t, which
   * keeps the value modulo 2^16; `d` is the off-axis distance as stored
   * before its sign is dropped.
   */
  method LineStrategy(x1: int, y1: int, x2: int, y2: int,
                      dist: array<int>, start: array<int>, end: array<int>, iter: array<int>)
    returns (s: Strategy)
    requires dist.Length == 2 && start.Length == 2 && end.Length == 2 && iter.Length == 2
    requires dist != start && dist != end && dist != iter && start != end && start != iter && end != iter
    modifies dist, start, end, iter
    ensures s.forAxis == MajorAxis(x1, y1, x2, y2) && s.offAxis == 1 - s.forAxis
    ensures start[..] == StartOf(x1, y1, x2, y2) && end[..] == EndOf(x1, y1, x2, y2)
    ensures iter[..] == start[..]
    ensures dist[s.forAxis] == Wrap16(end[s.forAxis] - start[s.forAxis])
    ensures var d := Wrap16(end[s.offAxis] - start[s.offAxis]);
      && s.inc == (if d < 0 then -1 else 1)
      && dist[s.offAxis] == (if d < 0 then Wrap16(-d) else d)
      && s.delta == Wrap16(2 * d - dist[s.forAxis])
  {
    var forAxis := OrderEnds(x1, y1, x2, y2, start, end);
    var offAxis := 1 - forAxis;
    iter[LINE_X] := start[LINE_X];
    iter[LINE_Y] := start[LINE_Y];
    dist[LINE_X] := Wrap16(end[LINE_X] - start[LINE_X]);
    dist[LINE_Y] := Wrap16(end[LINE_Y] - start[LINE_Y]);
    var dFor, dOff := dist[forAxis], dist[offAxis];
    assert dOff == Wrap16(end[offAxis] - start[offAxis]);
    var delta := Wrap16(2 * dOff - dFor);
    var inc;
    if 0 > dOff {
      inc := -1;
      dist[offAxis] := Wrap16(-dOff);
    } else {
      inc := 1;
    }
    assert dist[forAxis] == dFor;
    s := Strategy(forAxis, offAxis, inc, delta);
  }

  /** The first half of retrosoft_line_strategy: the major axis and the ordered end points. */
  method OrderEnds(x1: int, y1: int, x2: int, y2: int, start: array<int>, end: array<int>)
    returns (forAxis: nat)
    requires start.Length == 2 && end.Length == 2 && start != end
    modifies start, end
    ensures forAxis == MajorAxis(x1, y1, x2, y2)
    ensures start[..] == StartOf(x1, y1, x2, y2) && end[..] == EndOf(x1, y1, x2, y2)
  {
    if Abs(y2 - y1) < Abs(x2 - x1) {
      if x1 > x2 {
        start[LINE_X], start[LINE_Y] := Wrap16(x2), Wrap16(y2);
        end[LINE_X], end[LINE_Y] := Wrap16(x1), Wrap16(y1);
      } else {
        start[LINE_X], start[LINE_Y] := Wrap16(x1), Wrap16(y1);
        end[LINE_X], end[LINE_Y] := Wrap16(x2), Wrap16(y2);
      }
      forAxis := LINE_X;
    } else {
      if y2 < y1 {
        start[LINE_X], start[LINE_Y] := Wrap16(x2), Wrap16(y2);
        end[LINE_X], end[LINE_Y] := Wrap16(x1), Wrap16(y1);
      } else {
        start[LINE_X], start[LINE_Y] := Wrap16(x1), Wrap16(y1);
        end[LINE_X], end[LINE_Y] := Wrap16(x2), Wrap16(y2);
      }
      forAxis := LINE_Y;
    }
  }

  /**
   * With every coordinate inside Coord nothing wraps: the end points are
   * the given ones ordered along the major axis, the major distance is
   * the larger, and the stored distances and delta are the exact ones the
   * Bresenham loop expects.
   */
  lemma SmallLineStrategy(x1: int, y1: int, x2: int, y2: int)
    requires Coord(x1) && Coord(y1) && Coord(x2) && Coord(y2)
    ensures var f := MajorAxis(x1, y1, x2, y2);
      var o := 1 - f;
      var st := StartOf(x1, y1, x2, y2);
      var en := EndOf(x1, y1, x2, y2);
      && {st, en} == {[x1, y1], [x2, y2]}
      && st[f] <= en[f]
      && Abs(en[o] - st[o]) <= en[f] - st[f]
      && Wrap16(en[f] - st[f]) == en[f] - st[f]
      && Wrap16(en[o] - st[o]) == en[o] - st[o]
      && Wrap16(-(en[o] - st[o])) == -(en[o] - st[o])
      && Wrap16(2 * (en[o] - st[o]) - (en[f] - st[f])) == 2 * (en[o] - st[o]) - (en[f] - st[f])
  {
  }
}
