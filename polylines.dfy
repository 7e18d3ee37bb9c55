/**
 * The hand-drawn polylines of AxisTrans (controller.py): village boundaries and roads are
 * both recorded the same way, a list of polylines, the index of the one being drawn, and
 * the two endpoints of the segment under the pen. A left click appends the clicked point
 * to the current polyline; a right click starts a new, empty one.
 */
module Polylines {

  /** A position on the image label; QPoint() is the null point (0, 0). */
  datatype Point = Point(x: int, y: int)

  const NullPoint: Point := Point(0, 0)

  /** A mouse press, its position already translated into image coordinates. */
  datatype Click = LeftClick(pos: Point) | RightClick | OtherButton

  type Polyline = seq<Point>

  /**
   * The drawing state of one kind of line: the polylines, the index of the current one, and
   * the last and end points of the segment being drawn.
   */
  datatype Tracer = Tracer(lines: seq<Polyline>, num: int, last: Point, end: Point)

  /** The state draw_outline, drow_road and cleanLine start from: one empty polyline. */
  const Fresh: Tracer := Tracer([[]], 0, NullPoint, NullPoint)

  /** The current polyline is the last one: num == len(lines) - 1. */
  predicate Counted(t: Tracer)
  {
    |t.lines| >= 1 && t.num == |t.lines| - 1
  }

  /** The effect of one mouse press while drawing. */
  function Press(t: Tracer, click: Click): (r: Tracer)
    requires 0 <= t.num < |t.lines|
    ensures Counted(t) ==> Counted(r)
  {
    match click
    case LeftClick(p) =>
      var lines := t.lines[t.num := t.lines[t.num] + [p]];
      if t.last == NullPoint && t.end == NullPoint then Tracer(lines, t.num, p, p)
      else Tracer(lines, t.num, t.last, p)
    case RightClick => Tracer(t.lines + [[]], t.num + 1, NullPoint, NullPoint)
    case OtherButton => t
  }

  /**
   * A left click adds exactly its point at the end of the current polyline and touches no
   * other polyline; a right click adds one empty polyline and resets both endpoints.
   */
  lemma PressEffects(t: Tracer, click: Click)
    requires 0 <= t.num < |t.lines|
    ensures click.LeftClick? ==>
      |Press(t, click).lines| == |t.lines| &&
      Press(t, click).lines[t.num] == t.lines[t.num] + [click.pos] &&
      Press(t, click).end == click.pos &&
      (forall k :: 0 <= k < |t.lines| && k != t.num ==> Press(t, click).lines[k] == t.lines[k])
    ensures click.RightClick? ==>
      Press(t, click).lines == t.lines + [[]] && Press(t, click).num == t.num + 1 &&
      Press(t, click).last == NullPoint && Press(t, click).end == NullPoint
    ensures click.OtherButton? ==> Press(t, click) == t
  {
  }

  /** The state after a run of presses. */
  function Replay(t: Tracer, clicks: seq<Click>): (r: Tracer)
    requires Counted(t)
    ensures Counted(r)
    decreases |clicks|
  {
    if clicks == [] then t else Replay(Press(t, clicks[0]), clicks[1..])
  }

  /** All points of the polylines, in drawing order. */
  function Flatten(lines: seq<Polyline>): seq<Point>
  {
    if lines == [] then [] else lines[0] + Flatten(lines[1..])
  }

  /** The positions of the left clicks, in order. */
  function LeftPositions(clicks: seq<Click>): seq<Point>
  {
    if clicks == [] then []
    else (if clicks[0].LeftClick? then [clicks[0].pos] else []) + LeftPositions(clicks[1..])
  }

  /** The number of right clicks. */
  function RightCount(clicks: seq<Click>): nat
  {
    if clicks == [] then 0 else (if clicks[0].RightClick? then 1 else 0) + RightCount(clicks[1..])
  }

  lemma {:induction false} FlattenConcat(a: seq<Polyline>, b: seq<Polyline>)
    ensures Flatten(a + b) == Flatten(a) + Flatten(b)
  {
    if a == [] {
      assert a + b == b;
    } else {
      var ab := a + b;
      assert ab[0] == a[0] && ab[1..] == a[1..] + b;
      FlattenConcat(a[1..], b);
      calc {
        Flatten(ab);
        ab[0] + Flatten(ab[1..]);
        a[0] + (Flatten(a[1..]) + Flatten(b));
        (a[0] + Flatten(a[1..])) + Flatten(b);
      }
    }
  }

  /** Appending a point to the last polyline appends it to the flattened points. */
  lemma AppendToLast(lines: seq<Polyline>, p: Point)
    requires |lines| >= 1
    ensures Flatten(lines[|lines| - 1 := lines[|lines| - 1] + [p]]) == Flatten(lines) + [p]
  {
    var n := |lines| - 1;
    var front := lines[..n];
    assert lines == front + [lines[n]];
    assert lines[n := lines[n] + [p]] == front + [lines[n] + [p]];
    FlattenConcat(front, [lines[n] + [p]]);
    FlattenConcat(front, [lines[n]]);
  }

  /**
   * Whatever the presses, the points recorded are exactly the left-click positions in the
   * order they were clicked, appended after the points already there, and each right click
   * adds one polyline. This holds because the current polyline is always the last one.
   */
  lemma {:induction false} ReplayRecordsClicks(t: Tracer, clicks: seq<Click>)
    requires Counted(t)
    ensures Flatten(Replay(t, clicks).lines) == Flatten(t.lines) + LeftPositions(clicks)
    ensures |Replay(t, clicks).lines| == |t.lines| + RightCount(clicks)
    decreases |clicks|
  {
    if clicks != [] {
      var next := Press(t, clicks[0]);
      ReplayRecordsClicks(next, clicks[1..]);
      match clicks[0]
      case LeftClick(p) =>
        AppendToLast(t.lines, p);
      case RightClick =>
        FlattenConcat(t.lines, [[]]);
      case OtherButton =>
    }
  }

  /** From a fresh start: the recorded points are the left-click positions, in order. */
  lemma FreshReplay(clicks: seq<Click>)
    ensures Flatten(Replay(Fresh, clicks).lines) == LeftPositions(clicks)
    ensures |Replay(Fresh, clicks).lines| == 1 + RightCount(clicks)
  {
    ReplayRecordsClicks(Fresh, clicks);
  }

  // ---------------------------------------------------------------------------
  // while [] in lines: lines.remove([])

  /** The polylines that are not empty, in their original order. */
  function WithoutEmpty(lines: seq<Polyline>): (kept: seq<Polyline>)
    ensures [] !in kept
    ensures |kept| <= |lines|
  {
    if lines == [] then []
    else if lines[0] == [] then WithoutEmpty(lines[1..])
    else [lines[0]] + WithoutEmpty(lines[1..])
  }

  /** list.remove([]): drops the first empty polyline. */
  function RemoveFirstEmpty(lines: seq<Polyline>): (r: seq<Polyline>)
    requires [] in lines
    ensures |r| == |lines| - 1
    ensures WithoutEmpty(r) == WithoutEmpty(lines)
  {
    if lines[0] == [] then lines[1..]
    else
      var rest := RemoveFirstEmpty(lines[1..]);
      assert ([lines[0]] + rest)[1..] == rest;
      [lines[0]] + rest
  }

  /** A list with no empty polyline is its own filtering. */
  lemma {:induction false} WithoutEmptyFixes(lines: seq<Polyline>)
    requires [] !in lines
    ensures WithoutEmpty(lines) == lines
  {
    if lines != [] {
      WithoutEmptyFixes(lines[1..]);
    }
  }

  /**
   * The empty-polyline filter as the source runs it: remove the first empty polyline as long
   * as one is left.
   */
  method RemoveEmpty(lines: seq<Polyline>) returns (kept: seq<Polyline>)
    ensures kept == WithoutEmpty(lines)
  {
    kept := lines;
    while [] in kept
      invariant WithoutEmpty(kept) == WithoutEmpty(lines)
      decreases |kept|
    {
      kept := RemoveFirstEmpty(kept);
    }
    WithoutEmptyFixes(kept);
  }

  /** Filtering distributes over concatenation: the kept polylines keep their order. */
  lemma {:induction false} WithoutEmptyConcat(a: seq<Polyline>, b: seq<Polyline>)
    ensures WithoutEmpty(a + b) == WithoutEmpty(a) + WithoutEmpty(b)
  {
    if a == [] {
      assert a + b == b;
    } else {
      var ab := a + b;
      assert ab[0] == a[0] && ab[1..] == a[1..] + b;
      WithoutEmptyConcat(a[1..], b);
      if a[0] != [] {
        calc {
          WithoutEmpty(ab);
          [a[0]] + WithoutEmpty(a[1..] + b);
          [a[0]] + (WithoutEmpty(a[1..]) + WithoutEmpty(b));
          ([a[0]] + WithoutEmpty(a[1..])) + WithoutEmpty(b);
        }
      }
    }
  }

  /** Every non-empty polyline is kept as many times as it occurs. */
  lemma {:induction false} WithoutEmptyKeepsLines(lines: seq<Polyline>, line: Polyline)
    requires line != []
    ensures multiset(WithoutEmpty(lines))[line] == multiset(lines)[line]
  {
    if lines != [] {
      WithoutEmptyKeepsLines(lines[1..], line);
      assert lines == [lines[0]] + lines[1..];
    }
  }

  /** Dropping empty polylines loses no point and reorders none. */
  lemma {:induction false} WithoutEmptyKeepsPoints(lines: seq<Polyline>)
    ensures Flatten(WithoutEmpty(lines)) == Flatten(lines)
  {
    if lines != [] {
      WithoutEmptyKeepsPoints(lines[1..]);
      if lines[0] == [] {
        assert Flatten(lines) == lines[0] + Flatten(lines[1..]) == Flatten(lines[1..]);
      } else {
        var kept := [lines[0]] + WithoutEmpty(lines[1..]);
        assert kept[0] == lines[0] && kept[1..] == WithoutEmpty(lines[1..]);
        calc {
          Flatten(WithoutEmpty(lines));
          Flatten(kept);
          kept[0] + Flatten(kept[1..]);
          lines[0] + Flatten(lines[1..]);
          Flatten(lines);
        }
      }
    }
  }
}
