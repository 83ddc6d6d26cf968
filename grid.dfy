/** The grid of clicks of scripts/find_square_and_return.js (lines 88-89 and
    102-114): up to 7 x 7 clicks 30 pixels apart around the viewport centre,
    abandoned as soon as a capture shows up. The capture state is an oracle:
    `observed[k]` says whether a capture exists once click `k` is done. */
module GridClicks {
  import opened Wrappers

  datatype Viewport = Viewport(width: nat, height: nat)
  datatype Point = Point(x: int, y: int)

  /** Used when `page.viewportSize()` returns null. */
  const DefaultViewport := Viewport(1200, 800)
  const GridSize := 7
  const Spacing := 30
  /** `Math.floor(gridSize / 2)` */
  const Half := 3

  /** `(cx, cy)`: half the viewport size, rounded down. */
  function Center(vp: Option<Viewport>): (c: Point)
    ensures var v := if vp.Some? then vp.value else DefaultViewport;
            0 <= 2 * c.x <= v.width < 2 * c.x + 2 &&
            0 <= 2 * c.y <= v.height < 2 * c.y + 2
    ensures vp.None? ==> c == Point(600, 400)
  {
    var v := if vp.Some? then vp.value else DefaultViewport;
    Point(v.width / 2, v.height / 2)
  }

  /** Position in the click order of grid cell `(rx, ry)`: `rx` is the outer
      loop, `ry` the inner one. */
  function CellIndex(rx: int, ry: int): int {
    (rx + Half) * GridSize + (ry + Half)
  }

  /** The oracle; past its end no capture is seen. */
  predicate Observed(observed: seq<bool>, k: int) {
    0 <= k < |observed| && observed[k]
  }

  /** Every index below 49 is the position of some grid cell. */
  lemma CellIndexOnto(i: int)
    requires 0 <= i < GridSize * GridSize
    ensures exists rx, ry :: -Half <= rx <= Half && -Half <= ry <= Half && CellIndex(rx, ry) == i
  {
    var rx, ry := i / GridSize - Half, i % GridSize - Half;
    assert CellIndex(rx, ry) == i;
  }

  /** Two cells with the same position are the same cell. */
  lemma CellIndexInjective(rx: int, ry: int, sx: int, sy: int)
    requires -Half <= ry <= Half && -Half <= sy <= Half
    requires CellIndex(rx, ry) == CellIndex(sx, sy)
    ensures rx == sx && ry == sy
  {
  }

  /** The two nested loops. No click when a capture already exists; else the
      clicks follow the grid in order, all within 90 pixels of the centre,
      and stop right after the first click after which a capture is seen. */
  method ClickGrid(center: Point, capturedBefore: bool, observed: seq<bool>) returns (clicks: seq<Point>)
    ensures capturedBefore ==> clicks == []
    ensures |clicks| <= GridSize * GridSize
    ensures forall rx, ry :: -Half <= rx <= Half && -Half <= ry <= Half && CellIndex(rx, ry) < |clicks| ==>
              clicks[CellIndex(rx, ry)] == Point(center.x + rx * Spacing, center.y + ry * Spacing)
    ensures forall i :: 0 <= i < |clicks| ==>
              -Half * Spacing <= clicks[i].x - center.x <= Half * Spacing &&
              -Half * Spacing <= clicks[i].y - center.y <= Half * Spacing
    ensures forall i :: 0 <= i < |clicks| - 1 ==> !Observed(observed, i)
    ensures !capturedBefore && |clicks| < GridSize * GridSize ==> |clicks| > 0 && Observed(observed, |clicks| - 1)
  {
    clicks := [];
    var captured := capturedBefore;
    if !captured {
      var rx := -Half;
      while rx <= Half && !captured
        invariant -Half <= rx <= Half + 1
        invariant !captured ==> |clicks| == CellIndex(rx, -Half)
        invariant captured ==> 0 < |clicks| <= CellIndex(rx, -Half) && Observed(observed, |clicks| - 1)
        invariant forall sx, sy :: -Half <= sx <= Half && -Half <= sy <= Half && CellIndex(sx, sy) < |clicks| ==>
                    clicks[CellIndex(sx, sy)] == Point(center.x + sx * Spacing, center.y + sy * Spacing)
        invariant forall i :: 0 <= i < |clicks| ==>
                    -Half * Spacing <= clicks[i].x - center.x <= Half * Spacing &&
                    -Half * Spacing <= clicks[i].y - center.y <= Half * Spacing
        invariant forall i :: 0 <= i < |clicks| - 1 ==> !Observed(observed, i)
        invariant |clicks| > 0 ==> (captured <==> Observed(observed, |clicks| - 1))
      {
        var ry := -Half;
        while ry <= Half && !captured
          invariant -Half <= ry <= Half + 1
          invariant !captured ==> |clicks| == CellIndex(rx, ry)
          invariant captured ==> 0 < |clicks| <= CellIndex(rx, ry) && Observed(observed, |clicks| - 1)
          invariant forall sx, sy :: -Half <= sx <= Half && -Half <= sy <= Half && CellIndex(sx, sy) < |clicks| ==>
                      clicks[CellIndex(sx, sy)] == Point(center.x + sx * Spacing, center.y + sy * Spacing)
          invariant forall i :: 0 <= i < |clicks| ==>
                      -Half * Spacing <= clicks[i].x - center.x <= Half * Spacing &&
                      -Half * Spacing <= clicks[i].y - center.y <= Half * Spacing
          invariant forall i :: 0 <= i < |clicks| - 1 ==> !Observed(observed, i)
          invariant |clicks| > 0 ==> (captured <==> Observed(observed, |clicks| - 1))
        {
          clicks := clicks + [Point(center.x + rx * Spacing, center.y + ry * Spacing)];
          forall sx, sy | -Half <= sx <= Half && -Half <= sy <= Half && CellIndex(sx, sy) < |clicks|
            ensures clicks[CellIndex(sx, sy)] == Point(center.x + sx * Spacing, center.y + sy * Spacing)
          {
            if CellIndex(sx, sy) == |clicks| - 1 {
              CellIndexInjective(sx, sy, rx, ry);
            }
          }
          captured := Observed(observed, |clicks| - 1);
          ry := ry + 1;
        }
        rx := rx + 1;
      }
    }
  }

}
