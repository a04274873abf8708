/**
 * The layout arithmetic of handleMergeImages: the merged canvas places the
 * body image on the left and repeats the border image down a column on the
 * right, the last destination rectangle shortened to the rows that remain.
 * The drawing calls themselves are not modelled; each drawImage call becomes
 * the destination rectangle it is given.
 */
module BorderTiling {

  /** A destination rectangle of one drawImage call: left, top, width, height. */
  datatype Rect = Rect(x: int, y: int, w: int, h: int)

  /** The merged canvas size and the rectangles drawn into it. */
  datatype Layout = Layout(mergedWidth: nat, mergedHeight: nat, body: Rect, tiles: seq<Rect>)

  function Min(a: int, b: int): int
  {
    if a <= b then a else b
  }

  /** Row `row` of the canvas lies inside rectangle r. */
  predicate InRect(r: Rect, row: int)
  {
    r.y <= row < r.y + r.h
  }

  /**
   * The tiles stack without gap or overlap from `top` down to `bottom`: the
   * first starts at `top`, each next one starts where the previous ends, the
   * last ends at `bottom`, and none is empty.
   */
  ghost predicate Contiguous(tiles: seq<Rect>, top: int, bottom: int)
    decreases |tiles|
  {
    if tiles == [] then top == bottom
    else tiles[0].y == top && tiles[0].h > 0 && Contiguous(tiles[1..], top + tiles[0].h, bottom)
  }

  /** Appending a non-empty tile that starts at `bottom` extends a contiguous stack. */
  lemma {:induction false} ContiguousAppend(tiles: seq<Rect>, top: int, bottom: int, r: Rect)
    requires Contiguous(tiles, top, bottom)
    requires r.y == bottom && r.h > 0
    ensures Contiguous(tiles + [r], top, bottom + r.h)
    decreases |tiles|
  {
    if tiles == [] {
      assert Contiguous([r][1..], bottom + r.h, bottom + r.h);
    } else {
      ContiguousAppend(tiles[1..], top + tiles[0].h, bottom, r);
      assert (tiles + [r])[1..] == tiles[1..] + [r];
    }
  }

  /** Every tile of a contiguous stack lies between `top` and `bottom`. */
  lemma {:induction false} ContiguousWithin(tiles: seq<Rect>, top: int, bottom: int, i: nat)
    requires Contiguous(tiles, top, bottom) && i < |tiles|
    ensures top <= tiles[i].y && tiles[i].y + tiles[i].h <= bottom
    decreases |tiles|
  {
    if i == 0 {
      if |tiles| > 1 {
        ContiguousWithin(tiles[1..], top + tiles[0].h, bottom, 0);
      }
    } else {
      ContiguousWithin(tiles[1..], top + tiles[0].h, bottom, i - 1);
    }
  }

  /** Every row between `top` and `bottom` is covered by some tile of a contiguous stack. */
  lemma {:induction false} ContiguousCovers(tiles: seq<Rect>, top: int, bottom: int, row: int) returns (i: nat)
    requires Contiguous(tiles, top, bottom) && top <= row < bottom
    ensures i < |tiles| && InRect(tiles[i], row)
    decreases |tiles|
  {
    if row < top + tiles[0].h {
      i := 0;
    } else {
      var j := ContiguousCovers(tiles[1..], top + tiles[0].h, bottom, row);
      i := j + 1;
    }
  }

  /** No row is covered by two different tiles of a contiguous stack. */
  lemma {:induction false} ContiguousDisjoint(tiles: seq<Rect>, top: int, bottom: int, i: nat, j: nat, row: int)
    requires Contiguous(tiles, top, bottom) && i < |tiles| && j < |tiles|
    requires InRect(tiles[i], row) && InRect(tiles[j], row)
    ensures i == j
    decreases |tiles|
  {
    if i == 0 && j != 0 {
      ContiguousWithin(tiles[1..], top + tiles[0].h, bottom, j - 1);
    } else if j == 0 && i != 0 {
      ContiguousWithin(tiles[1..], top + tiles[0].h, bottom, i - 1);
    } else if i != 0 && j != 0 {
      ContiguousDisjoint(tiles[1..], top + tiles[0].h, bottom, i - 1, j - 1, row);
    }
  }

  /**
   * Merged size and drawing rectangles for a body of bodyWidth x bodyHeight
   * and a border of borderWidth x borderHeight. The border column is tiled
   * from the top in steps of borderHeight, each destination rectangle
   * shortened to the rows that remain. A border of height 0 draws nothing
   * (the loop of handleMergeImages would not end for it on a body of positive
   * height, see ZeroHeightBorderNeverAdvances).
   */
  method MergeLayout(bodyWidth: nat, bodyHeight: nat, borderWidth: nat, borderHeight: nat) returns (layout: Layout)
    ensures layout.mergedWidth == bodyWidth + borderWidth && layout.mergedHeight == bodyHeight
    ensures layout.body == Rect(0, 0, bodyWidth, bodyHeight)
    ensures borderHeight == 0 ==> layout.tiles == []
    ensures borderHeight > 0 ==> Contiguous(layout.tiles, 0, bodyHeight)
    ensures forall i :: 0 <= i < |layout.tiles| ==>
      layout.tiles[i] == Rect(bodyWidth, i * borderHeight, borderWidth, Min(borderHeight, bodyHeight - i * borderHeight))
    ensures forall i :: 0 <= i < |layout.tiles| ==> layout.tiles[i].h > 0
  {
    var mergedWidth := bodyWidth + borderWidth;
    var mergedHeight := bodyHeight;
    var tiles: seq<Rect> := [];
    if borderHeight > 0 {
      var currentBorderY := 0;
      while currentBorderY < mergedHeight
        invariant currentBorderY == |tiles| * borderHeight
        invariant Contiguous(tiles, 0, Min(currentBorderY, mergedHeight))
        invariant forall i :: 0 <= i < |tiles| ==>
          tiles[i] == Rect(bodyWidth, i * borderHeight, borderWidth, Min(borderHeight, mergedHeight - i * borderHeight))
        invariant forall i :: 0 <= i < |tiles| ==> tiles[i].h > 0
        decreases mergedHeight - currentBorderY
      {
        var drawHeight := Min(borderHeight, mergedHeight - currentBorderY);
        var tile := Rect(bodyWidth, currentBorderY, borderWidth, drawHeight);
        ContiguousAppend(tiles, 0, currentBorderY, tile);
        tiles := tiles + [tile];
        currentBorderY := currentBorderY + borderHeight;
      }
    }
    layout := Layout(mergedWidth, mergedHeight, Rect(0, 0, bodyWidth, bodyHeight), tiles);
  }

  /**
   * Tiles that stack contiguously over the canvas height cover every canvas
   * row exactly once and all lie inside the canvas.
   */
  lemma BorderTilesPartitionColumn(layout: Layout, row: int)
    requires Contiguous(layout.tiles, 0, layout.mergedHeight)
    requires 0 <= row < layout.mergedHeight
    ensures exists i :: 0 <= i < |layout.tiles| && InRect(layout.tiles[i], row)
    ensures forall i, j ::
      (0 <= i < |layout.tiles| && 0 <= j < |layout.tiles| &&
       InRect(layout.tiles[i], row) && InRect(layout.tiles[j], row)) ==> i == j
    ensures forall i :: 0 <= i < |layout.tiles| ==>
      0 <= layout.tiles[i].y && layout.tiles[i].y + layout.tiles[i].h <= layout.mergedHeight
  {
    var k := ContiguousCovers(layout.tiles, 0, layout.mergedHeight, row);
    forall i, j | 0 <= i < |layout.tiles| && 0 <= j < |layout.tiles| &&
      InRect(layout.tiles[i], row) && InRect(layout.tiles[j], row)
      ensures i == j
    {
      ContiguousDisjoint(layout.tiles, 0, layout.mergedHeight, i, j, row);
    }
    forall i | 0 <= i < |layout.tiles|
      ensures 0 <= layout.tiles[i].y && layout.tiles[i].y + layout.tiles[i].h <= layout.mergedHeight
    {
      ContiguousWithin(layout.tiles, 0, layout.mergedHeight, i);
    }
  }

  /** `currentBorderY` after n passes of the loop body as written: each pass adds borderHeight. */
  function CursorAfter(borderHeight: nat, n: nat): (y: nat)
    ensures y == n * borderHeight
  {
    if n == 0 then 0 else CursorAfter(borderHeight, n - 1) + borderHeight
  }

  /**
   * As written, a border of height 0 on a body of positive height never moves
   * the cursor, so the loop guard `currentBorderY < mergedHeight` holds after
   * every number of passes and the loop does not end.
   */
  lemma ZeroHeightBorderNeverAdvances(mergedHeight: nat)
    requires mergedHeight > 0
    ensures forall n: nat :: CursorAfter(0, n) == 0 && CursorAfter(0, n) < mergedHeight
  {
  }

  /**
   * As written, with a positive border height the loop guard first fails after
   * `passes` passes: the least number of borderHeight steps that reaches
   * mergedHeight, which is 0 exactly for an empty canvas.
   */
  lemma PassesAsWritten(borderHeight: nat, mergedHeight: nat) returns (passes: nat)
    requires borderHeight > 0
    ensures CursorAfter(borderHeight, passes) >= mergedHeight
    ensures forall m: nat :: m < passes ==> CursorAfter(borderHeight, m) < mergedHeight
    ensures passes == 0 <==> mergedHeight == 0
    ensures mergedHeight <= passes * borderHeight
    ensures passes > 0 ==> (passes - 1) * borderHeight < mergedHeight
  {
    var t := mergedHeight + borderHeight - 1;
    passes := t / borderHeight;
    var r := t % borderHeight;
    assert t == passes * borderHeight + r;
    assert passes * borderHeight >= mergedHeight;
    if passes > 0 {
      assert (passes - 1) * borderHeight == passes * borderHeight - borderHeight;
      assert (passes - 1) * borderHeight < mergedHeight;
      forall m: nat | m < passes
        ensures CursorAfter(borderHeight, m) < mergedHeight
      {
        MulMonotone(m, passes - 1, borderHeight);
      }
    }
  }

  lemma MulMonotone(a: nat, b: nat, c: nat)
    requires a <= b
    ensures a * c <= b * c
  {
  }

  /**
   * The number of border tiles is the number of started borderHeight bands in
   * the canvas: the least n with n * borderHeight >= mergedHeight.
   */
  lemma TileCount(layout: Layout, borderHeight: nat)
    requires borderHeight > 0
    requires Contiguous(layout.tiles, 0, layout.mergedHeight)
    requires forall i :: 0 <= i < |layout.tiles| ==> layout.tiles[i].y == i * borderHeight && layout.tiles[i].h <= borderHeight
    ensures |layout.tiles| == 0 <==> layout.mergedHeight == 0
    ensures |layout.tiles| > 0 ==>
      (|layout.tiles| - 1) * borderHeight < layout.mergedHeight <= |layout.tiles| * borderHeight
  {
    var n := |layout.tiles|;
    if n > 0 {
      LastTileEndsAtBottom(layout.tiles, 0, layout.mergedHeight);
      assert (n - 1) * borderHeight + borderHeight == n * borderHeight;
    }
  }

  /** The last tile of a non-empty contiguous stack ends at `bottom`. */
  lemma {:induction false} LastTileEndsAtBottom(tiles: seq<Rect>, top: int, bottom: int)
    requires Contiguous(tiles, top, bottom) && tiles != []
    ensures tiles[|tiles| - 1].y + tiles[|tiles| - 1].h == bottom && tiles[|tiles| - 1].h > 0
    decreases |tiles|
  {
    if |tiles| > 1 {
      LastTileEndsAtBottom(tiles[1..], top + tiles[0].h, bottom);
    }
  }
}
