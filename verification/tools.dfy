/**
 * The drawing tools. Each one turns a grid position and the current state
 * into the single action it dispatches: a new picture, or a new color.
 */
module Tools {
  import opened Raster
  import opened History

  // ---------------------------------------------------------------------------
  // draw

  /**
   * `draw` / `drawPixel`: paint the current color at `pos`. The drag
   * continuation does the same with the latest state at each new position.
   */
  function DrawPixel(pos: Pos, state: State): (a: Action)
    requires state.picture.Valid() && state.picture.Contains(pos.x, pos.y)
    ensures !a.undo && a.tool.None? && a.color.None? && a.picture.Some?
    ensures var p, q := state.picture, a.picture.value;
            q.Valid() && q.width == p.width && q.height == p.height &&
            forall x, y :: p.Contains(x, y) ==>
              PixelAt(q, x, y) == if x == pos.x && y == pos.y then state.color else PixelAt(p, x, y)
  {
    var ws := [Write(pos.x, pos.y, state.color)];
    assert ws[..0] == [];
    PictureAction(Draw(state.picture, ws))
  }

  // ---------------------------------------------------------------------------
  // rectangle

  /** Some entry of the batch targets `(x, y)`: the worklist's test for an already listed cell. */
  predicate Visited(drawn: seq<Write>, x: int, y: int) {
    exists i :: 0 <= i < |drawn| && Hits(drawn[i], x, y)
  }

  /** The cells `(x, y) .. (xEnd, y)` of one row, left to right. */
  function Row(x: int, xEnd: int, y: int, c: Color): (ws: seq<Write>)
    ensures |ws| == if x <= xEnd then xEnd - x + 1 else 0
    ensures forall i :: 0 <= i < |ws| ==> ws[i] == Write(x + i, y, c)
    decreases xEnd - x
  {
    if x > xEnd then [] else [Write(x, y, c)] + Row(x + 1, xEnd, y, c)
  }

  /** Rows `y .. yEnd`, top to bottom, each spanning `xStart .. xEnd`. */
  function Rows(xStart: int, xEnd: int, y: int, yEnd: int, c: Color): (ws: seq<Write>)
    ensures forall i :: 0 <= i < |ws| ==>
              xStart <= ws[i].x <= xEnd && y <= ws[i].y <= yEnd && ws[i].color == c
    ensures forall px, py :: xStart <= px <= xEnd && y <= py <= yEnd ==> Visited(ws, px, py)
    decreases yEnd - y
  {
    if y > yEnd then []
    else
      var row := Row(xStart, xEnd, y, c);
      var rest := Rows(xStart, xEnd, y + 1, yEnd, c);
      var ws := row + rest;
      assert forall px, py :: xStart <= px <= xEnd && y <= py <= yEnd ==> Visited(ws, px, py) by {
        forall px, py | xStart <= px <= xEnd && y <= py <= yEnd
          ensures Visited(ws, px, py)
        {
          if py == y {
            assert Hits(ws[px - xStart], px, py);
          } else {
            assert Visited(rest, px, py);
            var j :| 0 <= j < |rest| && Hits(rest[j], px, py);
            assert Hits(ws[|row| + j], px, py);
          }
        }
      }
      ws
  }

  /** The inclusive bounding box of `start` and `pos`. */
  predicate InBox(start: Pos, pos: Pos, x: int, y: int) {
    Min(start.x, pos.x) <= x <= Max(start.x, pos.x) && Min(start.y, pos.y) <= y <= Max(start.y, pos.y)
  }

  /** The batch `drawRectangle` builds: the bounding box, row by row. */
  function RectangleWrites(start: Pos, pos: Pos, c: Color): seq<Write> {
    Rows(Min(start.x, pos.x), Max(start.x, pos.x), Min(start.y, pos.y), Max(start.y, pos.y), c)
  }

  /** The batch covers exactly the cells of the box, each with the given color. */
  lemma RectangleCoversBox(start: Pos, pos: Pos, c: Color, x: int, y: int)
    ensures var ws := RectangleWrites(start, pos, c);
            Visited(ws, x, y) <==> InBox(start, pos, x, y)
    ensures var ws := RectangleWrites(start, pos, c);
            forall i :: 0 <= i < |ws| ==> ws[i].color == c
  {
  }

  /** The batch has one write per cell of the box. */
  lemma {:induction false} RowsLength(xStart: int, xEnd: int, y: int, yEnd: int, c: Color)
    requires xStart <= xEnd
    ensures |Rows(xStart, xEnd, y, yEnd, c)| == if y <= yEnd then (yEnd - y + 1) * (xEnd - xStart + 1) else 0
    decreases yEnd - y
  {
    if y <= yEnd {
      RowsLength(xStart, xEnd, y + 1, yEnd, c);
    }
  }

  /**
   * `rectangle` / `drawRectangle`: paint the box between the anchor `start`
   * and `pos` over the picture of `state`, the state the gesture started in.
   * Each drag step recomputes from that same state, so earlier drag
   * positions leave no trace.
   */
  function DrawRectangle(start: Pos, state: State, pos: Pos): (a: Action)
    requires state.picture.Valid()
    requires state.picture.Contains(start.x, start.y) && state.picture.Contains(pos.x, pos.y)
    ensures !a.undo && a.tool.None? && a.color.None? && a.picture.Some?
    ensures var p, q := state.picture, a.picture.value;
            q.Valid() && q.width == p.width && q.height == p.height &&
            forall x, y :: p.Contains(x, y) ==>
              PixelAt(q, x, y) == if InBox(start, pos, x, y) then state.color else PixelAt(p, x, y)
  {
    var p := state.picture;
    var ws := RectangleWrites(start, pos, state.color);
    assert AllInside(p, ws);
    var q := Draw(p, ws);
    assert forall x, y :: p.Contains(x, y) ==>
             PixelAt(q, x, y) == if InBox(start, pos, x, y) then state.color else PixelAt(p, x, y) by {
      forall x, y | p.Contains(x, y)
        ensures PixelAt(q, x, y) == if InBox(start, pos, x, y) then state.color else PixelAt(p, x, y)
      {
        RectangleCoversBox(start, pos, state.color, x, y);
        LastColorUniform(ws, x, y, PixelAt(p, x, y), state.color);
      }
    }
    PictureAction(q)
  }

  /**
   * However a rectangle drag wanders, once its steps are dispatched the
   * picture is the box from the anchor to the last position, drawn over the
   * picture the gesture started from.
   */
  lemma RectangleDrag(s: State, start: Pos, g: State, positions: seq<Pos>, steps: seq<Step>)
    requires g.picture.Valid() && g.picture.Contains(start.x, start.y)
    requires |positions| > 0 && |steps| == |positions|
    requires forall i :: 0 <= i < |positions| ==> g.picture.Contains(positions[i].x, positions[i].y)
    requires forall i :: 0 <= i < |steps| ==> steps[i].action == DrawRectangle(start, g, positions[i])
    ensures Replay(s, steps).picture == DrawRectangle(start, g, positions[|positions| - 1]).picture.value
  {
    LastPictureWins(s, steps, |steps| - 1);
  }

  // ---------------------------------------------------------------------------
  // fill

  /** The `around` table: left, right, up, down. */
  const Around: seq<Pos> := [Pos(-1, 0), Pos(1, 0), Pos(0, -1), Pos(0, 1)]

  /** The neighbour of `(x, y)` in direction `k` of `Around`. */
  function Neighbour(x: int, y: int, k: int): Pos
    requires 0 <= k < 4
  {
    Pos(x + Around[k].x, y + Around[k].y)
  }

  function At(w: Write): Pos {
    Pos(w.x, w.y)
  }

  /** Two cells share an edge. */
  predicate Adjacent(a: Pos, b: Pos) {
    (a.x == b.x && (a.y == b.y + 1 || b.y == a.y + 1)) ||
    (a.y == b.y && (a.x == b.x + 1 || b.x == a.x + 1))
  }

  /** The `around` table lists exactly the four edge-sharing neighbours. */
  lemma AroundIsAdjacency(a: Pos, b: Pos)
    ensures Adjacent(a, b) <==> exists k :: 0 <= k < 4 && Neighbour(a.x, a.y, k) == b
  {
    if Adjacent(a, b) {
      if b.x == a.x - 1 {
        assert Neighbour(a.x, a.y, 0) == b;
      } else if b.x == a.x + 1 {
        assert Neighbour(a.x, a.y, 1) == b;
      } else if b.y == a.y - 1 {
        assert Neighbour(a.x, a.y, 2) == b;
      } else {
        assert Neighbour(a.x, a.y, 3) == b;
      }
    }
  }

  /** No coordinate appears twice. */
  predicate Distinct(drawn: seq<Write>) {
    forall i, j :: 0 <= i < j < |drawn| ==> At(drawn[i]) != At(drawn[j])
  }

  /** Every entry is in bounds, carries the fill color, and sat on a target-colored cell. */
  predicate Admitted(pic: Picture, target: Color, color: Color, drawn: seq<Write>)
    requires pic.Valid()
  {
    AllInside(pic, drawn) &&
    forall i :: 0 <= i < |drawn| ==> drawn[i].color == color && PixelAt(pic, drawn[i].x, drawn[i].y) == target
  }

  /** The first `k` neighbours of `w` that are in bounds and target-colored are in `drawn`. */
  predicate NeighboursIn(pic: Picture, target: Color, drawn: seq<Write>, w: Write, k: int)
    requires pic.Valid() && 0 <= k <= 4
  {
    forall d :: 0 <= d < k ==>
      var n := Neighbour(w.x, w.y, d);
      pic.Contains(n.x, n.y) && PixelAt(pic, n.x, n.y) == target ==> Visited(drawn, n.x, n.y)
  }

  /** No in-bounds target-colored neighbour of an entry is missing. */
  predicate Closed(pic: Picture, target: Color, drawn: seq<Write>)
    requires pic.Valid()
  {
    forall i :: 0 <= i < |drawn| ==> NeighboursIn(pic, target, drawn, drawn[i], 4)
  }

  /** Every entry after the first was admitted as the neighbour of an earlier one. */
  ghost predicate Tree(drawn: seq<Write>, parent: seq<int>) {
    |parent| == |drawn| &&
    forall k :: 0 < k < |drawn| ==> 0 <= parent[k] < k && Adjacent(At(drawn[parent[k]]), At(drawn[k]))
  }

  lemma VisitedGrows(drawn: seq<Write>, w: Write)
    ensures forall x, y :: Visited(drawn, x, y) ==> Visited(drawn + [w], x, y)
    ensures Visited(drawn + [w], w.x, w.y)
  {
    forall x, y | Visited(drawn, x, y) ensures Visited(drawn + [w], x, y) {
      var i :| 0 <= i < |drawn| && Hits(drawn[i], x, y);
      assert (drawn + [w])[i] == drawn[i];
    }
    assert (drawn + [w])[|drawn|] == w;
  }

  // Counting cells: a duplicate-free batch inside the picture has at most
  // `width * height` entries.

  function CellIndices(ws: seq<Write>, w: nat): set<int>
  {
    if |ws| == 0 then {} else CellIndices(ws[..|ws| - 1], w) + {ws[|ws| - 1].x + ws[|ws| - 1].y * w}
  }

  /** The buffer indices `0 .. n - 1`. */
  function Range(n: nat): (r: set<int>)
    ensures forall k :: k in r <==> 0 <= k < n
  {
    if n == 0 then {} else Range(n - 1) + {n - 1}
  }

  lemma {:induction false} RangeSize(n: nat)
    ensures |Range(n)| == n
  {
    if n > 0 {
      RangeSize(n - 1);
      var r := Range(n - 1);
      assert n - 1 !in r;
      assert |r + {n - 1}| == |r| + 1;
      assert Range(n) == r + {n - 1};
    }
  }

  lemma {:induction false} CellIndicesSize(p: Picture, ws: seq<Write>)
    requires p.Valid() && AllInside(p, ws) && Distinct(ws)
    ensures |CellIndices(ws, p.width)| == |ws|
    ensures CellIndices(ws, p.width) <= Range(p.width * p.height)
  {
    if |ws| > 0 {
      var n := |ws| - 1;
      var last := ws[n];
      assert AllInside(p, ws[..n]);
      CellIndicesSize(p, ws[..n]);
      IndexInRange(p.width, p.height, last.x, last.y);
      var k := last.x + last.y * p.width;
      if k in CellIndices(ws[..n], p.width) {
        var i := PreimageOfIndex(p, ws[..n], k);
        IndexInjective(p.width, ws[i].x, ws[i].y, last.x, last.y);
      }
    }
  }

  lemma {:induction false} PreimageOfIndex(p: Picture, ws: seq<Write>, k: int) returns (i: int)
    requires p.Valid() && AllInside(p, ws)
    requires k in CellIndices(ws, p.width)
    ensures 0 <= i < |ws| && ws[i].x + ws[i].y * p.width == k
  {
    var n := |ws| - 1;
    if k == ws[n].x + ws[n].y * p.width {
      i := n;
    } else {
      assert AllInside(p, ws[..n]);
      i := PreimageOfIndex(p, ws[..n], k);
      assert ws[..n][i] == ws[i];
    }
  }

  lemma DistinctBound(p: Picture, ws: seq<Write>)
    requires p.Valid() && AllInside(p, ws) && Distinct(ws)
    ensures |ws| <= p.width * p.height
  {
    CellIndicesSize(p, ws);
    RangeSize(p.width * p.height);
    SubsetSize(CellIndices(ws, p.width), Range(p.width * p.height));
  }

  lemma SubsetSize(a: set<int>, b: set<int>)
    requires a <= b
    ensures |a| <= |b|
  {
    assert b == a + (b - a);
  }

  /** Growing the list keeps every neighbour it already covered. */
  lemma NeighboursInGrows(pic: Picture, target: Color, drawn: seq<Write>, drawn': seq<Write>, w: Write)
    requires pic.Valid() && NeighboursIn(pic, target, drawn, w, 4)
    requires forall x, y :: Visited(drawn, x, y) ==> Visited(drawn', x, y)
    ensures NeighboursIn(pic, target, drawn', w, 4)
  {
  }

  /**
   * The inner loop of `fill` over the `around` table for the entry
   * `drawn[done]`: appends each in-bounds, target-colored neighbour not yet
   * listed, and nothing else.
   */
  method ScanAround(pic: Picture, target: Color, color: Color, drawn: seq<Write>, done: nat, ghost parent: seq<int>)
    returns (drawn': seq<Write>, ghost parent': seq<int>)
    requires pic.Valid() && done < |drawn|
    requires Admitted(pic, target, color, drawn) && Distinct(drawn) && Tree(drawn, parent)
    ensures |drawn| <= |drawn'| && drawn'[..|drawn|] == drawn
    ensures Admitted(pic, target, color, drawn') && Distinct(drawn') && Tree(drawn', parent')
    ensures |drawn'| <= pic.width * pic.height
    ensures forall x, y :: Visited(drawn, x, y) ==> Visited(drawn', x, y)
    ensures NeighboursIn(pic, target, drawn', drawn[done], 4)
    ensures forall k :: |drawn| <= k < |drawn'| ==> Adjacent(At(drawn[done]), At(drawn'[k]))
  {
    DistinctBound(pic, drawn);
    drawn', parent' := drawn, parent;
    var cur := drawn[done];
    var k := 0;
    while k < 4
      invariant 0 <= k <= 4
      invariant |drawn| <= |drawn'| && drawn'[..|drawn|] == drawn
      invariant Admitted(pic, target, color, drawn') && Distinct(drawn') && Tree(drawn', parent')
      invariant |drawn'| <= pic.width * pic.height
      invariant forall x, y :: Visited(drawn, x, y) ==> Visited(drawn', x, y)
      invariant NeighboursIn(pic, target, drawn', cur, k)
      invariant forall j :: |drawn| <= j < |drawn'| ==> Adjacent(At(cur), At(drawn'[j]))
    {
      var n := Neighbour(cur.x, cur.y, k);
      if pic.Contains(n.x, n.y) && PixelAt(pic, n.x, n.y) == target && !Visited(drawn', n.x, n.y) {
        var w := Write(n.x, n.y, color);
        VisitedGrows(drawn', w);
        AroundIsAdjacency(At(cur), n);
        assert drawn'[done] == cur;
        drawn' := drawn' + [w];
        parent' := parent' + [done];
        DistinctBound(pic, drawn');
      }
      k := k + 1;
    }
  }

  /**
   * `fill`'s worklist: starting from `start`, scan the entries of `drawn` in
   * order and append every in-bounds neighbour that has the start cell's
   * original color and is not yet listed. The color is read once, before the
   * search. The loop stops because `drawn` only grows by cells not yet in it
   * and has room for at most `width * height` of them.
   */
  method FloodFill(pic: Picture, start: Pos, color: Color) returns (drawn: seq<Write>)
    requires pic.Valid() && pic.Contains(start.x, start.y)
    ensures |drawn| >= 1 && drawn[0] == Write(start.x, start.y, color)
    ensures Admitted(pic, PixelAt(pic, start.x, start.y), color, drawn)
    ensures Distinct(drawn) && |drawn| <= pic.width * pic.height
    ensures Closed(pic, PixelAt(pic, start.x, start.y), drawn)
    ensures exists parent :: Tree(drawn, parent)
  {
    var target := PixelAt(pic, start.x, start.y);
    drawn := [Write(start.x, start.y, color)];
    ghost var parent: seq<int> := [0];
    var done := 0;
    while done < |drawn|
      invariant 0 <= done <= |drawn|
      invariant drawn[0] == Write(start.x, start.y, color)
      invariant Admitted(pic, target, color, drawn)
      invariant Distinct(drawn)
      invariant |drawn| <= pic.width * pic.height
      invariant forall i :: 0 <= i < done ==> NeighboursIn(pic, target, drawn, drawn[i], 4)
      invariant Tree(drawn, parent)
      decreases pic.width * pic.height - |drawn|, |drawn| - done
    {
      var before := drawn;
      drawn, parent := ScanAround(pic, target, color, drawn, done, parent);
      forall i | 0 <= i <= done ensures NeighboursIn(pic, target, drawn, drawn[i], 4) {
        assert drawn[i] == before[i];
        if i < done {
          NeighboursInGrows(pic, target, before, drawn, drawn[i]);
        }
      }
      done := done + 1;
    }
    assert Tree(drawn, parent);
  }

  // What the worklist computes: the 4-connected region of the start color.

  /** `path` steps from cell to edge-sharing cell, all in bounds and of color `target`. */
  ghost predicate IsPath(pic: Picture, target: Color, path: seq<Pos>)
    requires pic.Valid()
  {
    |path| >= 1 &&
    (forall i :: 0 <= i < |path| ==>
       pic.Contains(path[i].x, path[i].y) && PixelAt(pic, path[i].x, path[i].y) == target) &&
    (forall i :: 0 <= i < |path| - 1 ==> Adjacent(path[i], path[i + 1]))
  }

  /** `(x, y)` can be reached from `start` through cells of the start cell's color. */
  ghost predicate Connected(pic: Picture, start: Pos, x: int, y: int)
    requires pic.Valid() && pic.Contains(start.x, start.y)
  {
    exists path :: IsPath(pic, PixelAt(pic, start.x, start.y), path) &&
                   path[0] == start && path[|path| - 1] == Pos(x, y)
  }

  /** The guarantees `FloodFill` gives about its result, gathered in one place. */
  ghost predicate FillOutcome(pic: Picture, start: Pos, color: Color, drawn: seq<Write>)
    requires pic.Valid() && pic.Contains(start.x, start.y)
  {
    var target := PixelAt(pic, start.x, start.y);
    |drawn| >= 1 && drawn[0] == Write(start.x, start.y, color) &&
    Admitted(pic, target, color, drawn) && Distinct(drawn) &&
    Closed(pic, target, drawn) && exists parent :: Tree(drawn, parent)
  }

  /** A closed set that contains the first cell of a path contains its last. */
  lemma {:induction false} ClosedFollowsPath(pic: Picture, target: Color, drawn: seq<Write>, path: seq<Pos>)
    requires pic.Valid() && Closed(pic, target, drawn)
    requires IsPath(pic, target, path) && Visited(drawn, path[0].x, path[0].y)
    ensures Visited(drawn, path[|path| - 1].x, path[|path| - 1].y)
    decreases |path|
  {
    if |path| > 1 {
      var n := |path| - 1;
      var prefix := path[..n];
      assert forall i :: 0 <= i < n ==> prefix[i] == path[i];
      assert IsPath(pic, target, prefix);
      ClosedFollowsPath(pic, target, drawn, prefix);
      var a, b := path[n - 1], path[n];
      assert Adjacent(a, b);
      AroundIsAdjacency(a, b);
      var k :| 0 <= k < 4 && Neighbour(a.x, a.y, k) == b;
      var i :| 0 <= i < |drawn| && Hits(drawn[i], a.x, a.y);
      assert NeighboursIn(pic, target, drawn, drawn[i], 4);
    }
  }

  /** Every entry of a worklist built as a tree from `start` is reachable from `start`. */
  lemma {:induction false} TreeIsConnected(pic: Picture, start: Pos, color: Color, drawn: seq<Write>,
                                          parent: seq<int>, k: int)
    requires pic.Valid() && pic.Contains(start.x, start.y)
    requires |drawn| >= 1 && drawn[0] == Write(start.x, start.y, color)
    requires Admitted(pic, PixelAt(pic, start.x, start.y), color, drawn) && Tree(drawn, parent)
    requires 0 <= k < |drawn|
    ensures Connected(pic, start, drawn[k].x, drawn[k].y)
    decreases k
  {
    var target := PixelAt(pic, start.x, start.y);
    if k == 0 {
      var path := [start];
      assert IsPath(pic, target, path);
    } else {
      var j := parent[k];
      TreeIsConnected(pic, start, color, drawn, parent, j);
      var path :| IsPath(pic, target, path) && path[0] == start && path[|path| - 1] == At(drawn[j]);
      var path' := path + [At(drawn[k])];
      assert forall i :: 0 <= i < |path| ==> path'[i] == path[i];
      assert IsPath(pic, target, path');
    }
  }

  /**
   * `fill` soundness and completeness: a cell is in the worklist exactly when
   * it can be reached from the start cell through cells of the start color.
   */
  lemma FillIsRegion(pic: Picture, start: Pos, color: Color, drawn: seq<Write>, x: int, y: int)
    requires pic.Valid() && pic.Contains(start.x, start.y) && pic.Contains(x, y)
    requires FillOutcome(pic, start, color, drawn)
    ensures Visited(drawn, x, y) <==> Connected(pic, start, x, y)
  {
    var target := PixelAt(pic, start.x, start.y);
    if Visited(drawn, x, y) {
      var parent :| Tree(drawn, parent);
      var i :| 0 <= i < |drawn| && Hits(drawn[i], x, y);
      TreeIsConnected(pic, start, color, drawn, parent, i);
    }
    if Connected(pic, start, x, y) {
      var path :| IsPath(pic, target, path) && path[0] == start && path[|path| - 1] == Pos(x, y);
      assert Hits(drawn[0], start.x, start.y);
      ClosedFollowsPath(pic, target, drawn, path);
    }
  }

  /**
   * `fill`: recolor with the current color every cell reachable from `pos`
   * through cells of `pos`'s original color; every other cell keeps its color.
   */
  method Fill(pos: Pos, state: State) returns (a: Action)
    requires state.picture.Valid() && state.picture.Contains(pos.x, pos.y)
    ensures !a.undo && a.tool.None? && a.color.None? && a.picture.Some?
    ensures var p, q := state.picture, a.picture.value;
            q.Valid() && q.width == p.width && q.height == p.height &&
            forall x, y :: p.Contains(x, y) ==>
              PixelAt(q, x, y) == if Connected(p, pos, x, y) then state.color else PixelAt(p, x, y)
  {
    var p := state.picture;
    var drawn := FloodFill(p, pos, state.color);
    var q := Draw(p, drawn);
    forall x, y | p.Contains(x, y)
      ensures PixelAt(q, x, y) == if Connected(p, pos, x, y) then state.color else PixelAt(p, x, y)
    {
      FillIsRegion(p, pos, state.color, drawn, x, y);
      LastColorUniform(drawn, x, y, PixelAt(p, x, y), state.color);
    }
    a := PictureAction(q);
  }

  /** Filling a region with the color it already has leaves the picture as it was. */
  lemma FillOwnColorIsNoOp(pic: Picture, start: Pos, drawn: seq<Write>)
    requires pic.Valid() && pic.Contains(start.x, start.y)
    requires FillOutcome(pic, start, PixelAt(pic, start.x, start.y), drawn)
    ensures Draw(pic, drawn) == pic
  {
    DrawNoOp(pic, drawn);
  }

  function Abs(n: int): nat {
    if n < 0 then -n else n
  }

  /** On a grid of one color every cell is reachable from every other, so a fill recolors it all. */
  lemma {:induction false} UniformIsConnected(pic: Picture, start: Pos, x: int, y: int)
    requires pic.Valid() && pic.Contains(start.x, start.y) && pic.Contains(x, y)
    requires forall u, v :: pic.Contains(u, v) ==> PixelAt(pic, u, v) == PixelAt(pic, start.x, start.y)
    ensures Connected(pic, start, x, y)
    decreases Abs(x - start.x) + Abs(y - start.y)
  {
    var target := PixelAt(pic, start.x, start.y);
    if x == start.x && y == start.y {
      var path := [start];
      assert IsPath(pic, target, path);
    } else {
      var n := if x < start.x then Pos(x + 1, y)
               else if x > start.x then Pos(x - 1, y)
               else if y < start.y then Pos(x, y + 1)
               else Pos(x, y - 1);
      UniformIsConnected(pic, start, n.x, n.y);
      var path :| IsPath(pic, target, path) && path[0] == start && path[|path| - 1] == n;
      var path' := path + [Pos(x, y)];
      assert forall i :: 0 <= i < |path| ==> path'[i] == path[i];
      assert IsPath(pic, target, path');
    }
  }

  // ---------------------------------------------------------------------------
  // pick

  /** `pick`: dispatch the color under the pointer as the new current color. */
  function Pick(pos: Pos, state: State): (a: Action)
    requires state.picture.Valid() && state.picture.Contains(pos.x, pos.y)
    ensures !a.undo && a.tool.None? && a.picture.None? && a.color.Some?
    ensures a.color.value == PixelAt(state.picture, pos.x, pos.y)
  {
    ColorAction(PixelAt(state.picture, pos.x, pos.y))
  }

  /** Dispatching a pick changes the current color to the picked one and nothing else. */
  lemma PickOnlyChangesColor(s: State, pos: Pos, now: int)
    requires s.picture.Valid() && s.picture.Contains(pos.x, pos.y)
    ensures Reduce(s, Pick(pos, s), now) == s.(color := PixelAt(s.picture, pos.x, pos.y))
  {
  }

  // ---------------------------------------------------------------------------
  // A whole session step

  /**
   * The editor's opening scene: fill the fresh 70 x 50 canvas black from its
   * top-left corner, which recolors all of it, then undo, which brings back
   * the blank canvas.
   */
  method FillThenUndo(now: int, later: int) returns (filled: State, undone: State)
    requires now > DebounceMs
    ensures filled.picture.Valid() && filled.picture.width == 70 && filled.picture.height == 50
    ensures forall x, y :: filled.picture.Contains(x, y) ==> PixelAt(filled.picture, x, y) == "#000000"
    ensures |filled.done| == 1
    ensures undone.picture == Empty(70, 50, "#f0f0f0") && undone.done == []
  {
    var s := StartState;
    var a := Fill(Pos(0, 0), s);
    forall x, y | s.picture.Contains(x, y) ensures Connected(s.picture, Pos(0, 0), x, y) {
      UniformIsConnected(s.picture, Pos(0, 0), x, y);
    }
    filled := Reduce(s, a, now);
    undone := Reduce(filled, UndoAction, later);
  }
}
