/**
 * The raster: an immutable `width x height` grid of colors stored row-major,
 * the cell at `(x, y)` living at index `x + y * width`.
 */
module Raster {

  /** Colors are the editor's "#rrggbb" strings; only equality matters here. */
  type Color = string

  /** A grid coordinate: origin top-left, `x` to the right, `y` downwards. */
  datatype Pos = Pos(x: int, y: int)

  /** One cell write `{x, y, color}` of a batch handed to `Draw`. */
  datatype Write = Write(x: int, y: int, color: Color)

  datatype Picture = Picture(width: nat, height: nat, pixels: seq<Color>)
  {
    /** The buffer holds exactly one color per cell. */
    predicate Valid() {
      |pixels| == width * height
    }

    predicate Contains(x: int, y: int) {
      0 <= x < width && 0 <= y < height
    }
  }

  /** A value that may be absent: an unset field, or an operation that produced nothing. */
  datatype Option<T> = None | Some(value: T)

  function Min(a: int, b: int): int { if a < b then a else b }
  function Max(a: int, b: int): int { if a < b then b else a }

  predicate Hits(w: Write, x: int, y: int) {
    w.x == x && w.y == y
  }

  /** Every write of the batch lands inside the picture. */
  predicate AllInside(p: Picture, ws: seq<Write>) {
    forall i :: 0 <= i < |ws| ==> p.Contains(ws[i].x, ws[i].y)
  }

  // ---------------------------------------------------------------------------
  // Index arithmetic

  lemma MulMonotone(a: nat, b: nat, c: nat)
    requires a <= b
    ensures a * c <= b * c
  {
  }

  /** An in-bounds coordinate addresses a cell of the buffer. */
  lemma IndexInRange(w: nat, h: nat, x: int, y: int)
    requires 0 <= x < w && 0 <= y < h
    ensures 0 <= x + y * w < w * h
  {
    MulMonotone(y + 1, h, w);
    assert x + y * w < (y + 1) * w;
  }

  /** Distinct in-bounds coordinates address distinct cells. */
  lemma IndexInjective(w: nat, x1: int, y1: int, x2: int, y2: int)
    requires 0 <= x1 < w && 0 <= x2 < w && 0 <= y1 && 0 <= y2
    requires x1 + y1 * w == x2 + y2 * w
    ensures x1 == x2 && y1 == y2
  {
    if y1 < y2 {
      MulMonotone(y1 + 1, y2, w);
    } else if y2 < y1 {
      MulMonotone(y2 + 1, y1, w);
    }
  }

  /** Every cell of the buffer is addressed by some in-bounds coordinate. */
  lemma IndexSurjective(w: nat, h: nat, k: int)
    requires 0 <= k < w * h
    ensures w > 0 && 0 <= k / w < h && k % w + (k / w) * w == k
  {
    assert w != 0;
    if k / w >= h {
      MulMonotone(h, k / w, w);
    }
  }

  // ---------------------------------------------------------------------------
  // Reading and constructing

  /** `pixel(x, y)`: the color stored at index `x + y * width`. */
  function PixelAt(p: Picture, x: int, y: int): Color
    requires p.Valid() && p.Contains(x, y)
  {
    IndexInRange(p.width, p.height, x, y);
    p.pixels[x + y * p.width]
  }

  /** Every buffer cell is what `pixel` reads at one in-bounds coordinate. */
  lemma PixelReadsBuffer(p: Picture, k: int) returns (x: int, y: int)
    requires p.Valid() && 0 <= k < |p.pixels|
    ensures p.Contains(x, y) && x + y * p.width == k
    ensures PixelAt(p, x, y) == p.pixels[k]
  {
    IndexSurjective(p.width, p.height, k);
    x, y := k % p.width, k / p.width;
  }

  /** Two valid pictures of the same size that agree on every cell are equal. */
  lemma {:induction false} Extensionality(p: Picture, q: Picture)
    requires p.Valid() && q.Valid()
    requires p.width == q.width && p.height == q.height
    requires forall x, y :: p.Contains(x, y) ==> PixelAt(p, x, y) == PixelAt(q, x, y)
    ensures p == q
  {
    forall k | 0 <= k < |p.pixels|
      ensures p.pixels[k] == q.pixels[k]
    {
      IndexSurjective(p.width, p.height, k);
      var x, y := k % p.width, k / p.width;
      assert p.Contains(x, y);
      assert PixelAt(p, x, y) == PixelAt(q, x, y);
    }
  }

  /** `Picture.empty`: a grid of the given size filled with one color. */
  function Empty(width: nat, height: nat, color: Color): (p: Picture)
    ensures p.Valid() && p.width == width && p.height == height
    ensures forall x, y :: p.Contains(x, y) ==> PixelAt(p, x, y) == color
  {
    var p := Picture(width, height, seq(width * height, _ => color));
    assert forall x, y :: p.Contains(x, y) ==> PixelAt(p, x, y) == color by {
      forall x, y | p.Contains(x, y) ensures PixelAt(p, x, y) == color {
        IndexInRange(width, height, x, y);
      }
    }
    p
  }

  // ---------------------------------------------------------------------------
  // Drawing a batch of writes

  /**
   * Reference meaning of a batch: the color of the LAST write in `ws` that
   * targets `(x, y)`, or `d` when no write does.
   */
  function LastColor(ws: seq<Write>, x: int, y: int, d: Color): Color
  {
    if |ws| == 0 then d
    else if Hits(ws[|ws| - 1], x, y) then ws[|ws| - 1].color
    else LastColor(ws[..|ws| - 1], x, y, d)
  }

  /** With no write targeting `(x, y)`, `LastColor` is the default. */
  lemma {:induction false} LastColorUntouched(ws: seq<Write>, x: int, y: int, d: Color)
    requires forall i :: 0 <= i < |ws| ==> !Hits(ws[i], x, y)
    ensures LastColor(ws, x, y, d) == d
  {
    if |ws| > 0 {
      var n := |ws| - 1;
      assert forall i :: 0 <= i < n ==> ws[..n][i] == ws[i];
      LastColorUntouched(ws[..n], x, y, d);
    }
  }

  /** `LastColor` is the color of the last write that targets `(x, y)`. */
  lemma {:induction false} LastColorIsLastWrite(ws: seq<Write>, x: int, y: int, d: Color, i: int)
    requires 0 <= i < |ws| && Hits(ws[i], x, y)
    requires forall j :: i < j < |ws| ==> !Hits(ws[j], x, y)
    ensures LastColor(ws, x, y, d) == ws[i].color
  {
    var n := |ws| - 1;
    if i < n {
      assert ws[..n][i] == ws[i];
      assert forall j :: i < j < n ==> ws[..n][j] == ws[j];
      LastColorIsLastWrite(ws[..n], x, y, d, i);
    }
  }

  /** Peeling the first write off the batch turns it into the default. */
  lemma {:induction false} LastColorFront(ws: seq<Write>, x: int, y: int, d: Color)
    requires |ws| > 0
    ensures LastColor(ws, x, y, d) == LastColor(ws[1..], x, y, if Hits(ws[0], x, y) then ws[0].color else d)
  {
    var n := |ws| - 1;
    if n > 0 {
      assert ws[1..][..n - 1] == ws[..n][1..];
      LastColorFront(ws[..n], x, y, d);
    }
  }

  /** A single write: the buffer cell at the write's row-major index takes its color. */
  function Put(p: Picture, w: Write): (q: Picture)
    requires p.Valid() && p.Contains(w.x, w.y)
    ensures q.Valid() && q.width == p.width && q.height == p.height
    ensures forall x, y :: p.Contains(x, y) ==>
              PixelAt(q, x, y) == if Hits(w, x, y) then w.color else PixelAt(p, x, y)
  {
    IndexInRange(p.width, p.height, w.x, w.y);
    var q := p.(pixels := p.pixels[w.x + w.y * p.width := w.color]);
    assert forall x, y :: p.Contains(x, y) ==>
             PixelAt(q, x, y) == if Hits(w, x, y) then w.color else PixelAt(p, x, y) by {
      forall x, y | p.Contains(x, y)
        ensures PixelAt(q, x, y) == if Hits(w, x, y) then w.color else PixelAt(p, x, y)
      {
        IndexInRange(p.width, p.height, x, y);
        if !Hits(w, x, y) {
          if x + y * p.width == w.x + w.y * p.width {
            IndexInjective(p.width, x, y, w.x, w.y);
          }
        }
      }
    }
    q
  }

  /**
   * `Picture.draw`: applies the writes in order over a copy of the buffer and
   * returns the new picture; the size is kept and, per cell, the last write
   * to it wins. The argument picture is a value and is left as it was.
   */
  function Draw(p: Picture, ws: seq<Write>): (q: Picture)
    requires p.Valid() && AllInside(p, ws)
    ensures q.Valid() && q.width == p.width && q.height == p.height
    ensures forall x, y :: p.Contains(x, y) ==> PixelAt(q, x, y) == LastColor(ws, x, y, PixelAt(p, x, y))
    decreases |ws|
  {
    if |ws| == 0 then p
    else
      var p' := Put(p, ws[0]);
      var q := Draw(p', ws[1..]);
      assert forall x, y :: p.Contains(x, y) ==> PixelAt(q, x, y) == LastColor(ws, x, y, PixelAt(p, x, y)) by {
        forall x, y | p.Contains(x, y)
          ensures PixelAt(q, x, y) == LastColor(ws, x, y, PixelAt(p, x, y))
        {
          LastColorFront(ws, x, y, PixelAt(p, x, y));
        }
      }
      q
  }

  /**
   * The batch semantics spelled out without `LastColor`: a cell no write
   * targets keeps its color, and a targeted cell takes the color of the last
   * write to it.
   */
  lemma DrawLastWriteWins(p: Picture, ws: seq<Write>, x: int, y: int)
    requires p.Valid() && AllInside(p, ws) && p.Contains(x, y)
    ensures (forall i :: 0 <= i < |ws| ==> !Hits(ws[i], x, y)) ==> PixelAt(Draw(p, ws), x, y) == PixelAt(p, x, y)
    ensures forall i :: 0 <= i < |ws| && Hits(ws[i], x, y) && (forall j :: i < j < |ws| ==> !Hits(ws[j], x, y))
                        ==> PixelAt(Draw(p, ws), x, y) == ws[i].color
  {
    if forall i :: 0 <= i < |ws| ==> !Hits(ws[i], x, y) {
      LastColorUntouched(ws, x, y, PixelAt(p, x, y));
    }
    forall i | 0 <= i < |ws| && Hits(ws[i], x, y) && (forall j :: i < j < |ws| ==> !Hits(ws[j], x, y))
      ensures PixelAt(Draw(p, ws), x, y) == ws[i].color
    {
      LastColorIsLastWrite(ws, x, y, PixelAt(p, x, y), i);
    }
  }

  /** When every write targeting the cell uses the color `c`, and one does, the cell ends up `c`. */
  lemma {:induction false} LastColorUniform(ws: seq<Write>, x: int, y: int, d: Color, c: Color)
    requires forall i :: 0 <= i < |ws| && Hits(ws[i], x, y) ==> ws[i].color == c
    ensures LastColor(ws, x, y, d) == (if exists i :: 0 <= i < |ws| && Hits(ws[i], x, y) then c else d)
  {
    if |ws| > 0 {
      var n := |ws| - 1;
      LastColorUniform(ws[..n], x, y, d, c);
      if !Hits(ws[n], x, y) {
        assert (exists i :: 0 <= i < |ws| && Hits(ws[i], x, y)) <==> (exists i :: 0 <= i < n && Hits(ws[..n][i], x, y)) by {
          forall i | 0 <= i < n ensures ws[..n][i] == ws[i] { }
        }
      }
    }
  }

  /** A batch that only rewrites cells with the color they already have changes nothing. */
  lemma DrawNoOp(p: Picture, ws: seq<Write>)
    requires p.Valid() && AllInside(p, ws)
    requires forall i :: 0 <= i < |ws| ==> ws[i].color == PixelAt(p, ws[i].x, ws[i].y)
    ensures Draw(p, ws) == p
  {
    var q := Draw(p, ws);
    forall x, y | p.Contains(x, y) ensures PixelAt(q, x, y) == PixelAt(p, x, y) {
      LastColorUniform(ws, x, y, PixelAt(p, x, y), PixelAt(p, x, y));
    }
    Extensionality(q, p);
  }
}
