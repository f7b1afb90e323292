/**
 * Importing an image (`pictureFromImage`): the image is drawn at the origin
 * of a canvas clamped to at most 100 x 100 cells, and every RGBA pixel of
 * that canvas becomes a lower-case "#rrggbb" color.
 */
module Codec {
  import opened Raster

  type Byte = b: int | 0 <= b < 256

  /** Imported pictures are cut to at most this many cells per side. */
  const MaxSide: nat := 100

  predicate IsHexDigit(c: char) {
    '0' <= c <= '9' || 'a' <= c <= 'f'
  }

  /** The digit `Number.prototype.toString(16)` writes for `n`. */
  function HexDigit(n: int): (c: char)
    requires 0 <= n < 16
    ensures IsHexDigit(c)
  {
    if n < 10 then (48 + n) as char else (87 + n) as char
  }

  /** The value of a hexadecimal digit, read back. */
  function DigitValue(c: char): int
    requires IsHexDigit(c)
  {
    if c <= '9' then c as int - 48 else c as int - 87
  }

  /** `n.toString(16)` for a byte: no leading zero. */
  function ToHexString(n: Byte): string {
    if n < 16 then [HexDigit(n)] else [HexDigit(n / 16), HexDigit(n % 16)]
  }

  /** `s.padStart(2, "0")`. */
  function PadStart2(s: string): string {
    if |s| >= 2 then s else seq(2 - |s|, _ => '0') + s
  }

  /** `hex(n)`: a byte as exactly two lower-case hexadecimal digits. */
  function Hex(n: Byte): string {
    PadStart2(ToHexString(n))
  }

  /** Reads two hexadecimal digits back as a byte value. */
  function ParseHex(h: string): int
    requires |h| == 2 && IsHexDigit(h[0]) && IsHexDigit(h[1])
  {
    16 * DigitValue(h[0]) + DigitValue(h[1])
  }

  /** `hex` always writes two digits, and they read back as the byte written. */
  lemma HexRoundTrip(n: Byte)
    ensures |Hex(n)| == 2 && IsHexDigit(Hex(n)[0]) && IsHexDigit(Hex(n)[1])
    ensures ParseHex(Hex(n)) == n
  {
  }

  /** `"#" + hex(r) + hex(g) + hex(b)`. */
  function RgbColor(r: Byte, g: Byte, b: Byte): Color {
    "#" + Hex(r) + Hex(g) + Hex(b)
  }

  /** A color is `#` and seven characters long, with the three bytes at fixed offsets. */
  lemma RgbColorLayout(r: Byte, g: Byte, b: Byte)
    ensures var c := RgbColor(r, g, b);
            |c| == 7 && c[0] == '#' && c[1..3] == Hex(r) && c[3..5] == Hex(g) && c[5..7] == Hex(b)
  {
    HexRoundTrip(r);
    HexRoundTrip(g);
    HexRoundTrip(b);
  }

  /** Distinct RGB bytes give distinct color strings. */
  lemma RgbColorInjective(r: Byte, g: Byte, b: Byte, r': Byte, g': Byte, b': Byte)
    requires RgbColor(r, g, b) == RgbColor(r', g', b')
    ensures r == r' && g == g' && b == b'
  {
    var c, c' := RgbColor(r, g, b), RgbColor(r', g', b');
    RgbColorLayout(r, g, b);
    RgbColorLayout(r', g', b');
    HexRoundTrip(r); HexRoundTrip(g); HexRoundTrip(b);
    HexRoundTrip(r'); HexRoundTrip(g'); HexRoundTrip(b');
    assert Hex(r) == c[1..3] == c'[1..3] == Hex(r');
    assert Hex(g) == c[3..5] == c'[3..5] == Hex(g');
    assert Hex(b) == c[5..7] == c'[5..7] == Hex(b');
  }

  /**
   * The import loop over the RGBA bytes of `n` pixels, four bytes at a
   * time: each group of four yields `f` of its first three bytes; alpha is
   * dropped.
   */
  function Quads<T>(data: seq<Byte>, n: nat, f: (Byte, Byte, Byte) -> T): (cs: seq<T>)
    requires |data| == 4 * n
    ensures |cs| == n
    ensures forall k :: 0 <= k < n ==> cs[k] == f(data[4 * k], data[4 * k + 1], data[4 * k + 2])
    decreases n
  {
    if n == 0 then []
    else
      var rest := Quads(data[4..], n - 1, f);
      var cs := [f(data[0], data[1], data[2])] + rest;
      assert forall k :: 0 <= k < n ==> cs[k] == f(data[4 * k], data[4 * k + 1], data[4 * k + 2]) by {
        forall k | 0 < k < n
          ensures cs[k] == f(data[4 * k], data[4 * k + 1], data[4 * k + 2])
        {
          var m := 4 * (k - 1);
          assert cs[k] == rest[k - 1];
          assert data[4..][m] == data[4 * k] && data[4..][m + 1] == data[4 * k + 1] && data[4..][m + 2] == data[4 * k + 2];
        }
      }
      cs
  }

  /**
   * The canvas bytes `getImageData(0, 0, w, h)` returns after the image
   * (`iw` x `ih`, RGBA, row-major) was drawn at the origin: the top-left
   * `w` x `h` corner of the image, byte for byte.
   */
  function CanvasData(image: seq<Byte>, iw: nat, ih: nat, w: nat, h: nat): (data: seq<Byte>)
    requires |image| == 4 * (iw * ih) && w <= iw && h <= ih
    ensures |data| == 4 * (w * h)
  {
    seq(4 * (w * h), j requires 0 <= j < 4 * (w * h) =>
      var k := j / 4;
      IndexSurjective(w, h, k);
      var x, y := k % w, k / w;
      IndexInRange(iw, ih, x, y);
      image[4 * (x + y * iw) + j % 4])
  }

  /** The color of pixel `(x, y)` of an `iw` x `ih` RGBA image. */
  function ImagePixel(image: seq<Byte>, iw: nat, ih: nat, x: int, y: int): Color
    requires |image| == 4 * (iw * ih) && 0 <= x < iw && 0 <= y < ih
  {
    IndexInRange(iw, ih, x, y);
    var i := 4 * (x + y * iw);
    RgbColor(image[i], image[i + 1], image[i + 2])
  }

  /**
   * `pictureFromImage`: the picture is `min(100, iw)` x `min(100, ih)` and
   * the cell `(x, y)` gets the color of the image pixel `(x, y)`. An image
   * with no rows or no columns gives a zero-sized canvas, on which
   * `getImageData` throws an `IndexSizeError` (the HTML standard's pixel
   * manipulation algorithm rejects a zero width or height); the import then
   * produces no picture.
   */
  function PictureFromImage(image: seq<Byte>, iw: nat, ih: nat): (r: Option<Picture>)
    requires |image| == 4 * (iw * ih)
    ensures r.None? <==> iw == 0 || ih == 0
    ensures r.Some? ==> var p := r.value;
              p.Valid() && p.width == Min(MaxSide, iw) && p.height == Min(MaxSide, ih)
    ensures r.Some? ==> var p := r.value;
              forall x, y :: p.Contains(x, y) ==> x < iw && y < ih && PixelAt(p, x, y) == ImagePixel(image, iw, ih, x, y)
  {
    var w, h := Min(MaxSide, iw), Min(MaxSide, ih);
    if w == 0 || h == 0 then None
    else
      var p := Picture(w, h, Quads(CanvasData(image, iw, ih, w, h), w * h, RgbColor));
      assert forall x, y :: p.Contains(x, y) ==> x < iw && y < ih && PixelAt(p, x, y) == ImagePixel(image, iw, ih, x, y) by {
        forall x, y | p.Contains(x, y)
          ensures x < iw && y < ih && PixelAt(p, x, y) == ImagePixel(image, iw, ih, x, y)
        {
          CanvasPixel(image, iw, ih, w, h, x, y);
        }
      }
      Some(p)
  }

  /** Cell `(x, y)` of the canvas colors holds the color of image pixel `(x, y)`. */
  lemma CanvasPixel(image: seq<Byte>, iw: nat, ih: nat, w: nat, h: nat, x: int, y: int)
    requires |image| == 4 * (iw * ih) && w <= iw && h <= ih
    requires 0 <= x < w && 0 <= y < h
    ensures 0 <= x + y * w < w * h
    ensures Quads(CanvasData(image, iw, ih, w, h), w * h, RgbColor)[x + y * w] == ImagePixel(image, iw, ih, x, y)
  {
    IndexInRange(w, h, x, y);
    IndexInRange(iw, ih, x, y);
    var data := CanvasData(image, iw, ih, w, h);
    var k, i := x + y * w, x + y * iw;
    CanvasByte(image, iw, ih, w, h, x, y, k, i, 0);
    CanvasByte(image, iw, ih, w, h, x, y, k, i, 1);
    CanvasByte(image, iw, ih, w, h, x, y, k, i, 2);
    var cs := Quads(data, w * h, RgbColor);
    assert cs[k] == RgbColor(data[4 * k], data[4 * k + 1], data[4 * k + 2]);
    ImagePixelBytes(image, iw, ih, x, y, i);
    assert data[4 * k] == image[4 * i] && data[4 * k + 1] == image[4 * i + 1] && data[4 * k + 2] == image[4 * i + 2];
    assert cs[k] == ImagePixel(image, iw, ih, x, y);
  }

  lemma ImagePixelBytes(image: seq<Byte>, iw: nat, ih: nat, x: int, y: int, i: int)
    requires |image| == 4 * (iw * ih) && 0 <= x < iw && 0 <= y < ih && i == x + y * iw
    ensures 0 <= 4 * i && 4 * i + 2 < |image|
    ensures ImagePixel(image, iw, ih, x, y) == RgbColor(image[4 * i], image[4 * i + 1], image[4 * i + 2])
  {
    IndexInRange(iw, ih, x, y);
  }

  /** Byte `c` of canvas pixel `(x, y)` is byte `c` of image pixel `(x, y)`. */
  lemma CanvasByte(image: seq<Byte>, iw: nat, ih: nat, w: nat, h: nat, x: int, y: int, k: int, i: int, c: int)
    requires |image| == 4 * (iw * ih) && w <= iw && h <= ih
    requires 0 <= x < w && 0 <= y < h && 0 <= c < 4
    requires k == x + y * w && i == x + y * iw
    ensures 0 <= 4 * k + c < 4 * (w * h)
    ensures 0 <= 4 * i + c < |image|
    ensures CanvasData(image, iw, ih, w, h)[4 * k + c] == image[4 * i + c]
  {
    IndexInRange(w, h, x, y);
    IndexInRange(iw, ih, x, y);
    var j := 4 * k + c;
    assert j / 4 == k && j % 4 == c;
    IndexSurjective(w, h, k);
    IndexInjective(w, k % w, k / w, x, y);
  }
}
