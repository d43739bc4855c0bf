/**
 * The QImages the manager keeps (LDR inputs, previews of the float inputs,
 * anti-ghosting masks) as values, with the QImage and QRect operations the
 * core uses: pixel access, qAlpha, a transparent fill, and copy(rect).
 */
module Raster {
  /** One 32-bit ARGB word (QRgb). */
  const Word: int := 0x1_0000_0000

  /** A QImage: `width` x `height` ARGB words, rows first (`argb[y][x]`). */
  datatype Picture = Picture(width: int, height: int, argb: seq<seq<int>>)

  predicate Valid(p: Picture)
  {
    0 <= p.width && 0 <= p.height && |p.argb| == p.height &&
    (forall y :: 0 <= y < |p.argb| ==> |p.argb[y]| == p.width) &&
    forall y, x :: 0 <= y < |p.argb| && 0 <= x < |p.argb[y]| ==> 0 <= p.argb[y][x] < Word
  }

  /** QImage::pixel(x, y). */
  function PixelOf(p: Picture, x: int, y: int): (v: int)
    requires Valid(p) && 0 <= x < p.width && 0 <= y < p.height
    ensures 0 <= v < Word
  {
    p.argb[y][x]
  }

  /** qAlpha: the top byte of an ARGB word. */
  function Alpha(v: int): (a: int)
    requires 0 <= v < Word
    ensures 0 <= a < 256
  {
    v / 0x100_0000
  }

  /** qAlpha(p.pixel(x, y)). */
  function AlphaAt(p: Picture, x: int, y: int): (a: int)
    requires Valid(p) && 0 <= x < p.width && 0 <= y < p.height
    ensures 0 <= a < 256
  {
    Alpha(PixelOf(p, x, y))
  }

  /** A w x h image filled with qRgba(0, 0, 0, 0): the fresh anti-ghosting mask. */
  function Blank(w: int, h: int): (p: Picture)
    requires 0 <= w && 0 <= h
    ensures Valid(p) && p.width == w && p.height == h
  {
    Picture(w, h, seq(h, _ => seq(w, _ => 0)))
  }

  /** The fresh mask is transparent everywhere: it masks nothing until painted. */
  lemma BlankTransparent(w: int, h: int)
    requires 0 <= w && 0 <= h
    ensures forall y, x :: 0 <= y < h && 0 <= x < w ==> AlphaAt(Blank(w, h), x, y) == 0
  {
  }

  /** A QRect: top-left corner and size. */
  datatype Rect = Rect(left: int, top: int, width: int, height: int)

  /** QRect::right(), the x2 that getCoords reports: the last column inside, not one past it. */
  function Right(r: Rect): int
  {
    r.left + r.width - 1
  }

  /** QRect::bottom(), the y2 that getCoords reports. */
  function Bottom(r: Rect): int
  {
    r.top + r.height - 1
  }

  /** The pixel copy(rect) puts at (x, y): the source pixel, or 0 where the rectangle leaves the image. */
  function CopiedAt(p: Picture, r: Rect, x: int, y: int): (v: int)
    requires Valid(p)
    ensures 0 <= v < Word
  {
    var sx, sy := r.left + x, r.top + y;
    if 0 <= sx < p.width && 0 <= sy < p.height then p.argb[sy][sx] else 0
  }

  /**
   * QImage::copy(rect) for a nonempty rectangle: an image of the rectangle's
   * size holding the pixels the rectangle covers, and 0 where it leaves the
   * source image.
   */
  function Copy(p: Picture, r: Rect): (q: Picture)
    requires Valid(p) && 0 < r.width && 0 < r.height
    ensures Valid(q) && q.width == r.width && q.height == r.height
    ensures forall y, x :: 0 <= y < r.height && 0 <= x < r.width ==> q.argb[y][x] == CopiedAt(p, r, x, y)
  {
    Picture(r.width, r.height,
            seq(r.height, y requires 0 <= y < r.height =>
              seq(r.width, x requires 0 <= x < r.width => CopiedAt(p, r, x, y))))
  }

  /**
   * A transparent image cut out of a transparent image stays transparent,
   * wherever the rectangle lies.
   */
  lemma CopyOfBlank(w: int, h: int, r: Rect)
    requires 0 <= w && 0 <= h && 0 < r.width && 0 < r.height
    ensures Copy(Blank(w, h), r) == Blank(r.width, r.height)
  {
    var q, b := Copy(Blank(w, h), r), Blank(r.width, r.height);
    assert forall y :: 0 <= y < r.height ==> q.argb[y] == b.argb[y];
  }

  /**
   * A rectangle that lies inside the image is cut out without fill: pixel
   * (x, y) of the cut is pixel (left + x, top + y) of the image.
   */
  lemma CopyInsideKeepsPixels(p: Picture, r: Rect, x: int, y: int)
    requires Valid(p) && 0 < r.width && 0 < r.height
    requires 0 <= r.left && 0 <= r.top && r.left + r.width <= p.width && r.top + r.height <= p.height
    requires 0 <= x < r.width && 0 <= y < r.height
    ensures PixelOf(Copy(p, r), x, y) == PixelOf(p, r.left + x, r.top + y)
  {
  }

  /** A picture moved by (dx, dy), 0 where nothing moves in: stands in for shiftQImage. */
  function ShiftPicture(p: Picture, dx: int, dy: int): (q: Picture)
    requires Valid(p)
    ensures Valid(q) && q.width == p.width && q.height == p.height
  {
    var r := Rect(-dx, -dy, p.width, p.height);
    Picture(p.width, p.height,
            seq(p.height, y requires 0 <= y < p.height =>
              seq(p.width, x requires 0 <= x < p.width => CopiedAt(p, r, x, y))))
  }
}
