/**
 * The raster images gabiel.py works on, and the handful of Pillow operations it
 * uses on them: Image.new, crop, paste, transpose (the two flips) and
 * rotate(±90, expand=1). Pixels are abstract; only their positions matter.
 */
module Raster {

  /** One pixel value, whatever the colour mode packs into it. */
  type Pixel = int

  /** The colour Image.new fills a fresh canvas with (all channels zero). */
  const Blank: Pixel := 0

  /** Pillow's colour-mode tag ("RGB", "L", ...). */
  type Mode = string

  /**
   * An image as a value: `px[x]` is column `x`, top to bottom, so the pixel
   * Pillow addresses as `(x, y)` is `px[x][y]`.
   */
  datatype Image = Image(mode: Mode, width: nat, height: nat, px: seq<seq<Pixel>>) {

    predicate Valid() {
      |px| == width && forall x :: 0 <= x < |px| ==> |px[x]| == height
    }

    function At(x: nat, y: nat): Pixel
      requires Valid() && x < width && y < height
    {
      px[x][y]
    }
  }

  /** Two well-formed images with the same mode, size and pixels are the same image. */
  lemma SameImage(a: Image, b: Image)
    requires a.Valid() && b.Valid()
    requires a.mode == b.mode && a.width == b.width && a.height == b.height
    requires forall x, y :: 0 <= x < a.width && 0 <= y < a.height ==> a.At(x, y) == b.At(x, y)
    ensures a == b
  {
    forall x | 0 <= x < a.width
      ensures a.px[x] == b.px[x]
    {
      assert forall y :: 0 <= y < a.height ==> a.px[x][y] == a.At(x, y) == b.At(x, y) == b.px[x][y];
    }
  }

  /** `Image.new(mode, (width, height))`: a canvas of the zero colour. */
  function BlankImage(mode: Mode, width: nat, height: nat): (r: Image)
    ensures r.Valid() && r.mode == mode && r.width == width && r.height == height
    ensures forall x, y :: 0 <= x < width && 0 <= y < height ==> r.At(x, y) == Blank
  {
    Image(mode, width, height, seq(width, _ => seq(height, _ => Blank)))
  }

  /** `img.crop((left, top, right, bottom))` for a box inside the image. */
  function Crop(img: Image, left: nat, top: nat, right: nat, bottom: nat): (r: Image)
    requires img.Valid() && left <= right <= img.width && top <= bottom <= img.height
    ensures r.Valid() && r.mode == img.mode
    ensures r.width == right - left && r.height == bottom - top
    ensures forall x, y :: 0 <= x < r.width && 0 <= y < r.height ==> r.At(x, y) == img.At(left + x, top + y)
  {
    Image(img.mode, right - left, bottom - top,
      seq(right - left, x requires 0 <= x < right - left => img.px[left + x][top..bottom]))
  }

  /** True when pasting `src` with its top-left corner at `(ox, oy)` covers pixel `(x, y)`. */
  predicate Covers(src: Image, ox: int, oy: int, x: int, y: int) {
    ox <= x < ox + src.width && oy <= y < oy + src.height
  }

  /**
   * What `dst.paste(src, (ox, oy))` leaves in `dst`: the covered pixels come
   * from `src`, the rest are kept, and the part of `src` that falls outside
   * `dst` is dropped.
   */
  function Pasted(dst: Image, src: Image, ox: int, oy: int): (r: Image)
    requires dst.Valid() && src.Valid()
    ensures r.Valid() && r.mode == dst.mode && r.width == dst.width && r.height == dst.height
  {
    Image(dst.mode, dst.width, dst.height,
      seq(dst.width, x requires 0 <= x < dst.width =>
        seq(dst.height, y requires 0 <= y < dst.height =>
          if Covers(src, ox, oy, x, y) then src.px[x - ox][y - oy] else dst.px[x][y])))
  }

  /** Pixel `(x, y)` after a paste. */
  lemma PastedAt(dst: Image, src: Image, ox: int, oy: int, x: nat, y: nat)
    requires dst.Valid() && src.Valid() && x < dst.width && y < dst.height
    ensures Pasted(dst, src, ox, oy).At(x, y)
         == if Covers(src, ox, oy, x, y) then src.At(x - ox, y - oy) else dst.At(x, y)
  {
  }

  /** `img.transpose(Image.FLIP_LEFT_RIGHT)`. */
  function FlipLeftRight(img: Image): (r: Image)
    requires img.Valid()
    ensures r.Valid() && r.mode == img.mode && r.width == img.width && r.height == img.height
    ensures forall x, y :: 0 <= x < r.width && 0 <= y < r.height ==> r.At(x, y) == img.At(img.width - 1 - x, y)
  {
    Image(img.mode, img.width, img.height,
      seq(img.width, x requires 0 <= x < img.width => img.px[img.width - 1 - x]))
  }

  /** `img.transpose(Image.FLIP_TOP_BOTTOM)`. */
  function FlipTopBottom(img: Image): (r: Image)
    requires img.Valid()
    ensures r.Valid() && r.mode == img.mode && r.width == img.width && r.height == img.height
    ensures forall x, y :: 0 <= x < r.width && 0 <= y < r.height ==> r.At(x, y) == img.At(x, img.height - 1 - y)
  {
    Image(img.mode, img.width, img.height,
      seq(img.width, x requires 0 <= x < img.width =>
        seq(img.height, y requires 0 <= y < img.height => img.px[x][img.height - 1 - y])))
  }

  /**
   * `img.rotate(90, expand=1)`: a quarter turn counter-clockwise (Pillow's
   * sense for positive angles), so width and height swap and nothing is
   * interpolated or cropped.
   */
  function Rotate90(img: Image): (r: Image)
    requires img.Valid()
    ensures r.Valid() && r.mode == img.mode && r.width == img.height && r.height == img.width
    ensures forall x, y :: 0 <= x < r.width && 0 <= y < r.height ==> r.At(x, y) == img.At(img.width - 1 - y, x)
  {
    Image(img.mode, img.height, img.width,
      seq(img.height, x requires 0 <= x < img.height =>
        seq(img.width, y requires 0 <= y < img.width => img.px[img.width - 1 - y][x])))
  }

  /** `img.rotate(-90, expand=1)`: a quarter turn clockwise. */
  function RotateMinus90(img: Image): (r: Image)
    requires img.Valid()
    ensures r.Valid() && r.mode == img.mode && r.width == img.height && r.height == img.width
    ensures forall x, y :: 0 <= x < r.width && 0 <= y < r.height ==> r.At(x, y) == img.At(y, img.height - 1 - x)
  {
    Image(img.mode, img.height, img.width,
      seq(img.height, x requires 0 <= x < img.height =>
        seq(img.width, y requires 0 <= y < img.width => img.px[y][img.height - 1 - x])))
  }

  /** Flipping left to right twice gives the image back. */
  lemma FlipLeftRightTwice(img: Image)
    requires img.Valid()
    ensures FlipLeftRight(FlipLeftRight(img)) == img
  {
    SameImage(FlipLeftRight(FlipLeftRight(img)), img);
  }

  /** Flipping top to bottom twice gives the image back. */
  lemma FlipTopBottomTwice(img: Image)
    requires img.Valid()
    ensures FlipTopBottom(FlipTopBottom(img)) == img
  {
    SameImage(FlipTopBottom(FlipTopBottom(img)), img);
  }

  /** The two flips commute: flipping both ways is one rotation by 180 degrees. */
  lemma FlipsCommute(img: Image)
    requires img.Valid()
    ensures FlipTopBottom(FlipLeftRight(img)) == FlipLeftRight(FlipTopBottom(img))
  {
    SameImage(FlipTopBottom(FlipLeftRight(img)), FlipLeftRight(FlipTopBottom(img)));
  }

  /** rotate(90) then rotate(-90), both with expand, restores pixels and size. */
  lemma RotateRoundTrip(img: Image)
    requires img.Valid()
    ensures RotateMinus90(Rotate90(img)) == img
    ensures Rotate90(RotateMinus90(img)) == img
  {
    SameImage(RotateMinus90(Rotate90(img)), img);
    SameImage(Rotate90(RotateMinus90(img)), img);
  }

  /**
   * A Pillow image that is written in place: the canvas `Image.new` allocates
   * and `paste` overwrites.
   */
  class Canvas {
    const mode: Mode
    const width: nat
    const height: nat
    const data: array2<Pixel>

    ghost predicate Valid()
      reads this
    {
      data.Length0 == width && data.Length1 == height
    }

    /** `Image.new(mode, (width, height))`. */
    constructor (mode: Mode, width: nat, height: nat)
      ensures Valid() && fresh(data)
      ensures this.mode == mode && this.width == width && this.height == height
      ensures Snapshot() == BlankImage(mode, width, height)
    {
      this.mode := mode;
      this.width := width;
      this.height := height;
      data := new Pixel[width, height]((_, _) => Blank);
      new;
      SameImage(Snapshot(), BlankImage(mode, width, height));
    }

    /** The canvas as an image value. */
    function Snapshot(): (img: Image)
      requires Valid()
      reads this, data
      ensures img.Valid() && img.mode == mode && img.width == width && img.height == height
      ensures forall x, y :: 0 <= x < width && 0 <= y < height ==> img.At(x, y) == data[x, y]
    {
      Image(mode, width, height,
        seq(width, x requires 0 <= x < width reads data =>
          seq(height, y requires 0 <= y < height reads data => data[x, y])))
    }

    /**
     * `paste(src, (ox, oy))`: copies `src` with its top-left corner at
     * `(ox, oy)`, pixel by pixel, skipping those outside the canvas.
     */
    method Paste(src: Image, ox: int, oy: int)
      requires Valid() && src.Valid()
      modifies data
      ensures Valid()
      ensures Snapshot() == Pasted(old(Snapshot()), src, ox, oy)
    {
      ghost var before := Snapshot();
      var sx := 0;
      while sx < src.width
        invariant 0 <= sx <= src.width
        invariant forall x, y :: 0 <= x < width && 0 <= y < height ==>
          data[x, y] == if Covers(src, ox, oy, x, y) && x < ox + sx then src.At(x - ox, y - oy) else old(data[x, y])
      {
        var sy := 0;
        while sy < src.height
          invariant 0 <= sy <= src.height
          invariant forall x, y :: 0 <= x < width && 0 <= y < height ==>
            data[x, y] == if Covers(src, ox, oy, x, y) && (x < ox + sx || (x == ox + sx && y < oy + sy))
                          then src.At(x - ox, y - oy) else old(data[x, y])
        {
          var x, y := ox + sx, oy + sy;
          if 0 <= x < width && 0 <= y < height {
            data[x, y] := src.At(sx, sy);
          }
          sy := sy + 1;
        }
        sx := sx + 1;
      }
      forall x, y | 0 <= x < width && 0 <= y < height
        ensures Snapshot().At(x, y) == Pasted(before, src, ox, oy).At(x, y)
      {
        PastedAt(before, src, ox, oy, x, y);
      }
      SameImage(Snapshot(), Pasted(before, src, ox, oy));
    }
  }
}
