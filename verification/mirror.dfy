/**
 * The mirror compositor, `create_mirrored_image` in gabiel.py: the source
 * image and three reflections of it tiled into a canvas twice as wide and
 * twice as tall.
 */
module Mirror {
  import opened Raster

  /**
   * The coordinate of the source read at coordinate `i` of a doubled axis of
   * length `2 * n`: the first half copies, the second half mirrors.
   */
  function Reflect(n: nat, i: nat): (r: nat)
    requires i < 2 * n
    ensures r < n
  {
    if i < n then i else 2 * n - 1 - i
  }

  /** The mirrored image, pixel by pixel: what the four pastes leave behind. */
  function Mirrored(img: Image): (r: Image)
    requires img.Valid()
    ensures r.Valid() && r.mode == img.mode
    ensures r.width == 2 * img.width && r.height == 2 * img.height
  {
    Image(img.mode, 2 * img.width, 2 * img.height,
      seq(2 * img.width, x requires 0 <= x < 2 * img.width =>
        seq(2 * img.height, y requires 0 <= y < 2 * img.height =>
          img.px[Reflect(img.width, x)][Reflect(img.height, y)])))
  }

  /** Pixel `(x, y)` of the mirrored image, read back from the source. */
  lemma MirroredAt(img: Image, x: nat, y: nat)
    requires img.Valid() && x < 2 * img.width && y < 2 * img.height
    ensures Mirrored(img).At(x, y) == img.At(Reflect(img.width, x), Reflect(img.height, y))
  {
  }

  /** How many of the four pastes of `create_mirrored_image` cover pixel `(x, y)`. */
  function PastesCovering(img: Image, x: int, y: int): nat
    requires img.Valid()
  {
    var w, h := img.width, img.height;
    (if Covers(img, 0, 0, x, y) then 1 else 0) +
    (if Covers(FlipTopBottom(img), 0, h, x, y) then 1 else 0) +
    (if Covers(FlipLeftRight(img), w, 0, x, y) then 1 else 0) +
    (if Covers(FlipTopBottom(FlipLeftRight(img)), w, h, x, y) then 1 else 0)
  }

  /** The four pastes tile the canvas: every pixel is written by exactly one of them. */
  lemma PastesTile(img: Image, x: nat, y: nat)
    requires img.Valid() && x < 2 * img.width && y < 2 * img.height
    ensures PastesCovering(img, x, y) == 1
  {
  }

  /**
   * Pixel `(x, y)` after the four pastes of `create_mirrored_image`: each
   * quadrant holds the paste that covers it, and no pixel is left blank.
   */
  lemma FourPastesAt(img: Image, x: nat, y: nat)
    requires img.Valid() && x < 2 * img.width && y < 2 * img.height
    ensures
      var w, h := img.width, img.height;
      var topRight := FlipLeftRight(img);
      Pasted(Pasted(Pasted(Pasted(BlankImage(img.mode, w * 2, h * 2),
        img, 0, 0), FlipTopBottom(img), 0, h), topRight, w, 0), FlipTopBottom(topRight), w, h).At(x, y)
      == img.At(Reflect(w, x), Reflect(h, y))
  {
    var w, h := img.width, img.height;
    var topRight := FlipLeftRight(img);
    var step1 := Pasted(BlankImage(img.mode, w * 2, h * 2), img, 0, 0);
    var step2 := Pasted(step1, FlipTopBottom(img), 0, h);
    var step3 := Pasted(step2, topRight, w, 0);
    PastedAt(step3, FlipTopBottom(topRight), w, h, x, y);
    if x < w && y < h {
      PastedAt(step2, topRight, w, 0, x, y);
      PastedAt(step1, FlipTopBottom(img), 0, h, x, y);
      PastedAt(BlankImage(img.mode, w * 2, h * 2), img, 0, 0, x, y);
    } else if x < w {
      PastedAt(step2, topRight, w, 0, x, y);
      PastedAt(step1, FlipTopBottom(img), 0, h, x, y);
    } else if y < h {
      PastedAt(step2, topRight, w, 0, x, y);
    }
  }

  /**
   * The four pastes of `create_mirrored_image`, done on a blank canvas in
   * the source's order, give the mirrored image: every pixel ends up copied
   * from the source, none is left blank.
   */
  lemma FourPastes(img: Image)
    requires img.Valid()
    ensures
      var w, h := img.width, img.height;
      var topRight := FlipLeftRight(img);
      Pasted(Pasted(Pasted(Pasted(BlankImage(img.mode, w * 2, h * 2),
        img, 0, 0), FlipTopBottom(img), 0, h), topRight, w, 0), FlipTopBottom(topRight), w, h)
      == Mirrored(img)
  {
    var w, h := img.width, img.height;
    var topRight := FlipLeftRight(img);
    var out := Pasted(Pasted(Pasted(Pasted(BlankImage(img.mode, w * 2, h * 2),
      img, 0, 0), FlipTopBottom(img), 0, h), topRight, w, 0), FlipTopBottom(topRight), w, h);
    forall x, y | 0 <= x < out.width && 0 <= y < out.height
      ensures out.At(x, y) == Mirrored(img).At(x, y)
    {
      MirroredAt(img, x, y);
      FourPastesAt(img, x, y);
    }
    SameImage(out, Mirrored(img));
  }

  /**
   * `create_mirrored_image(img)`: allocate a `2w x 2h` canvas of the same
   * mode and paste the source, its top-to-bottom flip, its left-to-right flip
   * and the top-to-bottom flip of that, at (0, 0), (0, h), (w, 0) and (w, h).
   */
  method CreateMirroredImage(img: Image) returns (out: Image)
    requires img.Valid()
    ensures out == Mirrored(img)
  {
    var width, height := img.width, img.height;
    var canvas := new Canvas(img.mode, width * 2, height * 2);
    canvas.Paste(img, 0, 0);
    var bottomLeft := FlipTopBottom(img);
    canvas.Paste(bottomLeft, 0, height);
    var topRight := FlipLeftRight(img);
    canvas.Paste(topRight, width, 0);
    var bottomRight := FlipTopBottom(topRight);
    canvas.Paste(bottomRight, width, height);
    out := canvas.Snapshot();
    FourPastes(img);
  }

  /**
   * The four quadrants: the source, its top-to-bottom flip below it, its
   * left-to-right flip beside it, and both flips diagonally opposite.
   */
  lemma MirroredQuadrants(img: Image, x: nat, y: nat)
    requires img.Valid() && x < img.width && y < img.height
    ensures Mirrored(img).At(x, y) == img.At(x, y)
    ensures Mirrored(img).At(x, img.height + y) == img.At(x, img.height - 1 - y)
    ensures Mirrored(img).At(img.width + x, y) == img.At(img.width - 1 - x, y)
    ensures Mirrored(img).At(img.width + x, img.height + y) == img.At(img.width - 1 - x, img.height - 1 - y)
  {
    MirroredAt(img, x, y);
    MirroredAt(img, x, img.height + y);
    MirroredAt(img, img.width + x, y);
    MirroredAt(img, img.width + x, img.height + y);
  }

  /**
   * The bottom-right quadrant is the top-left quadrant rotated by 180
   * degrees.
   */
  lemma MirroredOppositeCorners(img: Image, x: nat, y: nat)
    requires img.Valid() && x < img.width && y < img.height
    ensures Mirrored(img).At(img.width + x, img.height + y)
         == Mirrored(img).At(img.width - 1 - x, img.height - 1 - y)
  {
    MirroredQuadrants(img, x, y);
    MirroredQuadrants(img, img.width - 1 - x, img.height - 1 - y);
  }

  /** The result is symmetric about both of its centre lines. */
  lemma MirroredSymmetric(img: Image)
    requires img.Valid()
    ensures FlipLeftRight(Mirrored(img)) == Mirrored(img)
    ensures FlipTopBottom(Mirrored(img)) == Mirrored(img)
  {
    var m := Mirrored(img);
    forall x, y | 0 <= x < m.width && 0 <= y < m.height
      ensures m.At(m.width - 1 - x, y) == m.At(x, y) && m.At(x, m.height - 1 - y) == m.At(x, y)
    {
      MirroredAt(img, x, y);
      MirroredAt(img, m.width - 1 - x, y);
      MirroredAt(img, x, m.height - 1 - y);
    }
    SameImage(FlipLeftRight(m), m);
    SameImage(FlipTopBottom(m), m);
  }
}
