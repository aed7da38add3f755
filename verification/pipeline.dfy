/**
 * The transformation chain of `make_gabial` in gabiel.py, without opening,
 * saving or showing the image: mirror, slice the columns, turn a quarter
 * left, slice again (now the former rows), turn back.
 */
module Gabial {
  import opened Raster
  import opened Results
  import opened Mirror
  import opened Slicing

  /** The image `make_gabial` saves, or the exception it stops with. */
  function MakeGabial(img: Image, n: int): (r: Result<Image>)
    requires img.Valid()
    ensures r.Err? <==> n == 0
    ensures r.Err? ==> r.error == ZeroDivisionError
    ensures r.Ok? ==> r.value.Valid() && r.value.mode == img.mode
    ensures r.Ok? ==> r.value.width == FloorDiv(2 * img.width, n) * n
    ensures r.Ok? ==> r.value.height == FloorDiv(2 * img.height, n) * n
  {
    match SliceRev(Mirrored(img), n)
    case Err(e) => Err(e)
    case Ok(vertical) =>
      match SliceRev(Rotate90(vertical), n)
      case Err(e) => Err(e)
      case Ok(horizontal) => Ok(RotateMinus90(horizontal))
  }

  /**
   * Turning a quarter left, slicing and turning back permutes rows instead of
   * columns: output row `y` is input row `SourceColumn(n, size, y)`.
   */
  lemma RowPass(img: Image, n: nat, x: nat, y: nat)
    requires img.Valid() && 0 < n && x < img.width && y < FloorDiv(img.height, n) * n
    ensures var size := FloorDiv(img.height, n);
      var out := RotateMinus90(SliceRev(Rotate90(img), n).value);
      out.width == img.width && out.height == size * n &&
      y < n * size && SourceColumn(n, size, y) < img.height &&
      out.At(x, y) == img.At(x, SourceColumn(n, size, y))
  {
    var turned := Rotate90(img);
    var sliced := SliceRev(turned, n).value;
    SliceRevAt(turned, n, y, img.width - 1 - x);
    assert RotateMinus90(sliced).At(x, y) == sliced.At(y, img.width - 1 - x);
  }

  /**
   * Output pixel `(x, y)` shows pixel `(SourceColumn(n, s1, x),
   * SourceColumn(n, s2, y))` of the mirrored image, and so source pixel
   * `(Reflect(w, cx), Reflect(h, cy))` of the input.
   */
  lemma MakeGabialAt(img: Image, n: nat, x: nat, y: nat)
    requires img.Valid() && 0 < n
    requires x < MakeGabial(img, n).value.width && y < MakeGabial(img, n).value.height
    ensures var s1, s2 := FloorDiv(2 * img.width, n), FloorDiv(2 * img.height, n);
      x < n * s1 && y < n * s2 &&
      SourceColumn(n, s1, x) < 2 * img.width && SourceColumn(n, s2, y) < 2 * img.height &&
      MakeGabial(img, n).value.At(x, y) == Mirrored(img).At(SourceColumn(n, s1, x), SourceColumn(n, s2, y)) &&
      MakeGabial(img, n).value.At(x, y)
        == img.At(Reflect(img.width, SourceColumn(n, s1, x)), Reflect(img.height, SourceColumn(n, s2, y)))
  {
    var m := Mirrored(img);
    var vertical := SliceRev(m, n).value;
    CanvasWidth(2 * img.width, n);
    var s1: nat := FloorDiv(2 * img.width, n);
    RowPass(vertical, n, x, y);
    var sy := SourceColumn(n, FloorDiv(2 * img.height, n), y);
    SliceRevAt(m, n, x, sy);
    MirroredAt(img, SourceColumn(n, s1, x), sy);
  }

  /** For a positive count, a solid-colour source gives a solid output of the same colour. */
  lemma MakeGabialSolid(img: Image, n: nat, v: Pixel, x: nat, y: nat)
    requires img.Valid() && 0 < n
    requires forall i, j :: 0 <= i < img.width && 0 <= j < img.height ==> img.At(i, j) == v
    requires x < MakeGabial(img, n).value.width && y < MakeGabial(img, n).value.height
    ensures MakeGabial(img, n).value.At(x, y) == v
  {
    MakeGabialAt(img, n, x, y);
  }

  /** When `n` divides both doubled sides nothing is cut: the output is `2w x 2h`. */
  lemma MakeGabialKeepsSize(img: Image, n: nat)
    requires img.Valid() && 0 < n && (2 * img.width) % n == 0 && (2 * img.height) % n == 0
    ensures MakeGabial(img, n).value.width == 2 * img.width
    ensures MakeGabial(img, n).value.height == 2 * img.height
  {
  }

  /** A negative slice count leaves only the blank canvas of the last pass. */
  lemma MakeGabialNegative(img: Image, n: int, x: nat, y: nat)
    requires img.Valid() && n < 0
    requires x < MakeGabial(img, n).value.width && y < MakeGabial(img, n).value.height
    ensures MakeGabial(img, n).value.At(x, y) == Blank
  {
  }
}
