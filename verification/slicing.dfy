/**
 * The slice permuter, `image_slice_rev` in gabiel.py: cut an image into
 * `slice_amt` vertical strips of equal width, then lay them out again by
 * repeatedly pasting the head of the working list, popping it and reversing
 * what is left.
 */
module Slicing {
  import opened Raster
  import opened Results

  /** Python's `a // b`: the quotient rounded toward negative infinity. */
  function FloorDiv(a: int, b: int): int
    requires b != 0
  {
    if b > 0 then a / b else (-a) / (-b)
  }

  /**
   * `FloorDiv(a, b)` rounds down: for a positive `b` the quotient times `b`
   * is at most `a` and less than `b` below it; for a negative `b` it is at
   * least `a` and less than `-b` above it.
   */
  lemma FloorDivIsFloor(a: int, b: int)
    requires b != 0
    ensures b > 0 ==> FloorDiv(a, b) * b <= a < FloorDiv(a, b) * b + b
    ensures b < 0 ==> FloorDiv(a, b) * b + b < a <= FloorDiv(a, b) * b
  {
  }

  /**
   * The canvas width `slice_size * slice_amt` for a source `width` wide: for
   * a positive count only the remainder columns are lost; for a negative one
   * the floor division makes it at least the source width.
   */
  lemma CanvasWidth(width: nat, n: int)
    requires n != 0
    ensures FloorDiv(width, n) * n >= 0
    ensures n > 0 ==> FloorDiv(width, n) >= 0 && FloorDiv(width, n) * n <= width < FloorDiv(width, n) * n + n
    ensures n < 0 ==> FloorDiv(width, n) <= 0 && FloorDiv(width, n) * n >= width
  {
    if n > 0 {
      CanvasWidthPositive(width, n);
    } else {
      CanvasWidthNegative(width, n);
    }
  }

  /** `CanvasWidth` for a positive count. */
  lemma CanvasWidthPositive(width: nat, n: int)
    requires n > 0
    ensures FloorDiv(width, n) >= 0 && FloorDiv(width, n) * n >= 0
    ensures FloorDiv(width, n) * n <= width < FloorDiv(width, n) * n + n
  {
    var q := width / n;
    assert FloorDiv(width, n) == q && q >= 0;
    MulMono(0, q, n);
    assert q * n + width % n == width && width % n < n;
  }

  /** `CanvasWidth` for a negative count. */
  lemma CanvasWidthNegative(width: nat, n: int)
    requires n < 0
    ensures FloorDiv(width, n) <= 0 && FloorDiv(width, n) * n >= width
  {
    var a, m := -(width as int), -n;
    var q := a / m;
    assert FloorDiv(width, n) == q && q <= 0;
    assert q * m + a % m == a && a % m >= 0;
    assert q * n == -(q * m);
  }

  // ---------------------------------------------------------------------------
  // The working-list shuffle

  /** `list.reverse()`, as a value. */
  function Reverse<T>(s: seq<T>): (r: seq<T>)
    ensures |r| == |s| && forall i :: 0 <= i < |s| ==> r[i] == s[|s| - 1 - i]
  {
    seq(|s|, i requires 0 <= i < |s| => s[|s| - 1 - i])
  }

  /**
   * The order in which the pasting loop takes the items of its working list:
   * the head, then (after `pop(0)` and `reverse()`) the head of the reversed
   * rest, and so on until the list is empty.
   */
  function FoldReverse<T>(s: seq<T>): seq<T>
    decreases |s|
  {
    if s == [] then [] else [s[0]] + FoldReverse(Reverse(s[1..]))
  }

  /** Which of `n` strips lands at output position `i`. */
  function Placed(n: nat, i: nat): (j: nat)
    requires i < n
    ensures j < n
  {
    if i % 2 == 0 then i / 2 else n - 1 - i / 2
  }

  /** The output position strip `j` of `n` lands at. */
  function Slot(n: nat, j: nat): (i: nat)
    requires j < n
    ensures i < n
  {
    if j < (n + 1) / 2 then 2 * j else 2 * (n - 1 - j) + 1
  }

  /** The placement order of `n` strips, position by position. */
  function Order(n: nat): (r: seq<nat>)
    ensures |r| == n
  {
    seq(n, i requires 0 <= i < n => Placed(n, i))
  }

  /**
   * Placement is a permutation of the strips: `Slot` undoes `Placed` and
   * `Placed` undoes `Slot`, so every strip is placed exactly once.
   */
  lemma PlacementInverse(n: nat)
    ensures forall i :: 0 <= i < n ==> Slot(n, Placed(n, i)) == i
    ensures forall j :: 0 <= j < n ==> Placed(n, Slot(n, j)) == j
  {
  }

  /** Placement order as a sequence: every index below `n` exactly once. */
  lemma OrderIsPermutation(n: nat)
    ensures forall j :: 0 <= j < n ==> j in Order(n)
    ensures forall i, k :: 0 <= i < k < n ==> Order(n)[i] != Order(n)[k]
  {
    PlacementInverse(n);
    forall j | 0 <= j < n
      ensures j in Order(n)
    {
      assert Order(n)[Slot(n, j)] == j;
    }
  }

  /** Four strips come out as 0, 3, 1, 2. */
  lemma OrderOfFour()
    ensures Order(4) == [0, 3, 1, 2]
  {
  }

  /** One step of the loop: placing after a pop and a reverse shifts the order by one. */
  lemma PlacedStep(n: nat, i: nat)
    requires 0 < i < n
    ensures n - 1 - Placed(n - 1, i - 1) == Placed(n, i)
  {
  }

  /**
   * The pop-and-reverse loop takes item `Placed(|s|, i)` at step `i`: the
   * closed form of the working-list shuffle.
   */
  lemma {:induction false} FoldReverseOrder<T>(s: seq<T>)
    ensures |FoldReverse(s)| == |s|
    ensures forall i :: 0 <= i < |s| ==> FoldReverse(s)[i] == s[Placed(|s|, i)]
    decreases |s|
  {
    if s != [] {
      var n := |s|;
      var rest := Reverse(s[1..]);
      FoldReverseOrder(rest);
      var r := FoldReverse(s);
      assert r == [s[0]] + FoldReverse(rest);
      forall i | 0 <= i < n
        ensures r[i] == s[Placed(n, i)]
      {
        if i > 0 {
          var j := Placed(n - 1, i - 1);
          assert r[i] == FoldReverse(rest)[i - 1] == rest[j];
          assert rest[j] == s[1..][n - 2 - j] == s[n - 1 - j];
          PlacedStep(n, i);
        }
      }
    }
  }

  /** Reversing keeps every item, as often as it occurs. */
  lemma {:induction false} ReverseMultiset<T>(s: seq<T>)
    ensures multiset(Reverse(s)) == multiset(s)
  {
    if s != [] {
      ReverseMultiset(s[1..]);
      assert Reverse(s) == Reverse(s[1..]) + [s[0]];
      assert s == [s[0]] + s[1..];
    }
  }

  /** The shuffle is a permutation of the working list. */
  lemma {:induction false} FoldReversePermutes<T>(s: seq<T>)
    ensures multiset(FoldReverse(s)) == multiset(s)
    decreases |s|
  {
    if s != [] {
      ReverseMultiset(s[1..]);
      FoldReversePermutes(Reverse(s[1..]));
      assert s == [s[0]] + s[1..];
    }
  }

  /** Strips labelled A, B, C, D are laid out as A, D, B, C. */
  lemma FoldReverseOfFour()
    ensures FoldReverse(['A', 'B', 'C', 'D']) == ['A', 'D', 'B', 'C']
  {
    FoldReverseOrder(['A', 'B', 'C', 'D']);
  }

  // ---------------------------------------------------------------------------
  // Strips of an image

  /** Multiplying by a natural number keeps the order. */
  lemma MulMono(a: int, b: int, s: nat)
    requires a <= b
    ensures a * s <= b * s
  {
  }

  /** Strip `k` of `n`, each `size` wide, ends at or before `n * size`. */
  lemma StripOffset(n: nat, size: nat, k: nat)
    requires k < n
    ensures (k + 1) * size == k * size + size <= n * size
  {
    MulMono(k + 1, n, size);
  }

  /** Column `x` lies in strip `x / size`, `x % size` columns from its left edge. */
  lemma ColumnInStrip(n: nat, size: nat, x: nat)
    requires x < n * size
    ensures size > 0 && x / size < n && x == (x / size) * size + x % size && x % size < size
  {
    assert size > 0;
    var q := x / size;
    if q >= n {
      MulMono(n, q, size);
    }
  }

  /** Column `c` of strip `k` is column `k * size + c`, and only that. */
  lemma StripColumn(size: nat, k: nat, c: nat)
    requires c < size
    ensures (k * size + c) / size == k && (k * size + c) % size == c
  {
    var x := k * size + c;
    var q, r := x / size, x % size;
    assert x == q * size + r && 0 <= r < size;
    if q > k {
      MulMono(k + 1, q, size);
    } else if q < k {
      MulMono(q + 1, k, size);
    }
  }

  /** Strip `k` of width `size`: `image.crop((k * size, 0, (k + 1) * size, image.height))`. */
  function Strip(img: Image, size: nat, k: nat): (r: Image)
    requires img.Valid() && (k + 1) * size <= img.width
    ensures r.Valid() && r.mode == img.mode && r.width == size && r.height == img.height
    ensures forall c, y :: 0 <= c < size && 0 <= y < img.height ==> r.At(c, y) == img.At(k * size + c, y)
  {
    Crop(img, k * size, 0, (k + 1) * size, img.height)
  }

  /** Column `c` of strip `k` is column `k * size + c` of the image. */
  lemma StripAt(img: Image, size: nat, k: nat, c: nat, y: nat)
    requires img.Valid() && (k + 1) * size <= img.width && c < size && y < img.height
    ensures k * size + c < img.width
    ensures Strip(img, size, k).At(c, y) == img.At(k * size + c, y)
  {
  }

  /** The first `m` strips of width `size`, left to right. */
  function Strips(img: Image, size: nat, m: nat): (r: seq<Image>)
    requires img.Valid() && m * size <= img.width
    ensures |r| == m
  {
    seq(m, k requires 0 <= k < m => (StripOffset(m, size, k); Strip(img, size, k)))
  }

  /** Every image of `ps` is `size` wide and `height` tall. */
  predicate AllStrips(ps: seq<Image>, size: nat, height: nat) {
    forall k :: 0 <= k < |ps| ==> ps[k].Valid() && ps[k].width == size && ps[k].height == height
  }

  /** The shuffle only reorders, so it keeps every item a strip of the same size. */
  lemma FoldReverseStrips(ps: seq<Image>, size: nat, height: nat)
    requires AllStrips(ps, size, height)
    ensures AllStrips(FoldReverse(ps), size, height)
  {
    var shuffled := FoldReverse(ps);
    FoldReversePermutes(ps);
    forall k | 0 <= k < |shuffled|
      ensures shuffled[k].Valid() && shuffled[k].width == size && shuffled[k].height == height
    {
      assert shuffled[k] in multiset(ps);
      var j :| 0 <= j < |ps| && ps[j] == shuffled[k];
    }
  }

  /** The strips of width `size` are all `size` wide. */
  lemma StripsAreStrips(img: Image, size: nat, m: nat)
    requires img.Valid() && m * size <= img.width
    ensures AllStrips(Strips(img, size, m), size, img.height)
  {
  }

  /** `base` with the images of `ps` pasted side by side, in order, from its left edge. */
  function LaidOut(base: Image, size: nat, ps: seq<Image>): (r: Image)
    requires base.Valid() && AllStrips(ps, size, base.height)
    ensures r.Valid() && r.mode == base.mode && r.width == base.width && r.height == base.height
    decreases |ps|
  {
    if ps == [] then base
    else Pasted(LaidOut(base, size, ps[..|ps| - 1]), ps[|ps| - 1], (|ps| - 1) * size, 0)
  }

  /** Laying out one more image pastes it right after the ones before. */
  lemma LaidOutSnoc(base: Image, size: nat, ps: seq<Image>, p: Image)
    requires base.Valid() && AllStrips(ps, size, base.height)
    requires p.Valid() && p.width == size && p.height == base.height
    ensures AllStrips(ps + [p], size, base.height)
    ensures LaidOut(base, size, ps + [p]) == Pasted(LaidOut(base, size, ps), p, |ps| * size, 0)
  {
    assert (ps + [p])[..|ps|] == ps;
  }

  /** After laying out `ps`, column `c` of strip `k` shows column `c` of `ps[k]`. */
  lemma {:induction false} LaidOutStrip(base: Image, size: nat, ps: seq<Image>, k: nat, c: nat, y: nat)
    requires base.Valid() && AllStrips(ps, size, base.height) && |ps| * size <= base.width
    requires k < |ps| && c < size && y < base.height
    ensures k * size + c < base.width
    ensures LaidOut(base, size, ps).At(k * size + c, y) == ps[k].At(c, y)
    decreases |ps|
  {
    var m := |ps| - 1;
    var front := ps[..m];
    StripOffset(|ps|, size, m);
    StripOffset(|ps|, size, k);
    var x := k * size + c;
    PastedAt(LaidOut(base, size, front), ps[m], m * size, 0, x, y);
    if k < m {
      MulMono(k + 1, m, size);
      assert AllStrips(front, size, base.height);
      LaidOutStrip(base, size, front, k, c, y);
      assert front[k] == ps[k];
    }
  }

  // ---------------------------------------------------------------------------
  // The permuted image

  /** The input column that output column `x` shows, for `n` strips of width `size`. */
  function SourceColumn(n: nat, size: nat, x: nat): (c: nat)
    requires x < n * size
    ensures c < n * size
  {
    ColumnInStrip(n, size, x);
    StripOffset(n, size, Placed(n, x / size));
    Placed(n, x / size) * size + x % size
  }

  /** Column `c` of output strip `k` is column `c` of input strip `Placed(n, k)`. */
  lemma SourceColumnOfStrip(n: nat, size: nat, k: nat, c: nat)
    requires k < n && c < size
    ensures k * size + c < n * size
    ensures SourceColumn(n, size, k * size + c) == Placed(n, k) * size + c
  {
    StripOffset(n, size, k);
    StripColumn(size, k, c);
  }

  /** The first `n * size` columns of `img`, strip `k` moved to position `Slot(n, k)`. */
  function Permuted(img: Image, n: nat, size: nat): (r: Image)
    requires img.Valid() && n * size <= img.width
    ensures r.Valid() && r.mode == img.mode && r.width == n * size && r.height == img.height
  {
    Image(img.mode, n * size, img.height,
      seq(n * size, x requires 0 <= x < n * size => img.px[SourceColumn(n, size, x)]))
  }

  /** Pixel `(x, y)` of the permuted image. */
  lemma PermutedAt(img: Image, n: nat, size: nat, x: nat, y: nat)
    requires img.Valid() && n * size <= img.width && x < n * size && y < img.height
    ensures SourceColumn(n, size, x) < img.width
    ensures Permuted(img, n, size).At(x, y) == img.At(SourceColumn(n, size, x), y)
  {
  }

  /**
   * `image_slice_rev(image, slice_amt)` as a value: the error raised for a
   * zero count, a blank canvas for a negative one (both loops are empty),
   * and otherwise the kept columns regrouped strip by strip.
   */
  function SliceRev(img: Image, n: int): (r: Result<Image>)
    requires img.Valid()
    ensures r.Err? <==> n == 0
    ensures r.Err? ==> r.error == ZeroDivisionError
    ensures r.Ok? ==> r.value.Valid() && r.value.mode == img.mode && r.value.height == img.height
    ensures r.Ok? ==> r.value.width == FloorDiv(img.width, n) * n
    ensures r.Ok? && n > 0 ==> r.value.width <= img.width < r.value.width + n
    ensures r.Ok? && n < 0 ==> r.value.width >= img.width
    ensures r.Ok? && n < 0 ==>
      forall x, y :: 0 <= x < r.value.width && 0 <= y < r.value.height ==> r.value.At(x, y) == Blank
  {
    if n == 0 then Err(ZeroDivisionError)
    else
      var size := FloorDiv(img.width, n);
      CanvasWidth(img.width, n);
      if n < 0 then Ok(BlankImage(img.mode, size * n, img.height))
      else Ok(Permuted(img, n, size))
  }

  /** Output column `x` of a positive-count pass is input column `SourceColumn(n, size, x)`. */
  lemma SliceRevAt(img: Image, n: nat, x: nat, y: nat)
    requires img.Valid() && 0 < n && x < FloorDiv(img.width, n) * n && y < img.height
    ensures var size := FloorDiv(img.width, n);
      x < n * size && SourceColumn(n, size, x) < img.width &&
      SliceRev(img, n).value.At(x, y) == img.At(SourceColumn(n, size, x), y)
  {
    CanvasWidth(img.width, n);
  }

  /**
   * Strip `k` of the output is strip `Placed(n, k)` of the input, column for
   * column; the remainder columns past `n * size` are never read.
   */
  lemma SliceRevStrips(img: Image, n: nat, k: nat, c: nat, y: nat)
    requires img.Valid() && 0 < n && k < n && c < FloorDiv(img.width, n) && y < img.height
    ensures var size := FloorDiv(img.width, n);
      k * size + c < SliceRev(img, n).value.width &&
      Placed(n, k) * size + c < img.width &&
      SliceRev(img, n).value.At(k * size + c, y) == img.At(Placed(n, k) * size + c, y)
  {
    var size := FloorDiv(img.width, n);
    CanvasWidth(img.width, n);
    SourceColumnOfStrip(n, size, k, c);
    SliceRevAt(img, n, k * size + c, y);
  }

  /** With one strip nothing moves and nothing is dropped. */
  lemma SliceRevSingle(img: Image)
    requires img.Valid()
    ensures SliceRev(img, 1) == Ok(img)
  {
    var r := SliceRev(img, 1).value;
    forall x, y | 0 <= x < img.width && 0 <= y < img.height
      ensures r.At(x, y) == img.At(x, y)
    {
      SliceRevStrips(img, 1, 0, x, y);
    }
    SameImage(r, img);
  }

  /** The shuffled strips are still strips: the shuffle only reorders them. */
  lemma ShuffledAreStrips(img: Image, n: nat, size: nat)
    requires img.Valid() && n * size <= img.width
    ensures AllStrips(FoldReverse(Strips(img, size, n)), size, img.height)
  {
    StripsAreStrips(img, size, n);
    FoldReverseStrips(Strips(img, size, n), size, img.height);
  }

  /** The strip the shuffle puts at position `k` is input strip `Placed(n, k)`. */
  lemma ShuffledStrip(img: Image, n: nat, size: nat, k: nat)
    requires img.Valid() && n * size <= img.width && k < n
    ensures (Placed(n, k) + 1) * size <= img.width
    ensures |FoldReverse(Strips(img, size, n))| == n
    ensures FoldReverse(Strips(img, size, n))[k] == Strip(img, size, Placed(n, k))
  {
    var strips := Strips(img, size, n);
    FoldReverseOrder(strips);
    StripOffset(n, size, Placed(n, k));
  }

  /** Column `c` of output strip `k` of the laid-out shuffle is that of the permuted image. */
  lemma LaidOutShuffleAt(img: Image, n: nat, size: nat, k: nat, c: nat, y: nat)
    requires img.Valid() && n * size <= img.width && k < n && c < size && y < img.height
    requires AllStrips(FoldReverse(Strips(img, size, n)), size, img.height)
    ensures k * size + c < n * size
    ensures LaidOut(BlankImage(img.mode, n * size, img.height), size, FoldReverse(Strips(img, size, n))).At(k * size + c, y)
         == Permuted(img, n, size).At(k * size + c, y)
  {
    var shuffled := FoldReverse(Strips(img, size, n));
    var j := Placed(n, k);
    ShuffledStrip(img, n, size, k);
    StripOffset(n, size, j);
    MulMono(0, j, size);
    MulMono(0, k, size);
    var x: nat, src: nat := k * size + c, j * size + c;
    LaidOutStrip(BlankImage(img.mode, n * size, img.height), size, shuffled, k, c, y);
    StripAt(img, size, j, c, y);
    SourceColumnOfStrip(n, size, k, c);
    PermutedAt(img, n, size, x, y);
  }

  /** Laying out the shuffled strips on a blank canvas gives the permuted image. */
  lemma LaidOutShuffle(img: Image, n: nat, size: nat)
    requires img.Valid() && n * size <= img.width
    ensures AllStrips(FoldReverse(Strips(img, size, n)), size, img.height)
    ensures LaidOut(BlankImage(img.mode, n * size, img.height), size, FoldReverse(Strips(img, size, n)))
         == Permuted(img, n, size)
  {
    ShuffledAreStrips(img, n, size);
    var laid := LaidOut(BlankImage(img.mode, n * size, img.height), size, FoldReverse(Strips(img, size, n)));
    forall x, y | 0 <= x < n * size && 0 <= y < img.height
      ensures laid.At(x, y) == Permuted(img, n, size).At(x, y)
    {
      ColumnInStrip(n, size, x);
      LaidOutShuffleAt(img, n, size, x / size, x % size, y);
    }
    SameImage(laid, Permuted(img, n, size));
  }

  // ---------------------------------------------------------------------------
  // The loops

  /**
   * The first loop of `image_slice_rev`: crop `slice_amt` strips of width
   * `slice_size`, left to right (none at all when `slice_amt` is negative).
   */
  method CutStrips(image: Image, sliceAmt: int, sliceSize: int) returns (slices: seq<Image>)
    requires image.Valid()
    requires sliceAmt > 0 ==> 0 <= sliceSize && sliceSize * sliceAmt <= image.width
    ensures sliceAmt <= 0 ==> slices == []
    ensures sliceAmt > 0 ==> slices == Strips(image, sliceSize, sliceAmt)
  {
    ghost var count: nat := if sliceAmt > 0 then sliceAmt else 0;
    ghost var size: nat := if sliceAmt > 0 then sliceSize else 0;
    slices := [];
    var i := 0;
    while i < sliceAmt
      invariant 0 <= i <= count
      invariant slices == Strips(image, size, i)
    {
      StripOffset(count, size, i);
      slices := slices + [Crop(image, i * sliceSize, 0, (i + 1) * sliceSize, image.height)];
      i := i + 1;
    }
  }

  /**
   * The second loop of `image_slice_rev`: `slice_amt` times, paste the head
   * of the working list at the next offset, pop it and reverse the rest. The
   * canvas ends up with the strips laid out in `FoldReverse` order.
   */
  method PasteStrips(canvas: Canvas, slices: seq<Image>, sliceAmt: int, sliceSize: int)
    requires canvas.Valid()
    requires |slices| == if sliceAmt > 0 then sliceAmt else 0
    requires sliceAmt > 0 ==> 0 <= sliceSize && AllStrips(slices, sliceSize, canvas.height)
    modifies canvas.data
    ensures canvas.Valid()
    ensures sliceAmt <= 0 ==> canvas.Snapshot() == old(canvas.Snapshot())
    ensures sliceAmt > 0 ==> AllStrips(FoldReverse(slices), sliceSize, canvas.height)
    ensures sliceAmt > 0 ==> canvas.Snapshot() == LaidOut(old(canvas.Snapshot()), sliceSize, FoldReverse(slices))
  {
    ghost var before := canvas.Snapshot();
    ghost var count: nat := |slices|;
    ghost var size: nat := if sliceAmt > 0 then sliceSize else 0;
    ghost var placed: seq<Image> := [];
    if sliceAmt > 0 {
      FoldReverseStrips(slices, size, canvas.height);
    }
    var work := slices;
    var i := 0;
    while i < sliceAmt
      invariant 0 <= i <= count && |work| == count - i && |placed| == i
      invariant AllStrips(work, size, canvas.height) && AllStrips(placed, size, canvas.height)
      invariant placed + FoldReverse(work) == FoldReverse(slices)
      invariant canvas.Valid() && canvas.Snapshot() == LaidOut(before, size, placed)
    {
      var head := work[0];
      canvas.Paste(head, i * sliceSize, 0);
      LaidOutSnoc(before, size, placed, head);
      assert FoldReverse(work) == [head] + FoldReverse(Reverse(work[1..]));
      placed := placed + [head];
      work := Reverse(work[1..]);
      i := i + 1;
    }
    assert work == [] && placed == FoldReverse(slices);
  }

  /**
   * `image_slice_rev(image, slice_amt)`: a blank canvas `slice_size *
   * slice_amt` wide, the strips cut from `image`, then pasted in the
   * pop-and-reverse order.
   */
  method ImageSliceRev(image: Image, sliceAmt: int) returns (r: Result<Image>)
    requires image.Valid()
    ensures r == SliceRev(image, sliceAmt)
  {
    if sliceAmt == 0 {
      return Err(ZeroDivisionError);
    }
    var sliceSize := FloorDiv(image.width, sliceAmt);
    CanvasWidth(image.width, sliceAmt);
    var newImage := new Canvas(image.mode, sliceSize * sliceAmt, image.height);
    var slices := CutStrips(image, sliceAmt, sliceSize);
    if sliceAmt > 0 {
      StripsAreStrips(image, sliceSize, sliceAmt);
    }
    PasteStrips(newImage, slices, sliceAmt, sliceSize);
    r := Ok(newImage.Snapshot());
    if sliceAmt > 0 {
      LaidOutShuffle(image, sliceAmt, sliceSize);
    } else {
      SameImage(newImage.Snapshot(), SliceRev(image, sliceAmt).value);
    }
  }
}
