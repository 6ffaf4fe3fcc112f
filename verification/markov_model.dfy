/** `MarkovModel`: for every pixel of an image, the neighbourhood "subimage"
    around it (a grid shaped like the neighbourhood mask, holding packed RGB
    values) is counted in a dictionary keyed by structural equality of
    subimages.

    The image is the byte buffer that `LockBits` copies out of a bitmap in
    24-bit RGB format, with its stride, width and height. */
module MarkovModels {
  import opened Wrappers
  import opened Exceptions
  import opened Grids
  import opened Neighborhoods
  import opened Dictionaries

  newtype byte = x: int | 0 <= x < 256

  datatype Image = Image(bytes: seq<byte>, stride: int, width: int, height: int)

  /** What the locked bitmap guarantees: row `y` starts at `stride * y` and
      holds `3 * width` bytes of pixel data. */
  predicate WellFormed(img: Image) {
    0 <= img.width && 0 <= img.height && 0 <= img.stride &&
    (img.width == 0 || img.height == 0 || img.stride * (img.height - 1) + 3 * img.width <= |img.bytes|)
  }

  predicate InImage(img: Image, x: int, y: int) {
    0 <= x < img.width && 0 <= y < img.height
  }

  /** The offset of the first byte of pixel `(x, y)`. */
  function Offset(img: Image, x: int, y: int): int {
    img.stride * y + 3 * x
  }

  lemma OffsetInRange(img: Image, x: int, y: int)
    requires WellFormed(img) && InImage(img, x, y)
    ensures 0 <= Offset(img, x, y) && Offset(img, x, y) + 2 < |img.bytes|
  {
    assert img.stride * y <= img.stride * (img.height - 1) by {
      MulLeftMonotone(img.stride, y, img.height - 1);
    }
  }

  lemma MulLeftMonotone(a: int, b: int, c: int)
    requires 0 <= a && 0 <= b <= c
    ensures 0 <= a * b <= a * c
  {
    assert a * c - a * b == a * (c - b);
  }

  /** `b0 << 16 | b1 << 8 | b2`: the three bytes occupy disjoint bits, so the
      bitwise or is the sum below. The bytes can be read back from it. */
  function PackRgb(b0: byte, b1: byte, b2: byte): (r: int)
    ensures 0 <= r < 0x100_0000
    ensures r / 0x1_0000 == b0 as int
    ensures (r / 0x100) % 0x100 == b1 as int
    ensures r % 0x100 == b2 as int
  {
    DivModUnique(b1 as int, b2 as int, 0x100);
    DivModUnique(b0 as int, b1 as int * 0x100 + b2 as int, 0x1_0000);
    DivModUnique(b0 as int * 0x100 + b1 as int, b2 as int, 0x100);
    DivModUnique(b0 as int, b1 as int, 0x100);
    b0 as int * 0x1_0000 + b1 as int * 0x100 + b2 as int
  }

  /** Division with remainder has a unique result. */
  lemma DivModUnique(q: int, rem: int, d: int)
    requires 0 <= rem < d
    ensures (q * d + rem) / d == q && (q * d + rem) % d == rem
  {
    var n := q * d + rem;
    var q', rem' := n / d, n % d;
    assert q' * d + rem' == n;
    assert (q - q') * d == rem' - rem;
    if q' < q {
      MulLeftMonotone(d, 1, q - q');
    } else if q < q' {
      MulLeftMonotone(d, 1, q' - q);
    }
  }

  /** The packed value of pixel `(x, y)`. */
  function PixelAt(img: Image, x: int, y: int): (r: int)
    requires WellFormed(img) && InImage(img, x, y)
    ensures 0 <= r < 0x100_0000
  {
    OffsetInRange(img, x, y);
    var o := Offset(img, x, y);
    PackRgb(img.bytes[o], img.bytes[o + 1], img.bytes[o + 2])
  }

  // ---------------------------------------------------------------------
  // Subimages

  /** `int?[,]`: `None` is `null`. */
  type Subimage = Grid<Option<int>>

  /** The sentinel for a neighbour that lies outside the image. */
  const OutOfImage: int := -1

  /** The value stored for mask cell `inMask` whose image position is
      `(ix, iy)`. */
  function Cell(inMask: bool, img: Image, ix: int, iy: int): Option<int>
    requires WellFormed(img)
  {
    if !inMask then None
    else if !InImage(img, ix, iy) then Some(OutOfImage)
    else Some(PixelAt(img, ix, iy))
  }

  /** The loops of `ExtractNeighborhoodSubimage` for the mask `mask` and the
      centre `(cx, cy)`: a grid with the mask's bounds whose element
      `[x, y]` describes the image at `(cx + x, cy + y)`. */
  function Extract(mask: Grid<bool>, img: Image, cx: int, cy: int): (r: Subimage)
    requires WellFormed(img)
    ensures SameBounds(r, mask) && r.len0 == mask.len0 && r.len1 == mask.len1
  {
    GridData(mask.lo0, mask.lo1, mask.len0, mask.len1,
      seq(mask.len0, a requires 0 <= a < mask.len0 =>
        seq(mask.len1, b requires 0 <= b < mask.len1 =>
          Cell(mask.cells[a][b], img, cx + mask.lo0 + a, cy + mask.lo1 + b))))
  }

  /** Element `[x, y]` of the subimage: `null` off the mask, the sentinel
      `-1` for a neighbour outside the image, the packed colour otherwise. */
  lemma ExtractCell(mask: Grid<bool>, img: Image, cx: int, cy: int, x: int, y: int)
    requires WellFormed(img)
    requires mask.InBounds(x, y)
    ensures Extract(mask, img, cx, cy).InBounds(x, y)
    ensures !mask.Get(x, y) ==> Extract(mask, img, cx, cy).Get(x, y) == None
    ensures mask.Get(x, y) && !InImage(img, cx + x, cy + y) ==> Extract(mask, img, cx, cy).Get(x, y) == Some(OutOfImage)
    ensures mask.Get(x, y) && InImage(img, cx + x, cy + y) ==>
      Extract(mask, img, cx, cy).Get(x, y) == Some(PixelAt(img, cx + x, cy + y))
  {
  }

  /** Equal subimages of the same mask describe the same neighbourhood
      contents: the same cells lie outside the image, and the cells inside
      have the same colours. The sentinel `-1` cannot be mistaken for a
      colour, since colours are non-negative. */
  lemma ExtractDeterminesNeighbourhood(mask: Grid<bool>, img: Image, cx: int, cy: int,
                                       img': Image, cx': int, cy': int, x: int, y: int)
    requires WellFormed(img) && WellFormed(img')
    requires Extract(mask, img, cx, cy) == Extract(mask, img', cx', cy')
    requires mask.InBounds(x, y) && mask.Get(x, y)
    ensures InImage(img, cx + x, cy + y) <==> InImage(img', cx' + x, cy' + y)
    ensures InImage(img, cx + x, cy + y) ==> PixelAt(img, cx + x, cy + y) == PixelAt(img', cx' + x, cy' + y)
  {
    ExtractCell(mask, img, cx, cy, x, y);
    ExtractCell(mask, img', cx', cy', x, y);
  }

  // ---------------------------------------------------------------------
  // SubimageComparer

  /** `SubimageComparer.Equals`: the bounds are compared first, then the
      elements with dimension 0 in the outer loop; two `int?` values are
      equal when both are `null` or both hold the same integer. */
  method SubimageEquals(x: Subimage, y: Subimage) returns (r: bool)
    ensures !SameBounds(x, y) ==> !r
    ensures r <==> StructurallyEqual(x, y, (a: Option<int>, b: Option<int>) => a == b)
    ensures r <==> x == y
  {
    if x.lo0 != y.lo0 || x.lo1 != y.lo1 || x.Hi0() != y.Hi0() || x.Hi1() != y.Hi1() {
      return false;
    }
    var i := x.lo0;
    while i <= x.Hi0()
      invariant x.lo0 <= i <= x.Hi0() + 1
      invariant forall i', j :: x.lo0 <= i' < i && x.lo1 <= j <= x.Hi1() ==> x.Get(i', j) == y.Get(i', j)
    {
      var j := x.lo1;
      while j <= x.Hi1()
        invariant x.lo1 <= j <= x.Hi1() + 1
        invariant forall j' :: x.lo1 <= j' < j ==> x.Get(i, j') == y.Get(i, j')
      {
        if x.Get(i, j) != y.Get(i, j) {
          return false;
        }
        j := j + 1;
      }
      i := i + 1;
    }
    GridExtensionality(x, y);
    return true;
  }

  /** `Nullable<int>.GetHashCode`: 0 for `null`, the value itself otherwise. */
  function CellHash(c: Option<int>): int {
    match c
    case None => 0
    case Some(v) => v
  }

  /** `SubimageComparer.GetHashCode`: the four bounds, then every element in
      row-major order, added up in unchecked 32-bit arithmetic. */
  method SubimageHashCode(g: Subimage) returns (hash: int)
    ensures -TwoTo31 <= hash < TwoTo31
    ensures hash == GridHash(g, CellHash)
  {
    hash := HashBounds(g);
    ghost var bounds := BoundsSum(g);

    var i := g.lo0;
    while i <= g.Hi0()
      invariant g.lo0 <= i <= g.Hi0() + 1
      invariant hash == Wrap32(bounds + RowMajorSum(g.cells, i - g.lo0, g.len1, CellHash))
    {
      hash := HashRow(g, i, hash, bounds + RowMajorSum(g.cells, i - g.lo0, g.len1, CellHash));
      i := i + 1;
    }
    assert i - g.lo0 == g.len0;
  }

  /** The first four statements of `GetHashCode`: both lower bounds, then
      both upper bounds. */
  method HashBounds(g: Subimage) returns (hash: int)
    ensures hash == Wrap32(BoundsSum(g))
  {
    hash := 0;
    hash := Wrap32(hash + g.lo0);
    hash := Wrap32(hash + g.lo1);
    WrapAdd(g.lo0, g.lo1);
    hash := Wrap32(hash + g.Hi0());
    WrapAdd(g.lo0 + g.lo1, g.Hi0());
    hash := Wrap32(hash + g.Hi1());
    WrapAdd(g.lo0 + g.lo1 + g.Hi0(), g.Hi1());
  }

  /** The inner loop of `GetHashCode`: starting from the wrapped value of
      `before`, add every element of row `i`, left to right. */
  method HashRow(g: Subimage, i: int, start: int, ghost before: int) returns (hash: int)
    requires g.lo0 <= i <= g.Hi0()
    requires start == Wrap32(before)
    ensures hash == Wrap32(before + RowSum(g.cells[i - g.lo0], g.len1, CellHash))
  {
    ghost var a := i - g.lo0;
    hash := start;
    var j := g.lo1;
    while j <= g.Hi1()
      invariant g.lo1 <= j <= g.Hi1() + 1
      invariant hash == Wrap32(before + RowSum(g.cells[a], j - g.lo1, CellHash))
    {
      ghost var b := j - g.lo1;
      assert g.Get(i, j) == g.cells[a][b];
      WrapAdd(before + RowSum(g.cells[a], b, CellHash), CellHash(g.Get(i, j)));
      hash := Wrap32(hash + CellHash(g.Get(i, j)));
      j := j + 1;
    }
  }

  // ---------------------------------------------------------------------
  // Counting

  /** The count stored for `key`, 0 when absent (`TryGetValue` leaves its
      `out` argument at 0). */
  function Count(counts: Dict<Subimage, int>, key: Subimage): int {
    Lookup(counts, key).GetOr(0)
  }

  /** The sum of the first `n` counts. */
  function PrefixCount(d: Dict<Subimage, int>, n: nat): int
    requires n <= |d|
  {
    if n == 0 then 0 else PrefixCount(d, n - 1) + d[n - 1].1
  }

  function TotalCount(d: Dict<Subimage, int>): int {
    PrefixCount(d, |d|)
  }

  lemma {:induction false} PrefixCountOfExtension(d: Dict<Subimage, int>, e: Dict<Subimage, int>, n: nat)
    requires n <= |d|
    ensures PrefixCount(d + e, n) == PrefixCount(d, n)
  {
    if n > 0 {
      PrefixCountOfExtension(d, e, n - 1);
    }
  }

  lemma {:induction false} PrefixCountOfUpdate(d: Dict<Subimage, int>, i: nat, p: (Subimage, int), n: nat)
    requires i < |d| && n <= |d|
    ensures PrefixCount(d[i := p], n) == if n <= i then PrefixCount(d, n) else PrefixCount(d, n) - d[i].1 + p.1
  {
    if n > 0 {
      PrefixCountOfUpdate(d, i, p, n - 1);
    }
  }

  /** The update of `AddPixel`: read the count of `key`, add one, store it. */
  function Increment(counts: Dict<Subimage, int>, key: Subimage): Dict<Subimage, int> {
    Set(counts, key, Count(counts, key) + 1)
  }

  /** The count of `key` goes up by one, from 0 when it was absent, and the
      keys stay distinct. */
  lemma IncrementCount(counts: Dict<Subimage, int>, key: Subimage)
    ensures Count(Increment(counts, key), key) == Count(counts, key) + 1
    ensures HasKey(Increment(counts, key), key)
    ensures DistinctKeys(counts) ==> DistinctKeys(Increment(counts, key))
  {
    LookupAfterSet(counts, key, Count(counts, key) + 1, key);
  }

  /** Every other key keeps its count. */
  lemma IncrementOthers(counts: Dict<Subimage, int>, key: Subimage, q: Subimage)
    requires q != key
    ensures Count(Increment(counts, key), q) == Count(counts, q)
  {
    LookupAfterSet(counts, key, Count(counts, key) + 1, q);
  }

  /** The counts add up to one more. */
  lemma IncrementTotal(counts: Dict<Subimage, int>, key: Subimage)
    ensures TotalCount(Increment(counts, key)) == TotalCount(counts) + 1
  {
    var v := Count(counts, key) + 1;
    match IndexOf(counts, key)
    case Some(i) =>
      PrefixCountOfUpdate(counts, i, (key, v), |counts|);
    case None =>
      PrefixCountOfExtension(counts, [(key, v)], |counts|);
  }

  // ---------------------------------------------------------------------
  // The model and one pixel

  datatype MarkovModel = MarkovModel(n: int, neighborhood: Neighborhood, counts: Dict<Subimage, int>)

  /** `new MarkovModel(n, neighborhood)`: the order and the delegate are
      stored, and the dictionary starts empty, so every count is 0. */
  function NewMarkovModel(n: int, neighborhood: Neighborhood): (r: MarkovModel)
    ensures r.n == n && r.neighborhood == neighborhood
    ensures r.counts == [] && DistinctKeys(r.counts)
    ensures forall key :: Count(r.counts, key) == 0
  {
    MarkovModel(n, neighborhood, [])
  }

  /** `ExtractNeighborhoodSubimage(bytes, stride, width, height, center)`:
      asks the neighbourhood delegate for the mask of order `n`, which may
      throw, and extracts the subimage around `center`. */
  function ExtractNeighborhoodSubimage(mm: MarkovModel, img: Image, center: (int, int)): (r: Result<Subimage, Exception>)
    requires WellFormed(img)
    ensures r.Failure? <==> mm.neighborhood(mm.n).Failure?
    ensures r.Failure? ==> r.error == mm.neighborhood(mm.n).error
    ensures r.Success? ==> SameBounds(r.value, mm.neighborhood(mm.n).value)
  {
    var mask :- mm.neighborhood(mm.n);
    Success(Extract(mask, img, center.0, center.1))
  }

  /** `AddPixel`: one more occurrence of the pixel's subimage. */
  function AddPixel(mm: MarkovModel, img: Image, pixel: (int, int)): (r: Result<MarkovModel, Exception>)
    requires WellFormed(img)
    ensures r.Failure? <==> mm.neighborhood(mm.n).Failure?
    ensures r.Failure? ==> r.error == mm.neighborhood(mm.n).error
    ensures r.Success? ==> r.value.n == mm.n && r.value.neighborhood == mm.neighborhood
  {
    var key :- ExtractNeighborhoodSubimage(mm, img, pixel);
    Success(mm.(counts := Increment(mm.counts, key)))
  }

  /** `AddPixel` raises the count of the pixel's subimage by one, starting
      from 0 when it is absent, leaves every other count as it was, and so
      raises the sum of the counts by one. */
  lemma AddPixelCounts(mm: MarkovModel, img: Image, pixel: (int, int), q: Subimage)
    requires WellFormed(img)
    requires mm.neighborhood(mm.n).Success?
    ensures AddPixel(mm, img, pixel).Success?
    ensures var key := Extract(mm.neighborhood(mm.n).value, img, pixel.0, pixel.1);
      && Count(AddPixel(mm, img, pixel).value.counts, key) == Count(mm.counts, key) + 1
      && (q != key ==> Count(AddPixel(mm, img, pixel).value.counts, q) == Count(mm.counts, q))
      && TotalCount(AddPixel(mm, img, pixel).value.counts) == TotalCount(mm.counts) + 1
  {
    var key := Extract(mm.neighborhood(mm.n).value, img, pixel.0, pixel.1);
    IncrementCount(mm.counts, key);
    IncrementTotal(mm.counts, key);
    if q != key {
      IncrementOthers(mm.counts, key, q);
    }
  }

  // ---------------------------------------------------------------------
  // All pixels

  /** `Increment` for the subimage of each point of `pts`, in order. */
  function AddPixels(counts: Dict<Subimage, int>, mask: Grid<bool>, img: Image, pts: seq<(int, int)>): Dict<Subimage, int>
    requires WellFormed(img)
  {
    if pts == [] then counts
    else
      var last := pts[|pts| - 1];
      Increment(AddPixels(counts, mask, img, pts[..|pts| - 1]), Extract(mask, img, last.0, last.1))
  }

  lemma AddPixelsSnoc(counts: Dict<Subimage, int>, mask: Grid<bool>, img: Image, pts: seq<(int, int)>, p: (int, int))
    requires WellFormed(img)
    ensures AddPixels(counts, mask, img, pts + [p]) == Increment(AddPixels(counts, mask, img, pts), Extract(mask, img, p.0, p.1))
  {
    assert (pts + [p])[..|pts|] == pts;
  }

  /** How many points of `pts` have the subimage `key`. */
  function Occurrences(mask: Grid<bool>, img: Image, pts: seq<(int, int)>, key: Subimage): nat
    requires WellFormed(img)
  {
    if pts == [] then 0
    else
      var last := pts[|pts| - 1];
      Occurrences(mask, img, pts[..|pts| - 1], key) + (if Extract(mask, img, last.0, last.1) == key then 1 else 0)
  }

  /** After counting `pts`, each key's count has grown by the number of
      points whose subimage it is, and the counts add up to `|pts|` more. */
  lemma {:induction false} AddPixelsCounts(counts: Dict<Subimage, int>, mask: Grid<bool>, img: Image, pts: seq<(int, int)>, key: Subimage)
    requires WellFormed(img)
    ensures Count(AddPixels(counts, mask, img, pts), key) == Count(counts, key) + Occurrences(mask, img, pts, key)
    ensures TotalCount(AddPixels(counts, mask, img, pts)) == TotalCount(counts) + |pts|
    ensures DistinctKeys(counts) ==> DistinctKeys(AddPixels(counts, mask, img, pts))
  {
    if pts != [] {
      var init := pts[..|pts| - 1];
      var last := pts[|pts| - 1];
      var k := Extract(mask, img, last.0, last.1);
      var before := AddPixels(counts, mask, img, init);
      AddPixelsCounts(counts, mask, img, init, key);
      IncrementCount(before, k);
      IncrementTotal(before, k);
      if key != k {
        IncrementOthers(before, k, key);
      }
    }
  }

  // ---------------------------------------------------------------------
  // The scan order of the pixel loop

  /** The points `(x, 0), ..., (x, h - 1)` of column `x`. */
  function Column(x: int, h: nat): (r: seq<(int, int)>)
    ensures |r| == h
    ensures forall y :: 0 <= y < h ==> r[y] == (x, y)
  {
    seq(h, y requires 0 <= y < h => (x, y))
  }

  /** The points in the order of the two nested loops: `x` outer, `y`
      inner. */
  function ScanOrder(w: nat, h: nat): seq<(int, int)> {
    if w == 0 then [] else ScanOrder(w - 1, h) + Column(w - 1, h)
  }

  /** There are `w * h` points. */
  lemma {:induction false} ScanOrderLength(w: nat, h: nat)
    ensures |ScanOrder(w, h)| == w * h
  {
    if w > 0 {
      ScanOrderLength(w - 1, h);
      assert (w - 1) * h + h == w * h;
    }
  }

  /** Point `(x, y)` comes at position `x * h + y`. */
  lemma {:induction false} ScanOrderAt(w: nat, h: nat, x: int, y: int)
    requires 0 <= x < w && 0 <= y < h
    ensures x * h + y < |ScanOrder(w, h)|
    ensures ScanOrder(w, h)[x * h + y] == (x, y)
  {
    ScanOrderLength(w - 1, h);
    if x < w - 1 {
      ScanOrderAt(w - 1, h, x, y);
    } else {
      assert x * h == (w - 1) * h;
    }
  }

  /** The scan visits exactly the points of the image. */
  lemma {:induction false} ScanOrderCovers(w: nat, h: nat, p: (int, int))
    ensures p in ScanOrder(w, h) <==> 0 <= p.0 < w && 0 <= p.1 < h
  {
    if w > 0 {
      ScanOrderCovers(w - 1, h, p);
      if p.0 == w - 1 && 0 <= p.1 < h {
        assert Column(w - 1, h)[p.1] == p;
      }
    }
  }

  /** `(x, y)` comes before `(x', y')` in the scan. */
  predicate ScanBefore(p: (int, int), q: (int, int)) {
    p.0 < q.0 || (p.0 == q.0 && p.1 < q.1)
  }

  /** The scan is strictly increasing, `x` first, so no point is visited
      twice. */
  lemma {:induction false} ScanOrderIncreasing(w: nat, h: nat)
    ensures forall i, j :: 0 <= i < j < |ScanOrder(w, h)| ==> ScanBefore(ScanOrder(w, h)[i], ScanOrder(w, h)[j])
  {
    if w > 0 {
      ScanOrderIncreasing(w - 1, h);
      var prefix := ScanOrder(w - 1, h);
      var s := ScanOrder(w, h);
      forall i, j | 0 <= i < j < |s|
        ensures ScanBefore(s[i], s[j])
      {
        if j >= |prefix| && i < |prefix| {
          assert s[i] in prefix;
          ScanOrderCovers(w - 1, h, s[i]);
        }
      }
    }
  }

  // ---------------------------------------------------------------------
  // LoadFromImage

  /** `LoadFromImage` after the buffer has been copied: every pixel counted.
      With no pixels the delegate is never called; otherwise its exception,
      if any, escapes from the first pixel. */
  function LoadFromImage(mm: MarkovModel, img: Image): (r: Result<MarkovModel, Exception>)
    requires WellFormed(img)
    ensures img.width == 0 || img.height == 0 ==> r == Success(mm)
    ensures r.Failure? <==> img.width > 0 && img.height > 0 && mm.neighborhood(mm.n).Failure?
    ensures r.Success? ==> r.value.n == mm.n && r.value.neighborhood == mm.neighborhood
  {
    if img.width == 0 || img.height == 0 then
      Success(mm)
    else
      var mask :- mm.neighborhood(mm.n);
      Success(mm.(counts := AddPixels(mm.counts, mask, img, ScanOrder(img.width, img.height))))
  }

  /** Each subimage's count grows by the number of image pixels whose
      neighbourhood it is, and the counts grow by `width * height` in all. */
  lemma LoadFromImageCounts(mm: MarkovModel, img: Image, key: Subimage)
    requires WellFormed(img)
    requires img.width > 0 && img.height > 0
    requires mm.neighborhood(mm.n).Success?
    ensures LoadFromImage(mm, img).Success?
    ensures TotalCount(LoadFromImage(mm, img).value.counts) == TotalCount(mm.counts) + img.width * img.height
    ensures Count(LoadFromImage(mm, img).value.counts, key) ==
      Count(mm.counts, key) + Occurrences(mm.neighborhood(mm.n).value, img, ScanOrder(img.width, img.height), key)
    ensures DistinctKeys(mm.counts) ==> DistinctKeys(LoadFromImage(mm, img).value.counts)
  {
    AddPixelsCounts(mm.counts, mm.neighborhood(mm.n).value, img, ScanOrder(img.width, img.height), key);
    ScanOrderLength(img.width, img.height);
  }

  /** Extending the inner loop by one point. */
  lemma ColumnSnoc(done: seq<(int, int)>, x: int, y: nat)
    ensures done + Column(x, 0) == done
    ensures done + Column(x, y + 1) == (done + Column(x, y)) + [(x, y)]
  {
    assert Column(x, y + 1) == Column(x, y) + [(x, y)];
  }

  /** The model when the loops of `LoadFromImage` reach pixel `(x, y)`: the
      pixels before it in scan order have been counted. When the delegate
      throws, nothing has been counted. */
  function Progress(mm: MarkovModel, img: Image, x: nat, y: nat): (r: MarkovModel)
    requires WellFormed(img)
    ensures r.n == mm.n && r.neighborhood == mm.neighborhood
  {
    match mm.neighborhood(mm.n)
    case Failure(_) => mm
    case Success(mask) => mm.(counts := AddPixels(mm.counts, mask, img, ScanOrder(x, img.height) + Column(x, y)))
  }

  /** `AddPixel` at `(x, y)` moves the progress on by one pixel, or throws
      the delegate's exception. */
  lemma ProgressStep(mm: MarkovModel, img: Image, x: nat, y: nat)
    requires WellFormed(img)
    ensures mm.neighborhood(mm.n).Success? ==>
      AddPixel(Progress(mm, img, x, y), img, (x, y)) == Success(Progress(mm, img, x, y + 1))
    ensures mm.neighborhood(mm.n).Failure? ==>
      AddPixel(Progress(mm, img, x, y), img, (x, y)) == Failure(mm.neighborhood(mm.n).error)
  {
    if mm.neighborhood(mm.n).Success? {
      var mask := mm.neighborhood(mm.n).value;
      var done := ScanOrder(x, img.height);
      ColumnSnoc(done, x, y);
      AddPixelsSnoc(mm.counts, mask, img, done + Column(x, y), (x, y));
    }
  }

  /** The end of one column is the start of the next. */
  lemma ProgressNextColumn(mm: MarkovModel, img: Image, x: nat)
    requires WellFormed(img)
    ensures Progress(mm, img, x, img.height) == Progress(mm, img, x + 1, 0)
  {
    ColumnSnoc(ScanOrder(x + 1, img.height), x + 1, 0);
  }

  /** `LoadFromImage` in terms of the progress after the last column. */
  lemma ProgressComplete(mm: MarkovModel, img: Image)
    requires WellFormed(img)
    ensures LoadFromImage(mm, img) ==
      if img.width > 0 && img.height > 0 && mm.neighborhood(mm.n).Failure? then Failure(mm.neighborhood(mm.n).error)
      else Success(Progress(mm, img, img.width, 0))
  {
    var done := ScanOrder(img.width, img.height);
    ColumnSnoc(done, img.width, 0);
    if img.width == 0 || img.height == 0 {
      ScanOrderLength(img.width, img.height);
      assert done == [];
    }
  }

  /** The inner loop of `LoadFromImage`: `AddPixel` for `(x, 0)` to
      `(x, height - 1)`. */
  method LoadColumn(mm: MarkovModel, img: Image, x: nat, current: MarkovModel)
    returns (r: Result<MarkovModel, Exception>)
    requires WellFormed(img)
    requires current == Progress(mm, img, x, 0)
    ensures mm.neighborhood(mm.n).Success? || img.height == 0 ==> r == Success(Progress(mm, img, x + 1, 0))
    ensures mm.neighborhood(mm.n).Failure? && img.height > 0 ==> r == Failure(mm.neighborhood(mm.n).error)
  {
    var model := current;
    var y := 0;
    while y < img.height
      invariant 0 <= y <= img.height
      invariant model == Progress(mm, img, x, y)
      invariant mm.neighborhood(mm.n).Failure? ==> y == 0
    {
      ProgressStep(mm, img, x, y);
      var step := AddPixel(model, img, (x, y));
      if step.Failure? {
        return Failure(step.error);
      }
      model := step.value;
      y := y + 1;
    }
    ProgressNextColumn(mm, img, x);
    return Success(model);
  }

  /** The nested loops of `LoadFromImage`, calling `AddPixel` for each pixel
      with `x` in the outer loop and `y` in the inner one. */
  method LoadPixels(mm: MarkovModel, img: Image) returns (r: Result<MarkovModel, Exception>)
    requires WellFormed(img)
    ensures r == LoadFromImage(mm, img)
  {
    ProgressComplete(mm, img);
    var current := mm;
    ColumnSnoc([], 0, 0);
    var x := 0;
    while x < img.width
      invariant 0 <= x <= img.width
      invariant current == Progress(mm, img, x, 0)
      invariant mm.neighborhood(mm.n).Failure? ==> x == 0 || img.height == 0
    {
      var column := LoadColumn(mm, img, x, current);
      if column.Failure? {
        return column;
      }
      current := column.value;
      x := x + 1;
    }
    return Success(current);
  }
}
