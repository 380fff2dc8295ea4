/**
 * The brightest-point detector: one pass over a pixel buffer that keeps the
 * largest red byte seen so far and the coordinate sums and count of the pixels
 * that share it, then returns their truncated mean. The three copies of the
 * scan in the repository are this one method; their call sites are modelled in
 * call_sites.dfy.
 */
module BrightestPoint {
  import opened Bytes

  /** A 2D pixel coordinate. */
  datatype Point2D = Point2D(x: int, y: int)

  /**
   * The bitmap behind a `CGImage`: its bytes, its size and its strides.
   * Pixel (x, y) starts at byte `y * bytesPerRow + x * bytesPerPixel`.
   */
  datatype Image = Image(bytes: seq<Byte>, width: nat, height: nat, bytesPerRow: nat, bytesPerPixel: nat)

  /** The byte offset of pixel (x, y). */
  function Offset(img: Image, x: nat, y: nat): nat
  {
    y * img.bytesPerRow + x * img.bytesPerPixel
  }

  /**
   * What the scan needs of its image: `0...(width-1)` and `0...(height-1)` are
   * ranges only when both are at least 1, and the three components of the
   * last pixel must lie inside the buffer.
   */
  predicate Scannable(img: Image)
  {
    1 <= img.width && 1 <= img.height &&
    Offset(img, img.width - 1, img.height - 1) + 2 < |img.bytes|
  }

  /** Every pixel's three components lie inside the buffer of a scannable image. */
  lemma OffsetInBounds(img: Image, x: nat, y: nat)
    requires Scannable(img) && x < img.width && y < img.height
    ensures Offset(img, x, y) + 2 < |img.bytes|
  {
    MulLeq(y, img.height - 1, img.bytesPerRow);
    MulLeq(x, img.width - 1, img.bytesPerPixel);
  }

  /** The red component of pixel (x, y). */
  function RedAt(img: Image, x: nat, y: nat): Byte
    requires Scannable(img) && x < img.width && y < img.height
  {
    OffsetInBounds(img, x, y);
    img.bytes[Offset(img, x, y)]
  }

  /** A visited pixel: its coordinate and its red component. */
  datatype Sample = Sample(x: nat, y: nat, red: Byte)

  /** The pixels (x, 0), ..., (x, n - 1): the inner loop after n steps. */
  function Column(img: Image, x: nat, n: nat): (ss: seq<Sample>)
    requires Scannable(img) && x < img.width && n <= img.height
    ensures |ss| == n
  {
    if n == 0 then [] else Column(img, x, n - 1) + [Sample(x, n - 1, RedAt(img, x, n - 1))]
  }

  /** The inner loop visits (x, y) as its y-th step. */
  lemma {:induction false} ColumnAt(img: Image, x: nat, n: nat, y: nat)
    requires Scannable(img) && x < img.width && y < n <= img.height
    ensures Column(img, x, n)[y] == Sample(x, y, RedAt(img, x, y))
  {
    if y < n - 1 {
      ColumnAt(img, x, n - 1, y);
    }
  }

  /** All pixels of columns 0, ..., m - 1, in the order the nested loops visit them. */
  function Columns(img: Image, m: nat): seq<Sample>
    requires Scannable(img) && m <= img.width
  {
    if m == 0 then [] else Columns(img, m - 1) + Column(img, m - 1, img.height)
  }

  /** Every pixel of the image, in scan order (x outer, y inner). */
  function Samples(img: Image): seq<Sample>
    requires Scannable(img)
  {
    Columns(img, img.width)
  }

  /** The scan makes `width * height` steps. */
  lemma {:induction false} ColumnsLength(img: Image, m: nat)
    requires Scannable(img) && m <= img.width
    ensures |Columns(img, m)| == m * img.height
  {
    if m > 0 {
      ColumnsLength(img, m - 1);
      assert (m - 1) * img.height + img.height == m * img.height;
    }
  }

  /** The scan visits pixel (x, y) as its (x * height + y)-th step. */
  lemma {:induction false} ColumnsAt(img: Image, m: nat, x: nat, y: nat)
    requires Scannable(img) && x < m <= img.width && y < img.height
    ensures x * img.height + y < |Columns(img, m)|
    ensures Columns(img, m)[x * img.height + y] == Sample(x, y, RedAt(img, x, y))
  {
    var h := img.height;
    ColumnsLength(img, m - 1);
    ColumnsLength(img, m);
    var pre := Columns(img, m - 1);
    if x < m - 1 {
      ColumnsAt(img, m - 1, x, y);
    } else {
      assert x * h + y == |pre| + y;
      ColumnAt(img, x, h, y);
    }
  }

  /** Every pixel of the image is visited, at step x * height + y. */
  lemma SamplesInScanOrder(img: Image)
    requires Scannable(img)
    ensures |Samples(img)| == img.width * img.height
    ensures forall x: nat, y: nat | x < img.width && y < img.height ::
      x * img.height + y < |Samples(img)| &&
      Samples(img)[x * img.height + y] == Sample(x, y, RedAt(img, x, y))
  {
    ColumnsLength(img, img.width);
    forall x: nat, y: nat | x < img.width && y < img.height
      ensures x * img.height + y < |Samples(img)| &&
        Samples(img)[x * img.height + y] == Sample(x, y, RedAt(img, x, y))
    {
      ColumnsAt(img, img.width, x, y);
    }
  }

  /** Every sample of the scan lies inside the image. */
  lemma {:induction false} ColumnsInside(img: Image, m: nat)
    requires Scannable(img) && m <= img.width
    ensures forall i | 0 <= i < |Columns(img, m)| ::
      Columns(img, m)[i].x < img.width && Columns(img, m)[i].y < img.height
  {
    if m > 0 {
      ColumnsInside(img, m - 1);
      var pre := Columns(img, m - 1);
      forall i | |pre| <= i < |Columns(img, m)|
        ensures Columns(img, m)[i].x < img.width && Columns(img, m)[i].y < img.height
      {
        ColumnAt(img, m - 1, img.height, i - |pre|);
      }
    }
  }

  /** The locals of the scan: `pointSums`, `pointCounts` and `maxBrightness`. */
  datatype Accumulator = Accumulator(sumX: int, sumY: int, count: int, maxBrightness: int)

  /** The locals before the first pixel: sums (0, 0), count 1, maximum 0. */
  const Initial := Accumulator(0, 0, 1, 0)

  /**
   * One iteration of the inner loop body: `maxBrightness` becomes the larger
   * of itself and the pixel's red byte, a count of at least 1 stays so, and
   * only a pixel at least as bright as the maximum changes anything.
   */
  function Step(acc: Accumulator, s: Sample): (next: Accumulator)
    ensures next.maxBrightness >= acc.maxBrightness && next.maxBrightness >= s.red
    ensures next.maxBrightness == acc.maxBrightness || next.maxBrightness == s.red
    ensures acc.count >= 1 ==> next.count >= 1
    ensures next != acc ==> s.red >= acc.maxBrightness
  {
    if s.red > acc.maxBrightness then Accumulator(s.x, s.y, 1, s.red)
    else if s.red == acc.maxBrightness then Accumulator(acc.sumX + s.x, acc.sumY + s.y, acc.count + 1, acc.maxBrightness)
    else acc
  }

  /** The locals after visiting `ss` in order. */
  function Scan(ss: seq<Sample>): (acc: Accumulator)
    ensures 1 <= acc.count
  {
    if ss == [] then Initial else Step(Scan(ss[..|ss| - 1]), ss[|ss| - 1])
  }

  /** Visiting one more sample is one more step. */
  lemma ScanSnoc(ss: seq<Sample>, s: Sample)
    ensures Scan(ss + [s]) == Step(Scan(ss), s)
  {
    assert (ss + [s])[..|ss|] == ss;
  }

  /**
   * `pointSums / pointCounts`: for the non-negative sums the scan produces,
   * Swift's truncating division is the largest `q` with `q · count ≤ sum`.
   */
  function Centroid(acc: Accumulator): (c: Point2D)
    requires acc.count > 0
    ensures acc.sumX >= 0 ==> c.x * acc.count <= acc.sumX < c.x * acc.count + acc.count
    ensures acc.sumY >= 0 ==> c.y * acc.count <= acc.sumY < c.y * acc.count + acc.count
  {
    Point2D(acc.sumX / acc.count, acc.sumY / acc.count)
  }

  // ----- The declarative reading of the scan -----

  /** The largest red component of `ss`, or 0 when there is none larger. */
  function MaxRed(ss: seq<Sample>): (m: int)
    ensures 0 <= m
    ensures forall i | 0 <= i < |ss| :: ss[i].red <= m
    ensures m == 0 || exists i | 0 <= i < |ss| :: ss[i].red == m
  {
    if ss == [] then 0
    else
      var pre := MaxRed(ss[..|ss| - 1]);
      if ss[|ss| - 1].red > pre then ss[|ss| - 1].red else pre
  }

  /** The samples whose red component is exactly `m`, in scan order. */
  function Ties(ss: seq<Sample>, m: int): (ts: seq<Sample>)
  {
    if ss == [] then []
    else Ties(ss[..|ss| - 1], m) + (if ss[|ss| - 1].red == m then [ss[|ss| - 1]] else [])
  }

  /** The ties are exactly the samples with red component `m`. */
  lemma {:induction false} TiesMembers(ss: seq<Sample>, m: int)
    ensures |Ties(ss, m)| <= |ss|
    ensures forall t | t in Ties(ss, m) :: t in ss && t.red == m
    ensures forall i | 0 <= i < |ss| && ss[i].red == m :: ss[i] in Ties(ss, m)
  {
    if ss != [] {
      var pre := ss[..|ss| - 1];
      TiesMembers(pre, m);
      forall i | 0 <= i < |ss| && ss[i].red == m
        ensures ss[i] in Ties(ss, m)
      {
        if i < |pre| {
          assert ss[i] == pre[i];
        }
      }
    }
  }

  /** Sum of the x coordinates of `ss`. */
  function SumX(ss: seq<Sample>): int
  {
    if ss == [] then 0 else SumX(ss[..|ss| - 1]) + ss[|ss| - 1].x
  }

  /** Sum of the y coordinates of `ss`. */
  function SumY(ss: seq<Sample>): int
  {
    if ss == [] then 0 else SumY(ss[..|ss| - 1]) + ss[|ss| - 1].y
  }

  /** How many entries the mean divides by: the tied pixels, plus the initial entry when the maximum is 0. */
  function TiedCount(ss: seq<Sample>): (n: int)
    ensures 1 <= n
  {
    var m := MaxRed(ss);
    if m == 0 then |Ties(ss, m)| + 1
    else
      assert Ties(ss, m) != [] by {
        TiesMembers(ss, m);
        var i :| 0 <= i < |ss| && ss[i].red == m;
        assert ss[i] in Ties(ss, m);
      }
      |Ties(ss, m)|
  }

  /** The entry the declarative reading predicts: sums and count over the pixels tied at the maximum. */
  function Expected(ss: seq<Sample>): Accumulator
  {
    var m := MaxRed(ss);
    var ts := Ties(ss, m);
    Accumulator(SumX(ts), SumY(ts), TiedCount(ss), m)
  }

  /** No sample ties with a value above every red component. */
  lemma {:induction false} NoTiesAbove(ss: seq<Sample>, m: int)
    requires forall i | 0 <= i < |ss| :: ss[i].red < m
    ensures Ties(ss, m) == []
  {
    if ss != [] {
      NoTiesAbove(ss[..|ss| - 1], m);
    }
  }

  /**
   * The scan computes the declarative entry: `maxBrightness` is the largest
   * red byte, and sums and count are taken over exactly the pixels whose red
   * byte equals it, plus the initial (0, 0) entry when that maximum is 0.
   */
  lemma {:induction false} ScanIsExpected(ss: seq<Sample>)
    ensures Scan(ss) == Expected(ss)
  {
    if ss != [] {
      var pre, s := ss[..|ss| - 1], ss[|ss| - 1];
      assert pre + [s] == ss;
      ScanIsExpected(pre);
      ScanSnoc(pre, s);
      if s.red > MaxRed(pre) {
        ExpectedAfterBrighter(pre, s);
      } else if s.red == MaxRed(pre) {
        ExpectedAfterTie(pre, s);
      } else {
        ExpectedAfterDarker(pre, s);
      }
    }
  }

  /** A strictly brighter sample resets the entry to itself alone. */
  lemma ExpectedAfterBrighter(pre: seq<Sample>, s: Sample)
    requires s.red > MaxRed(pre)
    ensures Expected(pre + [s]) == Accumulator(s.x, s.y, 1, s.red)
  {
    var ss := pre + [s];
    assert ss[..|ss| - 1] == pre;
    assert MaxRed(ss) == s.red;
    NoTiesAbove(pre, s.red);
    assert Ties(ss, s.red) == [s];
    assert [s][..0] == [];
    assert SumX([s]) == s.x;
    assert SumY([s]) == s.y;
  }

  /** A sample equal to the maximum joins the entry. */
  lemma ExpectedAfterTie(pre: seq<Sample>, s: Sample)
    requires s.red == MaxRed(pre)
    ensures var e := Expected(pre);
      Expected(pre + [s]) == Accumulator(e.sumX + s.x, e.sumY + s.y, e.count + 1, e.maxBrightness)
  {
    var ts := Ties(pre, s.red);
    TiesAfterTie(pre, s);
    assert (ts + [s])[..|ts|] == ts;
    assert SumX(ts + [s]) == SumX(ts) + s.x;
    assert SumY(ts + [s]) == SumY(ts) + s.y;
  }

  /** A sample equal to the maximum keeps the maximum and is appended to the ties. */
  lemma TiesAfterTie(pre: seq<Sample>, s: Sample)
    requires s.red == MaxRed(pre)
    ensures MaxRed(pre + [s]) == MaxRed(pre)
    ensures Ties(pre + [s], s.red) == Ties(pre, s.red) + [s]
  {
    var ss := pre + [s];
    assert ss[..|ss| - 1] == pre;
  }

  /** A darker sample leaves the entry as it was. */
  lemma ExpectedAfterDarker(pre: seq<Sample>, s: Sample)
    requires s.red < MaxRed(pre)
    ensures Expected(pre + [s]) == Expected(pre)
  {
    var ss := pre + [s];
    assert ss[..|ss| - 1] == pre;
    assert MaxRed(ss) == MaxRed(pre);
    assert Ties(ss, MaxRed(pre)) == Ties(pre, MaxRed(pre));
  }

  /** When the maximum is 0, every sample is tied at it. */
  lemma {:induction false} AllTiedAtZero(ss: seq<Sample>)
    requires MaxRed(ss) == 0
    ensures Ties(ss, 0) == ss
  {
    if ss != [] {
      var pre := ss[..|ss| - 1];
      assert MaxRed(pre) == 0;
      AllTiedAtZero(pre);
      assert pre + [ss[|ss| - 1]] == ss;
    }
  }

  /** When every sample lies within (maxX, maxY), the coordinate sums are at most the count times those bounds. */
  lemma {:induction false} SumsBounded(ss: seq<Sample>, maxX: int, maxY: int)
    requires forall i | 0 <= i < |ss| :: ss[i].x <= maxX && ss[i].y <= maxY
    ensures 0 <= SumX(ss) <= |ss| * maxX
    ensures 0 <= SumY(ss) <= |ss| * maxY
  {
    if ss != [] {
      SumsBounded(ss[..|ss| - 1], maxX, maxY);
      assert |ss| * maxX == (|ss| - 1) * maxX + maxX;
      assert |ss| * maxY == (|ss| - 1) * maxY + maxY;
    }
  }

  /** The sub-sequence of ties keeps every bound of the samples it comes from. */
  lemma TiesBounded(ss: seq<Sample>, m: int, maxX: int, maxY: int)
    requires forall i | 0 <= i < |ss| :: ss[i].x <= maxX && ss[i].y <= maxY
    ensures forall i | 0 <= i < |Ties(ss, m)| :: Ties(ss, m)[i].x <= maxX && Ties(ss, m)[i].y <= maxY
  {
    TiesMembers(ss, m);
    forall i | 0 <= i < |Ties(ss, m)|
      ensures Ties(ss, m)[i].x <= maxX && Ties(ss, m)[i].y <= maxY
    {
      assert Ties(ss, m)[i] in ss;
    }
  }

  /** The centroid of the samples lies in [0, maxX] × [0, maxY] when every sample does. */
  lemma CentroidBounded(ss: seq<Sample>, maxX: int, maxY: int)
    requires 0 <= maxX && 0 <= maxY
    requires forall i | 0 <= i < |ss| :: ss[i].x <= maxX && ss[i].y <= maxY
    ensures Expected(ss).count > 0
    ensures 0 <= Centroid(Expected(ss)).x <= maxX
    ensures 0 <= Centroid(Expected(ss)).y <= maxY
  {
    var m := MaxRed(ss);
    var ts := Ties(ss, m);
    var acc := Expected(ss);
    if m == 0 {
      AllTiedAtZero(ss);
    }
    assert acc.count > 0;
    TiesBounded(ss, m, maxX, maxY);
    SumsBounded(ts, maxX, maxY);
    MulLeq(|ts|, acc.count, maxX);
    MulLeq(|ts|, acc.count, maxY);
    DivAtMost(acc.sumX, acc.count, maxX);
    DivAtMost(acc.sumY, acc.count, maxY);
  }

  /** The brightest point the scan reports for `img`. */
  function BrightestCentroid(img: Image): Point2D
    requires Scannable(img)
  {
    Centroid(Scan(Samples(img)))
  }

  /**
   * The method reports the truncated mean of the coordinates of the pixels
   * whose red byte is largest; that it lies inside the image; and, in an
   * all-black image, the mean over every pixel and the phantom (0, 0) entry.
   */
  lemma BrightestCentroidMeaning(img: Image)
    requires Scannable(img)
    ensures var ss := Samples(img);
      var m := MaxRed(ss);
      var ts := Ties(ss, m);
      BrightestCentroid(img) == Point2D(SumX(ts) / TiedCount(ss), SumY(ts) / TiedCount(ss))
    ensures 0 <= BrightestCentroid(img).x < img.width && 0 <= BrightestCentroid(img).y < img.height
    ensures MaxRed(Samples(img)) == 0 ==>
      BrightestCentroid(img) == Point2D(SumX(Samples(img)) / (img.width * img.height + 1),
                                        SumY(Samples(img)) / (img.width * img.height + 1))
  {
    var ss := Samples(img);
    ScanIsExpected(ss);
    ColumnsInside(img, img.width);
    CentroidBounded(ss, img.width - 1, img.height - 1);
    ColumnsLength(img, img.width);
    if MaxRed(ss) == 0 {
      AllTiedAtZero(ss);
    }
  }

  /**
   * The brightness scan of `getBrightestPoint` (and its two copies):
   * nested loops over x and then y, updating `pointSums`, `pointCounts` and
   * `maxBrightness`, then the truncated mean.
   */
  method FindBrightestPoint(img: Image) returns (center: Point2D)
    requires Scannable(img)
    ensures center == BrightestCentroid(img)
    ensures 0 <= center.x < img.width && 0 <= center.y < img.height
    ensures var ss := Samples(img);
      var m := MaxRed(ss);
      var ts := Ties(ss, m);
      center == Point2D(SumX(ts) / TiedCount(ss), SumY(ts) / TiedCount(ss))
  {
    var sumX, sumY := 0, 0;
    var pointCounts := 1;
    var maxBrightness := 0;
    for x := 0 to img.width
      invariant Accumulator(sumX, sumY, pointCounts, maxBrightness) == Scan(Columns(img, x))
    {
      sumX, sumY, pointCounts, maxBrightness := ScanColumn(img, x, sumX, sumY, pointCounts, maxBrightness);
    }
    BrightestCentroidMeaning(img);
    center := Point2D(sumX / pointCounts, sumY / pointCounts);
  }

  /** The inner `y` loop of that scan over column `x`, continuing from the locals the earlier columns left. */
  method ScanColumn(img: Image, x: nat, sumX0: int, sumY0: int, pointCounts0: int, maxBrightness0: int)
    returns (sumX: int, sumY: int, pointCounts: int, maxBrightness: int)
    requires Scannable(img) && x < img.width
    requires Accumulator(sumX0, sumY0, pointCounts0, maxBrightness0) == Scan(Columns(img, x))
    ensures Accumulator(sumX, sumY, pointCounts, maxBrightness) == Scan(Columns(img, x + 1))
  {
    sumX, sumY, pointCounts, maxBrightness := sumX0, sumY0, pointCounts0, maxBrightness0;
    NextColumn(img, x);
    for y := 0 to img.height
      invariant Accumulator(sumX, sumY, pointCounts, maxBrightness) == Scan(Columns(img, x) + Column(img, x, y))
    {
      OffsetInBounds(img, x, y);
      var offset := Offset(img, x, y);
      var r, g, b := img.bytes[offset], img.bytes[offset + 1], img.bytes[offset + 2];
      assert r == RedAt(img, x, y);
      NextSample(img, x, y);
      if r > maxBrightness {
        maxBrightness := r;
        sumX, sumY := x, y;
        pointCounts := 1;
      } else if r == maxBrightness {
        sumX, sumY := sumX + x, sumY + y;
        pointCounts := pointCounts + 1;
      }
    }
  }

  /** The inner loop starts a column on the pixels of the earlier ones and ends having added it. */
  lemma NextColumn(img: Image, x: nat)
    requires Scannable(img) && x < img.width
    ensures Columns(img, x) + Column(img, x, 0) == Columns(img, x)
    ensures Columns(img, x + 1) == Columns(img, x) + Column(img, x, img.height)
  {
    assert Columns(img, x) + [] == Columns(img, x);
  }

  /** One pass of the inner loop body is one `Step` on the pixel just read. */
  lemma NextSample(img: Image, x: nat, y: nat)
    requires Scannable(img) && x < img.width && y < img.height
    ensures Scan(Columns(img, x) + Column(img, x, y + 1)) ==
      Step(Scan(Columns(img, x) + Column(img, x, y)), Sample(x, y, RedAt(img, x, y)))
  {
    var s := Sample(x, y, RedAt(img, x, y));
    assert Column(img, x, y + 1) == Column(img, x, y) + [s];
    assert Columns(img, x) + Column(img, x, y + 1) == (Columns(img, x) + Column(img, x, y)) + [s];
    ScanSnoc(Columns(img, x) + Column(img, x, y), s);
  }

  // ----- Consequences -----

  /** A pixel strictly brighter than every other one is the only tie. */
  lemma {:induction false} UniqueTie(ss: seq<Sample>, k: nat)
    requires k < |ss|
    requires forall i | 0 <= i < |ss| && i != k :: ss[i].red < ss[k].red
    ensures MaxRed(ss) == ss[k].red
    ensures Ties(ss, ss[k].red) == [ss[k]]
  {
    var pre := ss[..|ss| - 1];
    if k == |ss| - 1 {
      NoTiesAbove(pre, ss[k].red);
    } else {
      assert ss[k] == pre[k];
      UniqueTie(pre, k);
      assert ss[|ss| - 1].red < ss[k].red;
    }
  }

  /** A non-black pixel strictly brighter than every other one is the reported point. */
  lemma UniqueMaximum(ss: seq<Sample>, k: nat)
    requires k < |ss| && 0 < ss[k].red
    requires forall i | 0 <= i < |ss| && i != k :: ss[i].red < ss[k].red
    ensures Centroid(Scan(ss)) == Point2D(ss[k].x, ss[k].y)
  {
    UniqueTie(ss, k);
    ScanIsExpected(ss);
    assert [ss[k]][..0] == [];
    assert SumX([ss[k]]) == ss[k].x;
    assert SumY([ss[k]]) == ss[k].y;
  }

  /** Step i of the scan visits pixel (i / height, i % height). */
  lemma SampleAtStep(img: Image, i: nat)
    requires Scannable(img) && i < |Samples(img)|
    ensures i / img.height < img.width && i % img.height < img.height
    ensures Samples(img)[i] == Sample(i / img.height, i % img.height, RedAt(img, i / img.height, i % img.height))
  {
    var h := img.height;
    ColumnsLength(img, img.width);
    var x, y := i / h, i % h;
    assert i == x * h + y;
    if x >= img.width {
      MulLeq(img.width, x, h);
    }
    ColumnsAt(img, img.width, x, y);
  }

  /**
   * An image with one pixel whose red byte is non-zero and strictly larger
   * than every other pixel's reports exactly that pixel.
   */
  lemma SingleBrightestPixel(img: Image, x0: nat, y0: nat)
    requires Scannable(img) && x0 < img.width && y0 < img.height && 0 < RedAt(img, x0, y0)
    requires forall x: nat, y: nat | x < img.width && y < img.height && (x != x0 || y != y0) ::
      RedAt(img, x, y) < RedAt(img, x0, y0)
    ensures BrightestCentroid(img) == Point2D(x0, y0)
  {
    var ss := Samples(img);
    var k := x0 * img.height + y0;
    SamplesInScanOrder(img);
    forall i | 0 <= i < |ss| && i != k
      ensures ss[i].red < ss[k].red
    {
      SampleAtStep(img, i);
    }
    UniqueMaximum(ss, k);
  }

  /** Only red components matter: columns with the same red bytes are the same samples. */
  lemma {:induction false} SameColumn(img1: Image, img2: Image, x: nat, n: nat)
    requires Scannable(img1) && Scannable(img2)
    requires img1.width == img2.width && img1.height == img2.height
    requires forall x, y | 0 <= x < img1.width && 0 <= y < img1.height :: RedAt(img1, x, y) == RedAt(img2, x, y)
    requires x < img1.width && n <= img1.height
    ensures Column(img1, x, n) == Column(img2, x, n)
  {
    if n > 0 {
      SameColumn(img1, img2, x, n - 1);
    }
  }

  /** Only red components matter: images with the same red bytes yield the same scan. */
  lemma {:induction false} RedDecides(img1: Image, img2: Image, m: nat)
    requires Scannable(img1) && Scannable(img2)
    requires img1.width == img2.width && img1.height == img2.height
    requires forall x, y | 0 <= x < img1.width && 0 <= y < img1.height :: RedAt(img1, x, y) == RedAt(img2, x, y)
    requires m <= img1.width
    ensures Columns(img1, m) == Columns(img2, m)
  {
    if m > 0 {
      RedDecides(img1, img2, m - 1);
      SameColumn(img1, img2, m - 1, img1.height);
    }
  }

  /** The reported point depends on the red channel alone (green and blue are read, never used). */
  lemma RedOnly(img1: Image, img2: Image)
    requires Scannable(img1) && Scannable(img2)
    requires img1.width == img2.width && img1.height == img2.height
    requires forall x, y | 0 <= x < img1.width && 0 <= y < img1.height :: RedAt(img1, x, y) == RedAt(img2, x, y)
    ensures BrightestCentroid(img1) == BrightestCentroid(img2)
  {
    RedDecides(img1, img2, img1.width);
  }
}
