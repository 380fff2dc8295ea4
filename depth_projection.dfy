/**
 * From the brightest point of the blurred image to a 3D point: undo the blur
 * margin, read the depth map at that pixel and back-project it through the
 * pinhole intrinsics rescaled to the depth map's resolution (the second
 * half of `CameraManager.getBrightestPoint`).
 */
module DepthProjection {
  import opened Bytes
  import opened BrightestPoint

  /** Pixels the Gaussian blur adds on each side of the image. */
  const BlurMargin: int := 30

  /** Factor applied to each decoded depth sample before it is used. */
  const DepthScale: real := 1000.0

  /** `max(c - 30, 0)`: a blurred-image coordinate moved back by the margin, clamped below only. */
  function Unblur(c: int): (r: nat)
    ensures c - BlurMargin <= r
    ensures r == 0 || r == c - BlurMargin
    ensures c <= BlurMargin ==> r == 0
  {
    if c - BlurMargin > 0 then c - BlurMargin else 0
  }

  /** Both coordinates of a point moved back by the blur margin. */
  function UnblurPoint(p: Point2D): Point2D
  {
    Point2D(Unblur(p.x), Unblur(p.y))
  }

  /**
   * `Int(point.y * newWidth + point.x)`: the row-major index into the depth
   * map. When the unblurred column lies inside a depth-map row, the index
   * decodes back to that column and row.
   */
  function DepthIndex(p: Point2D, depthMapWidth: nat): (i: nat)
    ensures Unblur(p.x) < depthMapWidth ==>
      i / depthMapWidth == Unblur(p.y) && i % depthMapWidth == Unblur(p.x)
  {
    if Unblur(p.x) < depthMapWidth then
      RowColumn(Unblur(p.x), Unblur(p.y), depthMapWidth);
      Unblur(p.y) * depthMapWidth + Unblur(p.x)
    else
      Unblur(p.y) * depthMapWidth + Unblur(p.x)
  }

  /** A point whose unblurred position lies in a `w × h` depth map indexes inside it. */
  lemma DepthIndexInside(p: Point2D, depthMapWidth: nat, depthMapHeight: nat)
    requires Unblur(p.x) < depthMapWidth && Unblur(p.y) < depthMapHeight
    ensures DepthIndex(p, depthMapWidth) < depthMapWidth * depthMapHeight
  {
    CellBelowArea(Unblur(p.x), Unblur(p.y), depthMapWidth, depthMapHeight);
  }

  /**
   * There is no clamp from above: a column past the end of a depth-map row
   * reads the start of the next row instead.
   */
  lemma ColumnOverflowWraps(depthMapWidth: nat)
    requires 0 < depthMapWidth
    ensures DepthIndex(Point2D(depthMapWidth + BlurMargin, BlurMargin), depthMapWidth) == depthMapWidth
    ensures DepthIndex(Point2D(BlurMargin, BlurMargin + 1), depthMapWidth) == depthMapWidth
  {
  }

  /** The entries of `cameraIntrinsics` that are used: [0][0], [1][1], [2][0] and [2][1]. */
  datatype Intrinsics = Intrinsics(fx: real, fy: real, cx: real, cy: real)

  /** A homogeneous 3D point. */
  datatype Point3D = Point3D(x: real, y: real, z: real, w: real)

  /**
   * The camera parameters the lift divides by: the depth texture size, the
   * reference dimensions of the intrinsics and the focal lengths are non-zero.
   */
  predicate Projectable(k: Intrinsics, referenceWidth: real, referenceHeight: real, depthWidth: nat, depthHeight: nat)
  {
    depthWidth != 0 && depthHeight != 0 && referenceWidth != 0.0 && referenceHeight != 0.0 &&
    k.fx != 0.0 && k.fy != 0.0
  }

  /** `scaleRes.x`: reference width over depth texture width. */
  function ScaleX(referenceWidth: real, depthWidth: nat): real
    requires depthWidth != 0
  {
    referenceWidth / depthWidth as real
  }

  /** `scaleRes.y`: reference height over depth texture height. */
  function ScaleY(referenceHeight: real, depthHeight: nat): real
    requires depthHeight != 0
  {
    referenceHeight / depthHeight as real
  }

  /** One back-projected coordinate: `(u - c) · d / f`. */
  function BackProject(u: real, c: real, f: real, d: real): real
    requires f != 0.0
  {
    (u - c) * d / f
  }

  /** One pinhole-projected coordinate: `v · f / d + c`. */
  function ForwardProject(v: real, c: real, f: real, d: real): real
    requires d != 0.0
  {
    v * f / d + c
  }

  /** A back-projected coordinate times the focal length is the offset from the centre times the depth. */
  lemma BackProjectScales(u: real, c: real, f: real, d: real)
    requires f != 0.0
    ensures BackProject(u, c, f, d) * f == (u - c) * d
  {
  }

  /** Projecting a back-projected coordinate at the same non-zero depth gives it back. */
  lemma PinholeAxis(u: real, c: real, f: real, d: real)
    requires f != 0.0 && d != 0.0
    ensures ForwardProject(BackProject(u, c, f, d), c, f, d) == u
  {
    var t := BackProject(u, c, f, d);
    assert t * f == (u - c) * d;
    assert t * f / d == u - c;
  }

  /**
   * The lift at the end of `getBrightestPoint`: back-project pixel `p` of the
   * depth map with depth sample `sample` through the intrinsics rescaled by
   * `scaleRes`. The result is on the pinhole ray through `p`, at depth
   * `sample · 1000`, in homogeneous form.
   */
  function Lift(p: Point2D, sample: real, k: Intrinsics, referenceWidth: real, referenceHeight: real,
                depthWidth: nat, depthHeight: nat): (q: Point3D)
    requires Projectable(k, referenceWidth, referenceHeight, depthWidth, depthHeight)
    ensures q.z == sample * DepthScale && q.w == 1.0
    ensures var sx, sy := ScaleX(referenceWidth, depthWidth), ScaleY(referenceHeight, depthHeight);
      q.x * (k.fx / sx) == (p.x as real - k.cx / sx) * q.z &&
      q.y * (k.fy / sy) == (p.y as real - k.cy / sy) * q.z
  {
    var depth := sample * DepthScale;
    var sx := ScaleX(referenceWidth, depthWidth);
    var sy := ScaleY(referenceHeight, depthHeight);
    assert sx != 0.0 && sy != 0.0;
    BackProjectScales(p.x as real, k.cx / sx, k.fx / sx, depth);
    BackProjectScales(p.y as real, k.cy / sy, k.fy / sy, depth);
    Point3D(BackProject(p.x as real, k.cx / sx, k.fx / sx, depth),
            BackProject(p.y as real, k.cy / sy, k.fy / sy, depth), depth, 1.0)
  }

  /** The forward pinhole projection at the depth map's resolution. */
  function Project(q: Point3D, k: Intrinsics, referenceWidth: real, referenceHeight: real,
                   depthWidth: nat, depthHeight: nat): (real, real)
    requires Projectable(k, referenceWidth, referenceHeight, depthWidth, depthHeight)
    requires q.z != 0.0
  {
    var sx := ScaleX(referenceWidth, depthWidth);
    var sy := ScaleY(referenceHeight, depthHeight);
    assert sx != 0.0 && sy != 0.0;
    (ForwardProject(q.x, k.cx / sx, k.fx / sx, q.z), ForwardProject(q.y, k.cy / sy, k.fy / sy, q.z))
  }

  /**
   * The lift is the inverse of the pinhole projection: projecting the lifted
   * point gives back the pixel, for any non-zero depth; its third component is
   * the scaled depth and its fourth is 1.
   */
  lemma LiftThenProject(p: Point2D, sample: real, k: Intrinsics, referenceWidth: real, referenceHeight: real,
                        depthWidth: nat, depthHeight: nat)
    requires Projectable(k, referenceWidth, referenceHeight, depthWidth, depthHeight)
    requires sample != 0.0
    ensures var q := Lift(p, sample, k, referenceWidth, referenceHeight, depthWidth, depthHeight);
      q.z == sample * DepthScale && q.w == 1.0 &&
      Project(q, k, referenceWidth, referenceHeight, depthWidth, depthHeight) == (p.x as real, p.y as real)
  {
    var sx := ScaleX(referenceWidth, depthWidth);
    var sy := ScaleY(referenceHeight, depthHeight);
    assert sx != 0.0 && sy != 0.0;
    var depth := sample * DepthScale;
    PinholeAxis(p.x as real, k.cx / sx, k.fx / sx, depth);
    PinholeAxis(p.y as real, k.cy / sy, k.fy / sy, depth);
  }

  /**
   * Rescaling the intrinsics is the same as scaling the pixel up to the
   * reference resolution: `x = (px·sx − cx)·d / fx` with the raw intrinsics.
   */
  lemma LiftAtReferenceResolution(p: Point2D, sample: real, k: Intrinsics, referenceWidth: real, referenceHeight: real,
                                  depthWidth: nat, depthHeight: nat)
    requires Projectable(k, referenceWidth, referenceHeight, depthWidth, depthHeight)
    ensures var q := Lift(p, sample, k, referenceWidth, referenceHeight, depthWidth, depthHeight);
      var sx := ScaleX(referenceWidth, depthWidth);
      var sy := ScaleY(referenceHeight, depthHeight);
      q.x == (p.x as real * sx - k.cx) * q.z / k.fx &&
      q.y == (p.y as real * sy - k.cy) * q.z / k.fy
  {
    var sx := ScaleX(referenceWidth, depthWidth);
    var sy := ScaleY(referenceHeight, depthHeight);
    assert sx != 0.0 && sy != 0.0;
    var depth := sample * DepthScale;
    RescaledAxis(p.x as real, k.cx, k.fx, sx, depth);
    RescaledAxis(p.y as real, k.cy, k.fy, sy, depth);
  }

  /** `(u - c/s)·d / (f/s) == (u·s - c)·d / f` for non-zero `s` and `f`. */
  lemma RescaledAxis(u: real, c: real, f: real, s: real, d: real)
    requires f != 0.0 && s != 0.0
    ensures BackProject(u, c / s, f / s, d) == (u * s - c) * d / f
  {
    assert u - c / s == (u * s - c) / s;
    assert ((u * s - c) / s) * d == ((u * s - c) * d) / s;
    assert (((u * s - c) * d) / s) / (f / s) == ((u * s - c) * d) / f;
  }
}
