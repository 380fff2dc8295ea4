/**
 * The two stand-alone copies of the brightest-point scan. Each runs the scan
 * of module BrightestPoint on the blurred greyscale image it is handed; what
 * differs is only what it hands back.
 */
module LiveFrameCapture {
  import opened BrightestPoint

  /**
   * `ViewController.getBrightestPoint(image:)`: the scan, with the centre
   * returned as the only element of an array.
   */
  method GetBrightestPoint(image: Image) returns (points: seq<Point2D>)
    requires Scannable(image)
    ensures |points| == 1 && points[0] == BrightestCentroid(image)
    ensures 0 <= points[0].x < image.width && 0 <= points[0].y < image.height
  {
    var center := FindBrightestPoint(image);
    points := [center];
  }
}

module BrightestPointPlayground {
  import opened BrightestPoint

  /**
   * `getBrightestPoint(image:)` of the BrightestPoint playground: the scan and
   * its centre (the marker it then draws on the image is not modelled).
   */
  method GetBrightestPoint(image: Image) returns (center: Point2D)
    requires Scannable(image)
    ensures center == BrightestCentroid(image)
    ensures 0 <= center.x < image.width && 0 <= center.y < image.height
  {
    center := FindBrightestPoint(image);
  }
}
