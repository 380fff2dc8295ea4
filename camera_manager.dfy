/**
 * `CameraManager` (LiDARDepth/Model/CameraManager.swift): the object between
 * the capture controller and the views. It holds the latest captured frame,
 * three flags that drive the photo-capture cycle, and the brightest point of
 * the last photo in 2D and 3D.
 */
module CameraManagement {
  import opened BrightestPoint
  import opened DepthProjection

  datatype Option<T> = None | Some(value: T)

  /**
   * The parts of a `CameraCapturedData` delivery that the manager computes
   * with. `blurred` is the greyscale, blurred rendering of `ciImage` as the
   * scan reads it; `depthMap` holds the decoded samples of the depth pixel
   * buffer, `depthMapWidth` that buffer's width; `depthWidth`/`depthHeight`
   * are the size of the depth texture.
   */
  datatype CapturedData = CapturedData(
    blurred: Image,
    depthMap: seq<real>,
    depthMapWidth: nat,
    depthWidth: nat,
    depthHeight: nat,
    intrinsics: Intrinsics,
    referenceWidth: real,
    referenceHeight: real)

  /**
   * What `getBrightestPoint` needs of a frame: a scannable image, camera
   * parameters it can divide by, and a depth read inside the depth map.
   */
  predicate Ready(data: CapturedData)
  {
    Scannable(data.blurred) &&
    Projectable(data.intrinsics, data.referenceWidth, data.referenceHeight, data.depthWidth, data.depthHeight) &&
    DepthIndex(BrightestCentroid(data.blurred), data.depthMapWidth) < |data.depthMap|
  }

  /** The 3D point `getBrightestPoint` computes for a frame: the lift of the unblurred brightest point. */
  function BrightestPoint3DOf(data: CapturedData): Point3D
    requires Ready(data)
  {
    var center := BrightestCentroid(data.blurred);
    Lift(UnblurPoint(center), data.depthMap[DepthIndex(center, data.depthMapWidth)], data.intrinsics,
         data.referenceWidth, data.referenceHeight, data.depthWidth, data.depthHeight)
  }

  // ----- The capture cycle as a state machine -----

  /** The four calls that drive the cycle; `NewData` is the (synchronous) main-queue block. */
  datatype Event = StartPhotoCapture | ResumeStream | NewPhotoData(data: CapturedData) | NewData(data: CapturedData)

  /** The flags and the frame on show. */
  datatype Session = Session(waitingForCapture: bool, processingCapturedResult: bool, dataAvailable: bool,
                             captured: Option<CapturedData>)

  /**
   * The effect of one event on the session. A capture request sets
   * `waitingForCapture`; a photo is shown and ends the wait by starting its
   * processing; `resumeStream` clears both flags; while a photo is being
   * processed, a stream frame changes nothing. `dataAvailable` is never
   * cleared, and only a stream frame sets it.
   */
  function Next(s: Session, e: Event): (t: Session)
    ensures e.StartPhotoCapture? ==> t.waitingForCapture
    ensures e.StartPhotoCapture? ==> t.processingCapturedResult == s.processingCapturedResult
    ensures e.NewPhotoData? ==> t.captured == Some(e.data) && !t.waitingForCapture && t.processingCapturedResult
    ensures e.ResumeStream? ==> !t.waitingForCapture && !t.processingCapturedResult
    ensures e.NewData? && s.processingCapturedResult ==> t == s
    ensures e.NewData? && !s.processingCapturedResult ==> t.captured == Some(e.data) && t.dataAvailable
    ensures e.NewData? ==> t.waitingForCapture == s.waitingForCapture && t.processingCapturedResult == s.processingCapturedResult
    ensures s.dataAvailable ==> t.dataAvailable
    ensures t.dataAvailable ==> s.dataAvailable || e.NewData?
    ensures !e.NewPhotoData? && !e.NewData? ==> t.captured == s.captured && t.dataAvailable == s.dataAvailable
  {
    match e
    case StartPhotoCapture => s.(waitingForCapture := true)
    case ResumeStream => s.(processingCapturedResult := false, waitingForCapture := false)
    case NewPhotoData(data) => s.(captured := Some(data), waitingForCapture := false, processingCapturedResult := true)
    case NewData(data) => if s.processingCapturedResult then s else s.(captured := Some(data), dataAvailable := true)
  }

  /** The session after the events `es`, in order. */
  function Run(s: Session, es: seq<Event>): Session
    decreases |es|
  {
    if es == [] then s else Run(Next(s, es[0]), es[1..])
  }

  /** Once `dataAvailable` is set, no sequence of events clears it. */
  lemma {:induction false} DataAvailableStays(s: Session, es: seq<Event>)
    requires s.dataAvailable
    ensures Run(s, es).dataAvailable
    decreases |es|
  {
    if es != [] {
      DataAvailableStays(Next(s, es[0]), es[1..]);
    }
  }

  /**
   * While a captured photo is being shown, stream frames and further capture
   * requests change neither the frame on show nor `processingCapturedResult`;
   * only `resumeStream` or a new photo do.
   */
  lemma {:induction false} PhotoStaysWhileProcessing(s: Session, es: seq<Event>)
    requires s.processingCapturedResult
    requires forall i | 0 <= i < |es| :: es[i].StartPhotoCapture? || es[i].NewData?
    ensures Run(s, es).processingCapturedResult
    ensures Run(s, es).captured == s.captured
    ensures Run(s, es).dataAvailable == s.dataAvailable
    decreases |es|
  {
    if es != [] {
      PhotoStaysWhileProcessing(Next(s, es[0]), es[1..]);
    }
  }

  /**
   * A photo followed by any stream frames stays on show, and the photo cycle
   * ends with `waitingForCapture` cleared unless a new capture was requested.
   */
  lemma PhotoThenStream(s: Session, data: CapturedData, frames: seq<CapturedData>)
    ensures var es := seq(|frames|, i requires 0 <= i < |frames| => NewData(frames[i]));
      var after := Run(s, [NewPhotoData(data)] + es);
      after.captured == Some(data) && after.processingCapturedResult && !after.waitingForCapture &&
      after.dataAvailable == s.dataAvailable
  {
    var es := seq(|frames|, i requires 0 <= i < |frames| => NewData(frames[i]));
    var s1 := Next(s, NewPhotoData(data));
    assert ([NewPhotoData(data)] + es)[1..] == es;
    PhotoStaysWhileProcessing(s1, es);
    NoCaptureRequest(s1, es);
  }

  /** Stream frames never set `waitingForCapture`. */
  lemma {:induction false} NoCaptureRequest(s: Session, es: seq<Event>)
    requires !s.waitingForCapture
    requires forall i | 0 <= i < |es| :: es[i].NewData?
    ensures !Run(s, es).waitingForCapture
    decreases |es|
  {
    if es != [] {
      NoCaptureRequest(Next(s, es[0]), es[1..]);
    }
  }

  /** After `resumeStream`, the next stream frame is shown and makes data available. */
  lemma ResumeThenFrame(s: Session, data: CapturedData)
    ensures var after := Run(s, [ResumeStream, NewData(data)]);
      after.captured == Some(data) && after.dataAvailable &&
      !after.processingCapturedResult && !after.waitingForCapture
  {
    var s1 := Next(s, ResumeStream);
    assert [ResumeStream, NewData(data)][1..] == [NewData(data)];
    assert [NewData(data)][1..] == [];
    assert Run(s, [ResumeStream, NewData(data)]) == Run(s1, [NewData(data)]);
    assert Run(s1, [NewData(data)]) == Run(Next(s1, NewData(data)), []);
  }

  // ----- The object -----

  class CameraManager {
    var capturedData: Option<CapturedData>
    var waitingForCapture: bool
    var processingCapturedResult: bool
    var dataAvailable: bool
    var brightestPoint: Point2D
    var brightestPoint3D: Point3D
    var imageSize: (int, int)

    /** The flags and the frame on show, as a session. */
    function State(): Session
      reads this
    {
      Session(waitingForCapture, processingCapturedResult, dataAvailable, capturedData)
    }

    /** `init()`: all flags down, no frame yet, the published points at their zero values. */
    constructor ()
      ensures State() == Session(false, false, false, None)
      ensures brightestPoint == Point2D(0, 0) && imageSize == (0, 0)
      ensures brightestPoint3D == Point3D(0.0, 0.0, 0.0, 0.0)
    {
      capturedData := None;
      waitingForCapture := false;
      processingCapturedResult := false;
      dataAvailable := false;
      brightestPoint := Point2D(0, 0);
      brightestPoint3D := Point3D(0.0, 0.0, 0.0, 0.0);
      imageSize := (0, 0);
    }

    /** `startPhotoCapture()`: a photo is requested and awaited. */
    method StartPhotoCapture()
      modifies this`waitingForCapture
      ensures State() == Next(old(State()), Event.StartPhotoCapture)
      ensures waitingForCapture
    {
      waitingForCapture := true;
    }

    /** `resumeStream()`: back to the live stream. */
    method ResumeStream()
      modifies this`processingCapturedResult, this`waitingForCapture
      ensures State() == Next(old(State()), Event.ResumeStream)
      ensures !processingCapturedResult && !waitingForCapture
    {
      processingCapturedResult := false;
      waitingForCapture := false;
    }

    /**
     * `getBrightestPoint()`: scan the frame's blurred image, record its size
     * and brightest point, and lift that point to 3D with the depth map.
     */
    method GetBrightestPoint()
      requires capturedData.Some? && Ready(capturedData.value)
      modifies this`imageSize, this`brightestPoint, this`brightestPoint3D
      ensures imageSize == (capturedData.value.blurred.width, capturedData.value.blurred.height)
      ensures brightestPoint == BrightestCentroid(capturedData.value.blurred)
      ensures 0 <= brightestPoint.x < imageSize.0 && 0 <= brightestPoint.y < imageSize.1
      ensures brightestPoint3D == BrightestPoint3DOf(capturedData.value)
      ensures brightestPoint3D.w == 1.0
    {
      var data := capturedData.value;
      imageSize := (data.blurred.width, data.blurred.height);
      brightestPoint := FindBrightestPoint(data.blurred);
      var point := UnblurPoint(brightestPoint);
      var sample := data.depthMap[DepthIndex(brightestPoint, data.depthMapWidth)];
      brightestPoint3D := Lift(point, sample, data.intrinsics, data.referenceWidth, data.referenceHeight,
                               data.depthWidth, data.depthHeight);
    }

    /**
     * `onNewPhotoData(capturedData:)`: show the photo, compute its brightest
     * point, and switch from waiting to processing.
     */
    method OnNewPhotoData(data: CapturedData)
      requires Ready(data)
      modifies this
      ensures State() == Next(old(State()), NewPhotoData(data))
      ensures !waitingForCapture && processingCapturedResult
      ensures imageSize == (data.blurred.width, data.blurred.height)
      ensures brightestPoint == BrightestCentroid(data.blurred)
      ensures brightestPoint3D == BrightestPoint3DOf(data)
    {
      capturedData := Some(data);
      GetBrightestPoint();
      waitingForCapture := false;
      processingCapturedResult := true;
    }

    /**
     * `onNewData(capturedData:)`: a stream frame replaces the one on show
     * and marks data available, unless a photo is being processed.
     */
    method OnNewData(data: CapturedData)
      modifies this`capturedData, this`dataAvailable
      ensures State() == Next(old(State()), NewData(data))
      ensures old(processingCapturedResult) ==> capturedData == old(capturedData) && dataAvailable == old(dataAvailable)
      ensures old(dataAvailable) ==> dataAvailable
    {
      if !processingCapturedResult {
        capturedData := Some(data);
        if dataAvailable == false {
          dataAvailable := true;
        }
      }
    }
  }
}
