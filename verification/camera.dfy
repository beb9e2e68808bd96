/** The capture adapters of `birdcctv/camera.py`: two tagged variants behind
    one protocol, the factory that chooses between them, and the open/closed
    flag of the Picamera2 adapter. Driver calls are oracles: their answers are
    parameters. */
module Camera {
  import opened Outcomes
  import opened Text
  import opened Images
  import Config

  /** The OpenCV capture API `OpenCVCapture` asks for. */
  datatype Api = AnyApi | V4l2Api | GStreamerApi

  /** `OpenCVCapture.__post_init__`: the backend hint is compared exactly, and
      anything unrecognised, `None` included, uses OpenCV's default API. */
  function SelectApi(backend: Option<string>): (api: Api)
    ensures api == V4l2Api <==> backend == Some(Config.V4l2Backend)
    ensures api == GStreamerApi <==> backend == Some(Config.GStreamerBackend)
  {
    if backend == Some(Config.V4l2Backend) then V4l2Api
    else if backend == Some(Config.GStreamerBackend) then GStreamerApi
    else AnyApi
  }

  /** Through the configuration parser the backend hint becomes
      case-insensitive and whitespace-tolerant. */
  lemma ConfiguredApi(value: Option<string>)
    ensures SelectApi(Config.ParseBackend(value)) == V4l2Api
      <==> value.Some? && Config.Normalised(value.value) == Config.V4l2Backend
    ensures SelectApi(Config.ParseBackend(value)) == GStreamerApi
      <==> value.Some? && Config.Normalised(value.value) == Config.GStreamerBackend
  {
  }

  /** The two capture variants. `deviceOpen` is what `cv2.VideoCapture.isOpened`
      answers; `isOpen` is the Picamera2 adapter's own `_opened` flag. */
  datatype Capture =
    | OpenCv(source: Config.VideoSource, api: Api, deviceOpen: bool)
    | PiCam(resolution: Config.Resolution, framerate: int, isOpen: bool)
  {
    /** `isOpened()`. */
    predicate IsOpened() {
      match this
      case OpenCv(_, _, o) => o
      case PiCam(_, _, o) => o
    }
  }

  /** `OpenCVCapture(source, backend)`; whether the device opens is OpenCV's
      answer, `deviceOpens`. Constructing it never raises. */
  function NewOpenCvCapture(source: Config.VideoSource, backend: Option<string>, deviceOpens: bool): (c: Capture)
    ensures c.OpenCv? && c.source == source && c.api == SelectApi(backend)
    ensures c.IsOpened() == deviceOpens
  {
    OpenCv(source, SelectApi(backend), deviceOpens)
  }

  /** `OpenCVCapture.release`: the device is released only when it is open.
      The flag says whether `cv2.VideoCapture.release` was called. */
  function ReleaseOpenCv(c: Capture): (r: (Capture, bool))
    requires c.OpenCv?
    ensures r.1 <==> c.deviceOpen
    ensures !r.0.IsOpened()
    ensures r.0.OpenCv? && r.0.source == c.source && r.0.api == c.api
  {
    if c.deviceOpen then (c.(deviceOpen := false), true) else (c, false)
  }

  /** The answers the Picamera2 driver gives while an adapter is constructed:
      whether the library is installed, and whether `configure`,
      `set_controls` (the framerate) and `start` succeed. */
  datatype PiDriver = PiDriver(installed: bool, configures: bool, acceptsFramerate: bool, starts: bool)

  /** `PiCameraCapture.__init__`: raises unless the library is present and the
      camera configures and starts; a refused framerate is only logged. */
  function NewPiCamera(resolution: Config.Resolution, framerate: int, driver: PiDriver): (r: Result<Capture>)
    ensures r.Ok? <==> driver.installed && driver.configures && driver.starts
    ensures r.Ok? ==> r.value == PiCam(resolution, framerate, true) && r.value.IsOpened()
  {
    if !driver.installed then Raised("Picamera2 library is not installed")
    else if !driver.configures then Raised("configure failed")
    else
      // set_controls failures are caught and logged; start() is attempted either way
      if !driver.starts then Raised("start failed")
      else Ok(PiCam(resolution, framerate, true))
  }

  /** Whether the framerate is accepted makes no difference to the outcome. */
  lemma FramerateIsBestEffort(resolution: Config.Resolution, framerate: int, driver: PiDriver)
    ensures NewPiCamera(resolution, framerate, driver.(acceptsFramerate := false))
         == NewPiCamera(resolution, framerate, driver.(acceptsFramerate := true))
  {
  }

  /** What `capture_array` does if it is called. */
  datatype Grab = Grabbed(frame: Frame) | GrabbedNone | GrabRaised

  /** `cv2.cvtColor(frame, cv2.COLOR_RGB2BGR)`: the channel order flips. */
  function SwapChannels(frame: Frame): (r: Frame)
    ensures r.width == frame.width && r.height == frame.height && r.overlays == frame.overlays
    ensures frame.order == Rgb <==> r.order == Bgr
  {
    frame.(order := if frame.order == Rgb then Bgr else Rgb)
  }

  /** `PiCameraCapture.read`: `(False, None)` when closed (without capturing),
      when the capture raises or yields nothing; otherwise the frame converted
      to OpenCV's channel order. */
  function ReadPiCam(c: Capture, grab: Grab): (r: (bool, Option<Frame>))
    requires c.PiCam?
    ensures r.0 <==> c.isOpen && grab.Grabbed?
    ensures r.0 <==> r.1.Some?
    ensures r.0 ==> r.1.value == SwapChannels(grab.frame)
    ensures r.0 && grab.frame.order == Rgb ==> r.1.value.order == Bgr
  {
    if !c.isOpen then (false, None)
    else match grab
      case GrabRaised => (false, None)
      case GrabbedNone => (false, None)
      case Grabbed(frame) => (true, Some(SwapChannels(frame)))
  }

  /** A closed adapter never consults the camera: its read is the same whatever
      the camera would have produced. */
  lemma ClosedPiCamIgnoresCamera(c: Capture, g1: Grab, g2: Grab)
    requires c.PiCam? && !c.isOpen
    ensures ReadPiCam(c, g1) == ReadPiCam(c, g2) == (false, None)
  {
  }

  /** `PiCameraCapture.release`: stops the camera only when open (a failing
      stop is logged) and always leaves the adapter closed. The flag says
      whether `stop` was attempted. */
  function ReleasePiCam(c: Capture): (r: (Capture, bool))
    requires c.PiCam?
    ensures r.1 <==> c.isOpen
    ensures !r.0.IsOpened()
    ensures r.0.PiCam? && r.0.resolution == c.resolution && r.0.framerate == c.framerate
  {
    if c.isOpen then (c.(isOpen := false), true) else (c, false)
  }

  /** `release()` of either variant. */
  function Release(c: Capture): (r: (Capture, bool))
    ensures r.1 <==> c.IsOpened()
    ensures !r.0.IsOpened()
  {
    match c
    case OpenCv(_, _, _) => ReleaseOpenCv(c)
    case PiCam(_, _, _) => ReleasePiCam(c)
  }

  /** Releasing twice is releasing once: the second call touches nothing. */
  lemma ReleaseIdempotent(c: Capture)
    ensures var (once, _) := Release(c); Release(once) == (once, false)
  {
  }

  /** `create_capture`: the lower-cased driver name `picamera2` selects the
      Picamera2 adapter; every other name, known or not, the OpenCV one. The
      answers of the two drivers are parameters. */
  function CreateCapture(driver: string, source: Config.VideoSource, backend: Option<string>,
                         resolution: Config.Resolution, framerate: int,
                         deviceOpens: bool, pi: PiDriver): (r: Result<Capture>)
    ensures Lower(driver) == Config.PiCameraDriver ==> r == NewPiCamera(resolution, framerate, pi)
    ensures Lower(driver) != Config.PiCameraDriver ==>
      r.Ok? && r.value.OpenCv? && r.value.source == source && r.value.api == SelectApi(backend)
      && r.value.IsOpened() == deviceOpens
    ensures r.Ok? && r.value.PiCam? ==> r.value.resolution == resolution && r.value.framerate == framerate
  {
    if Lower(driver) == Config.PiCameraDriver then NewPiCamera(resolution, framerate, pi)
    else Ok(NewOpenCvCapture(source, backend, deviceOpens))
  }

  /** With a parsed driver setting, the Picamera2 adapter is used exactly when
      the setting reads `picamera2` in any case and spacing. */
  lemma ConfiguredDriver(value: Option<string>, source: Config.VideoSource, backend: Option<string>,
                         resolution: Config.Resolution, framerate: int, deviceOpens: bool, pi: PiDriver)
    ensures var r := CreateCapture(Config.ParseCameraDriver(value), source, backend, resolution, framerate, deviceOpens, pi);
      (r.Ok? && r.value.PiCam?) <==>
        value.Some? && Config.Normalised(value.value) == Config.PiCameraDriver && pi.installed && pi.configures && pi.starts
  {
    var driver := Config.ParseCameraDriver(value);
    Config.DriverNamesAreLower();
    if driver == Config.PiCameraDriver {
      assert Lower(driver) == Config.PiCameraDriver;
    } else {
      assert Lower(driver) == Config.OpenCvDriver;
    }
  }
}
