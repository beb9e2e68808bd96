# birdcctv core in Dafny

A model of the camera-to-stream pipeline of birdcctv, a Flask application that
reads a camera, runs a YOLO bird detector on each frame and serves the
annotated frames as an MJPEG stream together with a JSON summary of the latest
detections.

The model covers:

- **Configuration** (`config.dfy`): the environment-string parsers for the
  camera driver, video backend, video source, bird labels, frame width, model
  path, Picamera2 resolution and framerate, plus `labels_to_display`. Each
  parser is a total function from an optional string to a value, with the
  default the source falls back to.
- **Detector** (`detector.dfy`): the lower-cased allow-list, the width rule of
  `_prepare_frame`, and the filter and clamp loop of `detect`. The YOLO model
  is an oracle: `Inference` is its answer for the prepared frame.
- **Camera** (`camera.dfy`): `create_capture` dispatch, the OpenCV backend
  selection and its release guard, and the Picamera2 adapter's open flag,
  read and release. The Picamera2 driver and OpenCV's device are oracles.
- **Streamer** (`streaming.dfy`): the `VideoStreamer` read/recovery state
  machine, the `frames()` pull loop, the multipart framing of
  `mjpeg_stream()`, `detection_summary()` and `release()`.
  - `read()` is a pure function from a state and a `ReadEnv` to a `Step`. The
    environment holds everything the outside world answers during the call:
    the factory, the device reads, the detector model and the clock.
  - A `Step` holds the new state, the returned pair and the calls made, as a
    multiset of `Event`s.

Support modules hold the Python string semantics the parsers rely on:

- `text.dfy`: `strip`, `lower`, `title`, `split` and `join` on ASCII text.
- `numerals.dfy`: `int()` and `str()` on decimal text.
- `ordering.dfy`: code-point string order and `sorted(set(...))`.
- `gathering.dfy`: a loop that appends zero or more results per item, the
  shape of the filter loop of `detect`.
- `outcomes.dfy`: `Option` and `Result`.
- `images.dfy`: an abstract frame with its size, channel order and drawn
  overlays.

## Model

| member | source | states |
|---|---|---|
| Config.Normalised | birdcctv/config.py:15 | `value.strip().lower()` is lower case and trimmed, and is empty exactly when the value is blank |
| Config.ParseCameraDriver | birdcctv/config.py:12-18 | the driver is `opencv` or `picamera2`, and is `picamera2` exactly when the normalised value is `picamera2`; absent, empty and unknown values give `opencv` |
| Config.DriverNamesAreLower | birdcctv/config.py:16 | both driver names are already lower case, so lower-casing a parsed driver again keeps it |
| Config.ParseBackend | birdcctv/config.py:21-27 | the backend is `None`, `v4l2` or `gstreamer`; it is present exactly when the normalised value is one of the two names, and is then that normalised value |
| Config.ParseVideoSource | birdcctv/config.py:30-39 | an absent or blank value gives device 0; a stripped value that `int()` reads gives that device index; any other text gives the stripped text as a location |
| Config.VideoSourceOfIndex | birdcctv/config.py:36-37 | the decimal spelling of any integer parses back to that device index |
| Config.LowerKeepsTrimmed | birdcctv/config.py:45 | lower-casing keeps a stripped item stripped |
| Config.NormaliseLabels | birdcctv/config.py:45 | every label is non-empty, stripped and lower case, there are no more labels than items, and there are none exactly when every item is blank |
| Config.NormaliseGathers | birdcctv/config.py:45 | the comprehension appends, item by item, nothing for a blank item and the stripped, lower-cased item otherwise |
| Config.NormaliseOrigins | birdcctv/config.py:45 | the comprehension is an order-preserving selection: label k is `items[origin[k]].strip().lower()`, origins increase, and every non-blank item and no blank one is selected |
| Config.ParseLabels | birdcctv/config.py:42-46 | the result is never empty and every label is stripped and lower case; an absent or empty value, or one whose comma items are all blank, gives `["bird"]` |
| Config.ParseLabelsOrigins | birdcctv/config.py:42-46 | with some non-blank comma item, the labels are exactly the non-blank items, stripped and lower-cased, in the order written |
| Config.ParseLabelsExample | birdcctv/config.py:42-46 | `" Crow , ,bird"` gives `["crow", "bird"]` |
| Config.NormalLabelIsFixed | birdcctv/config.py:45 | a non-empty, stripped, lower-case label is its own normal form |
| Config.NormaliseNormalLabels | birdcctv/config.py:45 | normalisation leaves already normal labels unchanged |
| Config.ParseLabelsRoundTrip | birdcctv/config.py:42-46 | joining normal labels with commas and parsing the result gives back the same labels, in order |
| Config.ParseInt | birdcctv/config.py:58-64 | absent and blank values give `None`; any other value gives what `int()` gives, which is present exactly when the value, with the spaces `int()` skips cut from its ends, is an integer literal |
| Config.ParseIntOfString | birdcctv/config.py:58-64 | the decimal spelling of any integer parses back to that integer |
| Config.SeparatorBeforeInteger | birdcctv/config.py:30-101 | a leading information separator (0x1C) before `5` makes `_parse_int` give `None` and `_parse_positive_int` its default 30, while `_parse_video_source`, which strips first, gives device 5 |
| Config.ParseModelPath | birdcctv/config.py:67-75 | absent or blank gives `yolov8n.pt`; the result is `None` exactly for the five disabling words, in any case and with surrounding space; otherwise it is the stripped value |
| Config.Separate | birdcctv/config.py:81 | replacing the separators keeps the length |
| Config.ResolutionTokens | birdcctv/config.py:81-82 | the tokens of the lowered, separated value are non-empty and free of whitespace |
| Config.ParseResolution | birdcctv/config.py:78-92 | the result is the default or has two positive sides; a value whose separated words are exactly two positive integers `w` and `h`, in any spelling `int()` accepts, gives `(w, h)`; any other result is the default |
| Config.SeparateDigits | birdcctv/config.py:81 | with digits on both sides, each separator `x`, `X`, `*` and `,` becomes one space |
| Config.WordsOfTwo | birdcctv/config.py:82 | two space-free words joined by one space split back into those two words |
| Config.ResolutionRoundTrip | birdcctv/config.py:78-92 | `WxH`, `W*H` and `W,H` (and upper-case `X`) with positive sides parse to `(W, H)` whatever the default |
| Config.ParsePositiveInt | birdcctv/config.py:95-102 | a value `int()` reads as a positive `n` gives `n`; an absent, empty, non-integer or non-positive value gives the default; a positive default gives a positive result |
| Config.PositiveIntRoundTrip | birdcctv/config.py:95-102 | the decimal spelling of any positive integer parses back to it |
| Config.DisplayNames | birdcctv/config.py:139 | the title-cased labels, without repeats, in strictly increasing code-point order, and exactly the titles of the input labels |
| Config.DisplayIgnoresOrder | birdcctv/config.py:136-139 | the display string depends only on the set of labels, not on their order or repeats |
| Config.LabelsToDisplay | birdcctv/config.py:136-139 | the display string is empty exactly when every label is empty |
| Config.TitleExamples | birdcctv/config.py:139 | `title()` capitalises `bird` and `crow` and keeps the trailing space of `Bird ` |
| Config.BelowExamples | birdcctv/config.py:139 | `Bird` sorts before `Bird `, which sorts before `Crow` |
| Config.DisplayNamesExample | birdcctv/config.py:139 | `bird`, `Bird ` and `crow` give the three display names `Bird`, `Bird ` and `Crow` |
| Config.DisplayKeepsSpacedLabel | birdcctv/config.py:136-139 | `["bird", "Bird ", "crow"]` displays as `Bird, Bird , Crow`, because labels are not stripped |
| Text.TrimStart | birdcctv/config.py:15 | drops exactly the leading whitespace |
| Text.TrimEnd | birdcctv/config.py:15 | drops exactly the trailing whitespace |
| Text.TrimStartWhere | birdcctv/config.py:15 | drops exactly the leading characters of a given class, leaving a suffix that is empty or starts outside the class |
| Text.TrimEndWhere | birdcctv/config.py:15 | drops exactly the trailing characters of a given class, leaving a prefix that is empty or ends outside the class |
| Text.TrimStartPadded | birdcctv/config.py:15 | characters of the class in front of text that starts outside it are exactly what is dropped |
| Text.TrimEndPadded | birdcctv/config.py:15 | characters of the class after text that ends outside it are exactly what is dropped |
| Text.Strip | birdcctv/config.py:15 | the result is stripped, no longer than the input, and empty exactly for blank input |
| Text.Lower | birdcctv/config.py:15 | lower-cases each character and keeps the length |
| Text.Title | birdcctv/config.py:139 | title-casing keeps the length |
| Text.SplitWhere | birdcctv/config.py:45 | `split(sep)` gives at least one piece, and no piece contains a separator |
| Text.NonEmpty | birdcctv/config.py:82 | keeps only non-empty items, each taken from the input |
| Text.SplitWords | birdcctv/config.py:82 | the words of `split()` are non-empty and contain no whitespace |
| Text.SplitJoin | birdcctv/config.py:45 | splitting a join on the separator gives back the joined items |
| Text.Join | birdcctv/config.py:139 | joining no items gives the empty string, one item gives that item, and more items begin with the first item followed by the separator |
| Text.SplitWord | birdcctv/config.py:45 | a separator-free prefix becomes the first piece of a split |
| Text.StripIdempotent | birdcctv/config.py:15 | stripping twice is stripping once |
| Text.TrimmedIsFixed | birdcctv/config.py:45 | stripping stripped text changes nothing |
| Text.LowerIdempotent | birdcctv/config.py:15 | lower-casing twice is lower-casing once |
| Text.LowerOfLower | birdcctv/config.py:45 | lower-casing lower-case text changes nothing |
| Numerals.DigitChar | birdcctv/config.py:62 | the digit character of a value below ten reads back as that value |
| Numerals.NatToDigits | birdcctv/config.py:62 | the decimal spelling of a natural number is non-empty and all digits |
| Numerals.DigitsRoundTrip | birdcctv/config.py:62 | reading the decimal spelling of a natural number gives it back |
| Numerals.IntToString | birdcctv/detector.py:66 | `str(n)` is non-empty, has no whitespace, and starts with `-` exactly for negative numbers |
| Numerals.ParseIntLiteral | birdcctv/config.py:58-64 | a literal parses exactly when it is an optional sign followed by digits, and such a literal has no whitespace; its value is stated by `Numerals.ParseSpelled` and `Numerals.LiteralSpelling` |
| Numerals.ParseIntText | birdcctv/config.py:58-64 | `int(text)` succeeds exactly when the text, with space and tab to carriage return cut from its ends, is an optional sign followed by digits; its value is stated by `Numerals.ParseSpelledText` and `Numerals.ParseIntValue` |
| Numerals.IntStrip | birdcctv/config.py:58-64 | what `int()` reads is empty or starts and ends with a character other than space and tab to carriage return |
| Numerals.IntStripCuts | birdcctv/config.py:58-64 | what `int()` reads is a slice of the text, and only space and tab to carriage return are cut off before and after it |
| Numerals.ParseTrimmed | birdcctv/config.py:33-37 | on text `str.strip` has trimmed, `int()` reads the literal as it stands |
| Numerals.SeparatorIsNotIntSpace | birdcctv/config.py:58-64 | `int()` rejects `5` preceded by an information separator (0x1C), which `str.strip` removes |
| Numerals.ParseIntRoundTrip | birdcctv/config.py:58-64 | `int(str(n)) == n` for every integer the model's unbounded `int` holds (Python's 4300-digit conversion limit is not modelled) |
| Numerals.ParseDigits | birdcctv/config.py:86-87 | a string of decimal digits parses to its value |
| Numerals.CanonicalDigits | birdcctv/config.py:58-64 | a digit string without leading zeros is the decimal spelling of its own value |
| Numerals.ZerosValue | birdcctv/config.py:58-64 | leading zeros do not change the value of a digit string |
| Numerals.SplitZeros | birdcctv/config.py:58-64 | every digit string is a run of zeros followed by the decimal spelling of its value |
| Numerals.ParseSpelled | birdcctv/config.py:58-64 | no sign, `+` or `-`, then any number of zeros, then the digits of `n` read as `n`, or `-n` after `-` (`+007` is 7, `-0` is 0) |
| Numerals.SignedLiteral | birdcctv/config.py:58-64 | a sign in front of a digit string gives the string's value under that sign |
| Numerals.LiteralSpelling | birdcctv/config.py:58-64 | every integer literal has that shape, and parses to the value its sign and digits give |
| Numerals.ParseSpelledText | birdcctv/config.py:58-64 | such a spelling with spaces, tabs or line breaks around it gives the same value |
| Numerals.ParseIntValue | birdcctv/config.py:58-64 | whatever `int()` accepts is such a spelling once its surrounding spaces are cut, and the result is the value of that spelling |
| Numerals.PaddedLiteralExample | birdcctv/config.py:58-64 | `int(" -007\n")` is -7 |
| Ordering.BelowIrreflexive | birdcctv/config.py:139 | no string sorts before itself |
| Ordering.BelowTransitive | birdcctv/config.py:139 | string order is transitive |
| Ordering.BelowTotal | birdcctv/config.py:139 | of two different strings one sorts before the other |
| Ordering.BelowAsymmetric | birdcctv/config.py:139 | two strings never sort before each other |
| Ordering.ConsSorted | birdcctv/config.py:139 | an element below all of a strictly sorted list can go in front of it |
| Ordering.Insert | birdcctv/config.py:139 | inserting into a strictly sorted list keeps it strictly sorted and adds exactly the new element |
| Ordering.SortedUnique | birdcctv/config.py:139 | `sorted(set(xs))` is strictly sorted and has exactly the elements of `xs` |
| Ordering.SortedListingUnique | birdcctv/config.py:139 | two strictly sorted lists with the same elements are equal |
| Ordering.OnlyEmptyHasNoElems | birdcctv/config.py:139 | a list has no elements exactly when it is empty |
| Ordering.SortedUniqueDependsOnSetOnly | birdcctv/config.py:139 | `sorted(set(xs))` depends only on the set of elements |
| Gathering.GatherAppend | birdcctv/detector.py:64-76 | a loop over two batches of items gives the concatenation of their outputs |
| Gathering.GatherPicks | birdcctv/detector.py:64-76 | when each item gives at most one result, the output is an order-preserving selection: result k comes from item `origin[k]`, origins increase, and every item with a result is selected |
| Gathering.PicksDrop | birdcctv/detector.py:68-71 | an item without a result leaves the selection as it was |
| Gathering.PicksKeep | birdcctv/detector.py:76 | an item with a result extends the selection by that result |
| Detector.NewDetector | birdcctv/detector.py:32-43 | the allow-list is exactly the lower-cased configured labels; confidence threshold and width are kept |
| Detector.AllowListIgnoresCase | birdcctv/detector.py:40 | configuring lower-cased labels gives the same allow-list as the original labels |
| Detector.Trunc | birdcctv/detector.py:48 | `int(x)` on a float truncates toward zero |
| Detector.ScaledHeightPositive | birdcctv/detector.py:47-48 | when height times target width is at least the width, the scaled height is at least 1 |
| Detector.PrepareFrame | birdcctv/detector.py:45-50 | a frame with no width configured, or already at that width, passes unchanged; otherwise a result has the configured width and a positive height with nothing else changed, and there is one whenever the width is positive and the scaled height reaches 1 |
| Detector.LabelOf | birdcctv/detector.py:66 | a class id with a name in `results.names` gets that name |
| Detector.ClassId | birdcctv/detector.py:65 | a missing class reads as `-1`; otherwise the class id is the class truncated toward zero |
| Detector.ConfidenceOf | birdcctv/detector.py:67 | a missing confidence reads as 0.0; otherwise it is the box confidence |
| Detector.Accepts | birdcctv/detector.py:68-71 | a box passes when its label, lower-cased, is in the allow-list and its confidence is at least the threshold; its contract is stated by `Detector.AcceptsConfiguredLabel` and `Detector.Emit` |
| Detector.AcceptsConfiguredLabel | birdcctv/detector.py:68-71 | for a detector built from labels, a box is accepted exactly when some configured label equals its label up to case and its confidence reaches the threshold |
| Detector.UnnamedClassLabel | birdcctv/detector.py:65-66 | a class without a name is labelled with its decimal spelling, which parses back to the id; a box without a class is labelled `-1` |
| Detector.Clamp | birdcctv/detector.py:73-75 | the clamped box is inside the frame; each truncated corner inside its bound is kept, a negative left or top becomes 0, and a right or bottom past the frame becomes the width or height |
| Detector.Emit | birdcctv/detector.py:64-76 | one box yields one detection exactly when its lower-cased label is allowed and its confidence reaches the threshold, and that detection is admissible |
| Detector.Collect | birdcctv/detector.py:62-88 | no more detections than boxes, each admissible: allowed label, enough confidence, box inside the frame |
| Detector.CollectGathers | birdcctv/detector.py:62-76 | the loop appends, box by box, what one box yields |
| Detector.CollectAppend | birdcctv/detector.py:64-76 | the loop's output over two batches of boxes is the concatenation of their outputs |
| Detector.RejectedBoxLeavesNoTrace | birdcctv/detector.py:68-71 | removing a rejected box changes nothing in the output |
| Detector.CollectOrigins | birdcctv/detector.py:64-76 | the output is an order-preserving selection: detection k comes from box `origin[k]`, origins increase, and every accepted box has a detection |
| Detector.Marks | birdcctv/detector.py:77-86 | one overlay per detection, with its box and label, in order |
| Detector.Detect | birdcctv/detector.py:52-88 | `detect` raises exactly when preparing the frame fails or the model raises; otherwise the annotated frame is the prepared frame plus one overlay per detection, and the detections are what the loop collects from the model's boxes against the prepared frame's size |
| Detector.MarksAllowed | birdcctv/detector.py:77-86 | the overlays drawn for admissible detections carry allowed captions |
| Detector.DrawnLabelsAllowed | birdcctv/detector.py:68-86 | every caption drawn on the annotated frame is an allowed label |
| Camera.SelectApi | birdcctv/camera.py:39-45 | `CAP_V4L2` exactly for `v4l2`, `CAP_GSTREAMER` exactly for `gstreamer`, the default API otherwise |
| Camera.ConfiguredApi | birdcctv/camera.py:39-45 | through the configuration parser, any case of `v4l2` or `gstreamer` reaches its API |
| Camera.NewOpenCvCapture | birdcctv/camera.py:33-45 | the adapter keeps the source, uses the selected API, and reports open exactly when the device opened |
| Camera.ReleaseOpenCv | birdcctv/camera.py:50-52 | the device is released exactly when it is open, and afterwards the adapter reports closed |
| Camera.NewPiCamera | birdcctv/camera.py:61-84 | construction succeeds exactly when the library is installed, configuration succeeds and the camera starts; the adapter is then open with the requested resolution and framerate |
| Camera.FramerateIsBestEffort | birdcctv/camera.py:79-82 | whether the driver accepts the framerate makes no difference to construction |
| Camera.SwapChannels | birdcctv/camera.py:96-97 | the RGB-to-BGR conversion flips the channel order and keeps the size |
| Camera.ReadPiCam | birdcctv/camera.py:86-98 | a frame is returned exactly when the adapter is open and the capture gives one, and it is that frame converted to BGR |
| Camera.ClosedPiCamIgnoresCamera | birdcctv/camera.py:87-88 | a closed adapter returns `(False, None)` without consulting the camera |
| Camera.ReleasePiCam | birdcctv/camera.py:100-106 | the camera is stopped exactly when the adapter is open, and afterwards it reports closed |
| Camera.Release | birdcctv/camera.py:50-52 | either adapter releases its device exactly when open, and reports closed afterwards |
| Camera.ReleaseIdempotent | birdcctv/camera.py:100-106 | a second release touches nothing |
| Camera.CreateCapture | birdcctv/camera.py:112-132 | the lower-cased driver `picamera2` builds the Picamera2 adapter with the given resolution and framerate; any other driver builds the OpenCV adapter with the source and backend |
| Camera.ConfiguredDriver | birdcctv/camera.py:121-132 | with a parsed driver setting, the Picamera2 adapter is built exactly when the setting normalises to `picamera2` |
| Streaming.IsOpen | birdcctv/streaming.py:46-52 | a capture without `isOpened` counts as open; otherwise its answer decides |
| Streaming.HandleOf | birdcctv/streaming.py:46-52 | the streamer sees an adapter as open exactly when the adapter reports open |
| Streaming.OpeningOf | birdcctv/streaming.py:38-44 | the factory raises exactly when the adapter's construction raises |
| Streaming.OpenCapture | birdcctv/streaming.py:38-44 | `_open_capture` gives `None` exactly when the factory raised, and otherwise the capture it returned |
| Streaming.New | birdcctv/streaming.py:23-36 | construction succeeds exactly when the factory returns a capture that reports open, and then starts with that capture, no failures, no detections and no timestamp |
| Streaming.Release | birdcctv/streaming.py:136-147 | the capture is forgotten, and `release()` is called on it exactly when it reports open |
| Streaming.ReleaseIdempotent | birdcctv/streaming.py:136-147 | a second `release()` changes nothing and calls nothing |
| Streaming.Publish | birdcctv/streaming.py:88-98 | the frame is returned annotated, or raw when there is no detector or detection raises, and the snapshot and timestamp are replaced |
| Streaming.Recover | birdcctv/streaming.py:77-98 | the capture becomes what the factory returned and the counter is kept; a frame comes back exactly when the returned capture reports open and the retry succeeds; without one the snapshot is untouched, with one it holds the delivered detections stamped `now` |
| Streaming.RecoverCalls | birdcctv/streaming.py:78-87 | recovery releases the capture once if it reported open, pauses once, calls the factory once, and reads again exactly when the returned capture reports open |
| Streaming.ReadOpen | birdcctv/streaming.py:72-98 | a first success resets the counter and returns the frame on the same capture; a failure increments it; past 5 it returns nothing after one read call on the same capture; otherwise it recovers |
| Streaming.ReadOpenCalls | birdcctv/streaming.py:72-87 | a first success makes one read and no factory call or pause; a recovery makes one pause, one factory call, one release if the capture reported open, and one or two reads |
| Streaming.Read | birdcctv/streaming.py:65-98 | the snapshot changes exactly when a frame is returned; a failed reopen without a capture ends the call after one factory call, counter untouched; a first success resets the counter; a failure increments it; past 5 there is no frame and the capture is kept; at or below 5 the capture is the reopened one and a frame comes back exactly when the retry succeeds |
| Streaming.ReadCalls | birdcctv/streaming.py:65-87 | past 5 one read and no release or pause; at or below 5 one pause, one release if the capture reported open, and one or two reads; never more than two reads, two factory calls or one pause |
| Streaming.Run | birdcctv/streaming.py:65-98 | each call of a run starts from the state the previous call left |
| Streaming.RunTail | birdcctv/streaming.py:65-98 | the rest of a run is the run from the first call's state |
| Streaming.HopelessRead | birdcctv/streaming.py:72-85 | a call that cannot recover counts a failure, returns nothing, keeps a capture and the snapshot, and pauses exactly when the new count is at most 5 |
| Streaming.ConsecutiveFailures | birdcctv/streaming.py:73-85 | under failures that cannot recover, call i of a run has counter `f + i + 1`, returns nothing, keeps the snapshot, and pauses exactly when that counter is at most 5 |
| Streaming.ReadStamps | birdcctv/streaming.py:54-98 | a call stamps `now` exactly when it returns a frame and otherwise keeps the old timestamp |
| Streaming.RunStamps | birdcctv/streaming.py:54-98 | every call of a run stamps its result as a single call does |
| Streaming.UnstampedUntilFrame | birdcctv/streaming.py:54-57 | from no timestamp, a call leaves none exactly when no call up to it returned a frame |
| Streaming.StampedForever | birdcctv/streaming.py:54-57 | from a timestamp, every call leaves one |
| Streaming.NoTimestampUntilFrame | birdcctv/streaming.py:35-57 | `last_updated` stays unset until the first call that returns a frame, and is set from then on |
| Streaming.TimestampStaysSet | birdcctv/streaming.py:54-57 | once set, `last_updated` is never cleared |
| Streaming.Encoded | birdcctv/streaming.py:107-110 | frames the encoder rejects are skipped, and every payload comes from some frame |
| Streaming.EncodedGathers | birdcctv/streaming.py:103-110 | the loop concatenates, frame by frame, the JPEG of each accepted frame |
| Streaming.EncodedOrigins | birdcctv/streaming.py:103-110 | the payloads are an order-preserving selection: one JPEG per accepted frame, in frame order, and none for a rejected frame |
| Streaming.Pull | birdcctv/streaming.py:100-110 | no more calls than given, no more payloads than calls, and the loop ends only on a call |
| Streaming.Frames | birdcctv/streaming.py:100-110 | `frames()` makes at most the given number of calls, and uses them all unless it ended |
| Streaming.PullStops | birdcctv/streaming.py:103-106 | every call before the last one consumed returned a frame; the generator ended exactly on a call without one; its state is that call's |
| Streaming.PullYields | birdcctv/streaming.py:103-110 | the payloads are the encodings of the returned frames, in order, with rejected encodings skipped |
| Streaming.FramesStopAtFirstGap | birdcctv/streaming.py:104-106 | a first call without a frame ends `frames()` with nothing yielded, whatever follows |
| Streaming.Ascii | birdcctv/streaming.py:115-117 | one byte per character |
| Streaming.Part | birdcctv/streaming.py:115-117 | a part is header, payload and trailer, and starts with the `--frame` boundary |
| Streaming.Unframe | birdcctv/streaming.py:115-117 | a recovered payload is as long as the part without header and trailer |
| Streaming.UnframePart | birdcctv/streaming.py:115-117 | every part gives back its payload |
| Streaming.PartUnframe | birdcctv/streaming.py:115-117 | bytes that unframe are exactly the part of their payload |
| Streaming.MjpegStream | birdcctv/streaming.py:112-117 | one part per payload of `frames()`, in order, each carrying that payload |
| Streaming.Keys | birdcctv/streaming.py:121-123 | the labels of a count table, in order |
| Streaming.Bump | birdcctv/streaming.py:121 | a count table grows by at most one entry |
| Streaming.BumpCounts | birdcctv/streaming.py:121 | counting a label adds one to that label and to the total, and to nothing else |
| Streaming.BumpKeys | birdcctv/streaming.py:121-123 | labels stay distinct and in order, and a new label goes at the end |
| Streaming.BumpDistinct | birdcctv/streaming.py:121-123 | counting a label keeps the labels distinct |
| Streaming.FirstOccurrences | birdcctv/streaming.py:121-123 | each element once, with the same elements as the input |
| Streaming.Tally | birdcctv/streaming.py:121-123 | `dict(Counter(names))` has distinct keys in first-occurrence order, and each count is the number of occurrences |
| Streaming.TallyTotal | birdcctv/streaming.py:121-123 | the counts add up to the number of labels |
| Streaming.DetectionSummary | birdcctv/streaming.py:119-134 | the count is the snapshot's size and the sum of the label counts; each label is counted as often as it occurs; the listed labels are exactly those in the snapshot; detections and timestamp are the snapshot's |

## Left out

- I/O and foreign code are oracles, not models. OpenCV (`VideoCapture`, `read`, `isOpened`, `resize`, `cvtColor`, `imencode`, drawing), Picamera2, the YOLO model and `time.time()` appear only as the answers they give: fields of `ReadEnv`, `PiDriver`, `Grab` and `Inference`, and the `encode` function.
- `time.sleep(1)` appears only as a `Sleep` event. Logging appears nowhere.
- The order of the calls within one `read()` is not modelled. A `Step` records how many calls of each kind it made, as a multiset.
- The thread locks (`_lock`, `_predict_lock`) are not modelled: every operation is one atomic function.
- `__del__` is not modelled. It calls the modelled `release()`.
- `warmup` is not modelled. It only calls `detect`.
- `AppConfig.from_env` and `os.getenv` are not modelled. The parsers take the optional string directly.
- The Flask application (`app.py`) and its HTTP routes are not part of this model.
- `_parse_float` is not modelled, because the model has no floating-point text parser. The confidence threshold is a `real`.
- Floating-point arithmetic is exact here: the `real` values of confidences, box corners and the resize ratio are not rounded.
- Non-finite floats are not modelled: a `real` is always finite. In the source, `MIN_CONFIDENCE=nan` gives a NaN threshold, so `confidence < self.min_confidence` is never true and every allowed box passes; the model's `>=` on `real` has no such value. Likewise `int(v)` raises on a NaN or infinite box corner, which `Detector.Trunc` never does.
- Python's limit on conversions between `int` and decimal text (4300 digits by default, enforced by `int()` and `str()` since Python 3.10.7) is not modelled. `Numerals.ParseIntRoundTrip` and the other numeral lemmas hold for integers of any length.
- Python's `str` methods are modelled on ASCII. Non-ASCII whitespace, case mappings and digits, and underscores in `int()` literals, are not covered.
- A capture's answer to `isOpened()` is fixed when the capture is created (`Handle.reportsOpen`). The source asks again in `release()`, including the release inside `read()`'s recovery. A capture that closes itself after a failed read, or a driver whose answer changes, is not modelled, so the release counts stated by `Streaming.RecoverCalls` and `Streaming.ReadCalls` hold for captures whose answer does not change.
- Exceptions raised by `isOpened()` and by `capture.read()` are not modelled. Neither are the `release()` exceptions `VideoStreamer.release` swallows. `_is_open` catches only a missing `isOpened`, which `Handle.reportsOpen == None` stands for.
- Opening the YOLO model can fail in `BirdDetector.__init__`. That failure is not modelled.
- The caption drawn by `detect` has the confidence appended with two decimals. The model's caption is the label alone.
- Colours, thickness and text placement of the drawing are not modelled.
- `frames()` is an infinite generator. `Frames` drives it for a given finite number of `read()` calls.
- Detector.LabelOf: its contract covers only named classes. The decimal spelling used for unnamed classes is stated by `Detector.UnnamedClassLabel`.
- Behaviour of the code that the model keeps as written:
  - `labels_to_display(["bird", "Bird ", "crow"])` is `Bird, Bird , Crow`, not `Bird, Crow`, because labels are title-cased but not stripped.
  - The failure counter past the threshold is not terminal. The next successful first read resets it to 0.
  - A capture the factory returns that does not report open is still kept in `self.capture`. The next `read()` reads from it without reopening.
