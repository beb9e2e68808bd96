/** The configuration parsers of `birdcctv/config.py`: total functions from an
    optional environment string to a value, each with its default. */
module Config {
  import opened Outcomes
  import opened Text
  import opened Numerals
  import opened Ordering
  import opened Gathering

  /** Python's `not value` for `str | None`: absent or empty. */
  predicate Falsy(value: Option<string>) {
    value.None? || value.value == []
  }

  const OpenCvDriver: string := "opencv"
  const PiCameraDriver: string := "picamera2"
  const V4l2Backend: string := "v4l2"
  const GStreamerBackend: string := "gstreamer"
  const DefaultModelPath: string := "yolov8n.pt"
  const DefaultLabels: seq<string> := ["bird"]
  /** The spellings of `MODEL_PATH` that switch detection off, in lower case. */
  predicate IsDisablingWord(w: string) {
    w == "none" || w == "no" || w == "off" || w == "disable" || w == "disabled"
  }

  /** `value.strip().lower()`, the normal form the driver and backend parsers
      compare against. */
  function Normalised(s: string): (r: string)
    ensures IsLower(r) && IsTrimmed(r)
    ensures r == [] <==> IsBlank(s)
  {
    LowerKeepsTrimmed(Strip(s));
    Lower(Strip(s))
  }

  /** `_parse_camera_driver`: one of the two known drivers, OpenCV by default. */
  function ParseCameraDriver(value: Option<string>): (r: string)
    ensures r == OpenCvDriver || r == PiCameraDriver
    ensures r == PiCameraDriver <==> value.Some? && Normalised(value.value) == PiCameraDriver
  {
    if Falsy(value) then OpenCvDriver
    else
      var driver := Normalised(value.value);
      if driver == OpenCvDriver || driver == PiCameraDriver then driver else OpenCvDriver
  }

  lemma DriverNamesAreLower()
    ensures Lower(OpenCvDriver) == OpenCvDriver && Lower(PiCameraDriver) == PiCameraDriver
  {
  }

  /** `_parse_backend`: an OpenCV backend hint, or none. */
  function ParseBackend(value: Option<string>): (r: Option<string>)
    ensures r == None || r == Some(V4l2Backend) || r == Some(GStreamerBackend)
    ensures r.Some? <==> value.Some? && (Normalised(value.value) == V4l2Backend || Normalised(value.value) == GStreamerBackend)
    ensures r.Some? ==> r.value == Normalised(value.value)
  {
    if Falsy(value) then None
    else
      var backend := Normalised(value.value);
      if backend == V4l2Backend || backend == GStreamerBackend then Some(backend) else None
  }

  /** `VideoSource = Union[int, str]`: a device index or a path/URL. */
  datatype VideoSource = DeviceIndex(index: int) | Location(path: string)

  /** `_parse_video_source`: blank means device 0, integer text a device index,
      anything else the trimmed text as a location. */
  function ParseVideoSource(value: Option<string>): (r: VideoSource)
    ensures value.None? || IsBlank(value.value) ==> r == DeviceIndex(0)
    ensures r.Location? ==>
      value.Some? && r.path == Strip(value.value) && r.path != [] && ParseIntText(r.path).None?
    ensures value.Some? && !IsBlank(value.value) && r.DeviceIndex? ==>
      ParseIntText(Strip(value.value)) == Some(r.index)
  {
    if value.None? then DeviceIndex(0)
    else
      var trimmed := Strip(value.value);
      if trimmed == [] then DeviceIndex(0)
      else match ParseIntText(trimmed)
        case Some(n) => DeviceIndex(n)
        case None => Location(trimmed)
  }

  lemma VideoSourceOfIndex(n: int)
    ensures ParseVideoSource(Some(IntToString(n))) == DeviceIndex(n)
  {
    var s := IntToString(n);
    ParseIntRoundTrip(n);
    assert IsTrimmed(s) && s != [];
    VideoSourceOfTrimmed(s, n);
  }

  /** Trimmed integer text is read as that device index. */
  lemma VideoSourceOfTrimmed(t: string, n: int)
    requires IsTrimmed(t) && t != [] && ParseIntText(t) == Some(n)
    ensures ParseVideoSource(Some(t)) == DeviceIndex(n)
  {
    TrimmedIsFixed(t);
  }

  predicate IsComma(c: char) { c == ',' }

  /** A configured label as the parser leaves it: non-empty, trimmed, lower case. */
  predicate IsNormalLabel(l: string) {
    l != [] && IsTrimmed(l) && IsLower(l)
  }

  lemma LowerKeepsTrimmed(s: string)
    requires IsTrimmed(s)
    ensures IsTrimmed(Lower(s))
  {
  }

  /** True when every comma item is blank, so that no label is configured. */
  predicate AllBlank(items: seq<string>) {
    forall k :: 0 <= k < |items| ==> IsBlank(items[k])
  }

  /** The list comprehension of `_parse_labels`: blank items dropped, the rest
      stripped and lowered, order kept. */
  function NormaliseLabels(items: seq<string>): (r: seq<string>)
    ensures |r| <= |items|
    ensures forall k :: 0 <= k < |r| ==> IsNormalLabel(r[k])
    ensures r == [] <==> AllBlank(items)
    decreases |items|
  {
    if items == [] then []
    else
      var t := Normalised(items[0]);
      var rest := NormaliseLabels(items[1..]);
      assert AllBlank(items) <==> IsBlank(items[0]) && AllBlank(items[1..]) by {
        assert forall k :: 0 < k < |items| ==> items[k] == items[1..][k - 1];
      }
      if t == [] then rest
      else
        assert forall k :: 0 < k <= |rest| ==> ([t] + rest)[k] == rest[k - 1];
        [t] + rest
  }

  /** What the comprehension makes of one comma item: nothing for a blank
      item, its normal form otherwise. */
  function LabelOfItem(item: string): (r: seq<string>)
    ensures |r| <= 1 && (r == [] <==> IsBlank(item))
  {
    var t := Normalised(item);
    if t == [] then [] else [t]
  }

  /** The comprehension gathers what `LabelOfItem` gives for each item. */
  lemma {:induction false} NormaliseGathers(items: seq<string>)
    ensures NormaliseLabels(items) == Gather(LabelOfItem, items)
    decreases |items|
  {
    if items != [] {
      var x, rest := items[0], items[1..];
      NormaliseGathers(rest);
      NormaliseCons(items);
      assert items == [x] + rest;
      GatherCons(LabelOfItem, x, rest);
    }
  }

  /** The comprehension works item by item from the front. */
  lemma NormaliseCons(items: seq<string>)
    requires items != []
    ensures NormaliseLabels(items) == LabelOfItem(items[0]) + NormaliseLabels(items[1..])
  {
    if Normalised(items[0]) == [] {
      assert LabelOfItem(items[0]) + NormaliseLabels(items[1..]) == NormaliseLabels(items[1..]);
    }
  }

  /** `origin` lists, in increasing order, the positions of exactly the
      non-blank items, and label `k` is the normal form of item `origin[k]`. */
  predicate LabelsFrom(items: seq<string>, labels: seq<string>, origin: seq<nat>) {
    && |origin| == |labels|
    && (forall k :: 0 <= k < |origin| ==> origin[k] < |items| && !IsBlank(items[origin[k]]))
    && (forall k :: 0 <= k < |origin| ==> labels[k] == Normalised(items[origin[k]]))
    && (forall j, k :: 0 <= j < k < |origin| ==> origin[j] < origin[k])
    && (forall i :: 0 <= i < |items| && !IsBlank(items[i]) ==> i in origin)
  }

  /** The comprehension is an order-preserving selection: one label per
      non-blank item, in item order, that item stripped and lowered. */
  lemma NormaliseOrigins(items: seq<string>) returns (origin: seq<nat>)
    ensures LabelsFrom(items, NormaliseLabels(items), origin)
  {
    var labels := NormaliseLabels(items);
    NormaliseGathers(items);
    origin := GatherPicks(LabelOfItem, items);
    forall k | 0 <= k < |origin|
      ensures !IsBlank(items[origin[k]]) && labels[k] == Normalised(items[origin[k]])
    {
      assert LabelOfItem(items[origin[k]]) == [labels[k]];
    }
    forall i | 0 <= i < |items| && !IsBlank(items[i]) ensures i in origin {
      assert LabelOfItem(items[i]) != [];
    }
  }

  /** `_parse_labels`: the comma-separated labels, never an empty list. */
  function ParseLabels(value: Option<string>): (r: seq<string>)
    ensures |r| >= 1
    ensures forall k :: 0 <= k < |r| ==> IsNormalLabel(r[k])
    ensures Falsy(value) ==> r == DefaultLabels
    ensures value.Some? && AllBlank(SplitWhere(value.value, IsComma)) ==> r == DefaultLabels
  {
    if Falsy(value) then DefaultLabels
    else
      var labels := NormaliseLabels(SplitWhere(value.value, IsComma));
      if labels == [] then DefaultLabels else labels
  }

  /** A value with some non-blank comma item yields the stripped, lowered
      non-blank items, in the order they were written. */
  lemma ParseLabelsOrigins(value: string) returns (origin: seq<nat>)
    requires !AllBlank(SplitWhere(value, IsComma))
    ensures LabelsFrom(SplitWhere(value, IsComma), ParseLabels(Some(value)), origin)
  {
    var items := SplitWhere(value, IsComma);
    ParseLabelsOfItems(value, items);
    origin := NormaliseOrigins(items);
  }

  /** `" Crow , ,bird"` configures `crow` and `bird`, in that order. */
  lemma ParseLabelsExample()
    ensures ParseLabels(Some(" Crow , ,bird")) == ["crow", "bird"]
  {
    ExampleItems();
    ExampleNormalForms();
    NormaliseSkipsMiddle(" Crow ", " ", "bird");
    ParseLabelsOfItems(" Crow , ,bird", [" Crow ", " ", "bird"]);
  }

  lemma ParseLabelsOfItems(value: string, items: seq<string>)
    requires SplitWhere(value, IsComma) == items && !AllBlank(items)
    ensures ParseLabels(Some(value)) == NormaliseLabels(items)
  {
    assert SplitWhere("", IsComma) == [""];
    assert AllBlank([""]);
  }

  lemma NormaliseSkipsMiddle(a: string, b: string, c: string)
    requires !IsBlank(a) && IsBlank(b) && !IsBlank(c)
    ensures NormaliseLabels([a, b, c]) == [Normalised(a), Normalised(c)]
  {
    var items := [a, b, c];
    NormaliseCons(items);
    NormaliseCons(items[1..]);
    NormaliseCons(items[2..]);
    assert items[1..][1..] == items[2..] && items[2..][1..] == [];
  }

  lemma ExampleItems()
    ensures SplitWhere(" Crow , ,bird", IsComma) == [" Crow ", " ", "bird"]
  {
    var items := [" Crow ", " ", "bird"];
    assert Join(items, ",") == " Crow , ,bird" by {
      assert items[1..] == [" ", "bird"] && items[1..][1..] == ["bird"];
    }
    SplitJoin(items, ',', IsComma);
  }

  lemma ExampleNormalForms()
    ensures Normalised(" Crow ") == "crow" && IsBlank(" ") && Normalised("bird") == "bird"
  {
    ExampleStrip();
    NormalisedOfStripped(" Crow ", "Crow");
    ExampleLower();
    ExampleNormalLabel();
    ExampleBlank();
  }

  lemma ExampleBlank()
    ensures IsBlank(" ")
  {
  }

  lemma ExampleLower()
    ensures Lower("Crow") == "crow"
  {
  }

  lemma ExampleNormalLabel()
    ensures Normalised("bird") == "bird"
  {
    assert IsNormalLabel("bird");
    NormalLabelIsFixed("bird");
  }

  lemma NormalisedOfStripped(s: string, t: string)
    requires Strip(s) == t
    ensures Normalised(s) == Lower(t)
  {
  }

  lemma ExampleStrip()
    ensures Strip(" Crow ") == "Crow"
  {
    ExampleTrimStart();
    ExampleTrimEnd();
  }

  lemma ExampleTrimStart()
    ensures TrimStart(" Crow ") == "Crow "
  {
    assert " Crow "[1..] == "Crow ";
    TrimStartSpace(" Crow ");
    TrimStartStops("Crow ");
  }

  lemma ExampleTrimEnd()
    ensures TrimEnd("Crow ") == "Crow"
  {
    assert "Crow "[..4] == "Crow";
    TrimEndSpace("Crow ");
    TrimEndStops("Crow");
  }

  /** A normal label is its own normal form. */
  lemma NormalLabelIsFixed(l: string)
    requires IsNormalLabel(l)
    ensures Normalised(l) == l
  {
    TrimmedIsFixed(l);
    LowerOfLower(l);
  }

  lemma {:induction false} NormaliseNormalLabels(labels: seq<string>)
    requires forall k :: 0 <= k < |labels| ==> IsNormalLabel(labels[k])
    ensures NormaliseLabels(labels) == labels
    decreases |labels|
  {
    if labels != [] {
      var rest := labels[1..];
      assert labels == [labels[0]] + rest;
      NormaliseNormalLabels(rest);
      NormalLabelIsFixed(labels[0]);
      NormaliseCons(labels);
      assert LabelOfItem(labels[0]) == [labels[0]];
    }
  }

  /** Writing normalised labels comma-separated and parsing them back gives the
      same labels in the same order. */
  lemma ParseLabelsRoundTrip(labels: seq<string>)
    requires |labels| >= 1
    requires forall k :: 0 <= k < |labels| ==> IsNormalLabel(labels[k]) && ',' !in labels[k]
    ensures ParseLabels(Some(Join(labels, ","))) == labels
  {
    var value := Join(labels, ",");
    SplitJoin(labels, ',', IsComma);
    assert !IsBlank(labels[0]) by {
      assert !IsSpace(labels[0][0]);
    }
    ParseLabelsOfItems(value, labels);
    NormaliseNormalLabels(labels);
  }

  /** `_parse_int`: `None` for an absent, empty or non-integer value. */
  function ParseInt(value: Option<string>): (r: Option<int>)
    ensures value.None? || IsBlank(value.value) ==> r.None?
    ensures r.Some? <==> value.Some? && IsIntLiteral(IntStrip(value.value))
    ensures !Falsy(value) ==> r == ParseIntText(value.value)
  {
    if Falsy(value) then None else ParseIntText(value.value)
  }

  lemma ParseIntOfString(n: int)
    ensures ParseInt(Some(IntToString(n))) == Some(n)
  {
    ParseIntRoundTrip(n);
  }

  /** `int` is called on the raw value by `_parse_int` and
      `_parse_positive_int` but on the stripped value by `_parse_video_source`,
      so a leading information separator is rejected by the first two and
      accepted by the third. */
  lemma SeparatorBeforeInteger()
    ensures ParseInt(Some("\U{1c}5")) == None
    ensures ParsePositiveInt(Some("\U{1c}5"), 30) == 30
    ensures ParseVideoSource(Some("\U{1c}5")) == DeviceIndex(5)
  {
    var s := "\U{1c}5";
    SeparatorIsNotIntSpace();
    assert !Falsy(Some(s));
    assert ParseInt(Some(s)) == None;
    assert ParsePositiveInt(Some(s), 30) == 30;
    assert ParseVideoSource(Some(s)) == DeviceIndex(5) by {
      assert Strip(s) != [];
    }
  }

  /** `_parse_model_path`: the default model for a blank value, `None` for a
      disabling word in any case, otherwise the trimmed path. */
  function ParseModelPath(value: Option<string>): (r: Option<string>)
    ensures value.None? || IsBlank(value.value) ==> r == Some(DefaultModelPath)
    ensures r.None? <==> value.Some? && IsDisablingWord(Normalised(value.value))
    ensures r.Some? && value.Some? && !IsBlank(value.value) ==>
      r.value == Strip(value.value) && r.value != []
  {
    if value.None? then Some(DefaultModelPath)
    else
      var trimmed := Strip(value.value);
      if trimmed == [] then
        assert Normalised(value.value) == [];
        Some(DefaultModelPath)
      else if IsDisablingWord(Normalised(value.value)) then None
      else Some(trimmed)
  }

  datatype Resolution = Resolution(width: int, height: int)

  predicate Positive(r: Resolution) {
    r.width > 0 && r.height > 0
  }

  /** `x`, `*` and `,` separate the two numbers of a resolution. */
  function Separate(s: string): (r: string)
    ensures |r| == |s|
  {
    seq(|s|, i requires 0 <= i < |s| => if s[i] in "x*," then ' ' else s[i])
  }

  /** The whitespace-separated tokens `_parse_resolution` looks at. */
  function ResolutionTokens(value: string): (r: seq<string>)
    ensures forall k :: 0 <= k < |r| ==> r[k] != [] && NoSpace(r[k])
  {
    SplitWords(Separate(Lower(value)))
  }

  /** `_parse_resolution`: exactly two positive integers, or the default. */
  function ParseResolution(value: Option<string>, default: Resolution): (r: Resolution)
    ensures r == default || Positive(r)
    ensures Positive(default) ==> Positive(r)
    ensures r != default ==>
      && value.Some?
      && var parts := ResolutionTokens(value.value);
      && |parts| == 2
      && ParseIntText(parts[0]) == Some(r.width)
      && ParseIntText(parts[1]) == Some(r.height)
    ensures !Falsy(value) ==>
      var parts := ResolutionTokens(value.value);
      |parts| == 2 ==>
      var w, h := ParseIntText(parts[0]), ParseIntText(parts[1]);
      w.Some? && h.Some? && w.value > 0 && h.value > 0 ==> r == Resolution(w.value, h.value)
  {
    if Falsy(value) then default
    else
      var parts := ResolutionTokens(value.value);
      if |parts| != 2 then default
      else
        var width, height := ParseIntText(parts[0]), ParseIntText(parts[1]);
        if width.None? || height.None? then default
        else if width.value <= 0 || height.value <= 0 then default
        else Resolution(width.value, height.value)
  }

  /** Lower-casing and separator replacement turn "W<sep>H" into "W H". */
  lemma SeparateDigits(dw: string, dh: string, sep: char)
    requires AllDigits(dw) && AllDigits(dh)
    requires sep in "xX*,"
    ensures Separate(Lower(dw + [sep] + dh)) == dw + [' '] + dh
  {
    var text := dw + [sep] + dh;
    var lowered := Lower(text);
    assert LowerChar(sep) in "x*,";
    forall i | 0 <= i < |text|
      ensures Separate(lowered)[i] == (dw + [' '] + dh)[i]
    {
      if i < |dw| {
        assert text[i] == dw[i];
      } else if i > |dw| {
        assert text[i] == dh[i - |dw| - 1];
      }
    }
  }

  /** Two space-free words separated by one space split into those words. */
  lemma WordsOfTwo(dw: string, dh: string)
    requires dw != [] && dh != [] && NoSpace(dw) && NoSpace(dh)
    ensures SplitWords(dw + [' '] + dh) == [dw, dh]
  {
    assert Join([dw, dh], [' ']) == dw + [' '] + dh by {
      assert Join([dw, dh][1..], [' ']) == dh;
    }
    SplitJoin([dw, dh], ' ', IsSpace);
    assert NonEmpty([dw, dh]) == [dw, dh] by {
      assert [dw, dh][1..] == [dh];
      assert NonEmpty([dh]) == [dh];
    }
  }

  /** "WIDTHxHEIGHT" (or with `X`, `*` or `,`) parses to that resolution. */
  lemma ResolutionRoundTrip(w: nat, h: nat, sep: char, default: Resolution)
    requires w > 0 && h > 0
    requires sep in "xX*,"
    ensures ParseResolution(Some(NatToDigits(w) + [sep] + NatToDigits(h)), default) == Resolution(w, h)
  {
    var dw, dh := NatToDigits(w), NatToDigits(h);
    var text := dw + [sep] + dh;
    SeparateDigits(dw, dh, sep);
    WordsOfTwo(dw, dh);
    var parts := ResolutionTokens(text);
    assert parts == [dw, dh];
    assert !Falsy(Some(text)) by {
      assert text[|dw|] == sep;
    }
    ParseDigits(w);
    ParseDigits(h);
    assert ParseIntText(parts[0]) == Some(w);
    assert ParseIntText(parts[1]) == Some(h);
  }

  /** `_parse_positive_int`: a positive integer, or the default. */
  function ParsePositiveInt(value: Option<string>, default: int): (r: int)
    ensures default > 0 ==> r > 0
    ensures r != default ==> r > 0 && value.Some? && ParseIntText(value.value) == Some(r)
    ensures forall n :: !Falsy(value) && ParseIntText(value.value) == Some(n) && n > 0 ==> r == n
    ensures Falsy(value) || ParseIntText(value.value).None? || ParseIntText(value.value).value <= 0 ==> r == default
  {
    if Falsy(value) then default
    else match ParseIntText(value.value)
      case None => default
      case Some(parsed) => if parsed > 0 then parsed else default
  }

  lemma PositiveIntRoundTrip(n: int, default: int)
    requires n > 0
    ensures ParsePositiveInt(Some(IntToString(n)), default) == n
  {
    ParseIntRoundTrip(n);
  }

  /** The title-cased labels, deduplicated and in ascending order. */
  function DisplayNames(labels: seq<string>): (r: seq<string>)
    ensures StrictlySorted(r)
    ensures Elems(r) == set l | l in labels :: Title(l)
    ensures Elems(r) == Elems(Titles(labels))
  {
    var titled := Titles(labels);
    assert Elems(titled) == set l | l in labels :: Title(l) by {
      forall l | l in labels ensures Title(l) in Elems(titled) {
        var i :| 0 <= i < |labels| && labels[i] == l;
        assert titled[i] == Title(l);
      }
    }
    SortedUnique(titled)
  }

  /** Each label title-cased, in order. */
  function Titles(labels: seq<string>): seq<string> {
    seq(|labels|, i requires 0 <= i < |labels| => Title(labels[i]))
  }

  /** `labels_to_display`: the display is empty exactly when every label is
      empty. */
  function LabelsToDisplay(labels: seq<string>): (r: string)
    ensures r == [] <==> forall l :: l in labels ==> l == []
  {
    var names := DisplayNames(labels);
    assert names == [] || |names| == 1 ==> (Join(names, ", ") == [] <==> forall l :: l in labels ==> l == []) by {
      if |names| == 1 {
        forall l | l in labels ensures Title(l) == names[0] {
          assert Title(l) in Elems(names);
        }
        assert exists l :: l in labels && Title(l) == names[0] by {
          assert names[0] in Elems(names);
        }
      }
    }
    assert |names| >= 2 ==> exists l :: l in labels && l != [] by {
      if |names| >= 2 {
        assert names[0] != names[1] by {
          assert Below(names[0], names[1]);
          BelowIrreflexive(names[0]);
        }
        assert names[0] in Elems(names) && names[1] in Elems(names);
      }
    }
    Join(names, ", ")
  }

  /** The display depends only on which labels occur, not on their order or
      repetition. */
  lemma DisplayIgnoresOrder(xs: seq<string>, ys: seq<string>)
    requires Elems(xs) == Elems(ys)
    ensures LabelsToDisplay(xs) == LabelsToDisplay(ys)
  {
    assert (set l | l in xs :: Title(l)) == (set l | l in ys :: Title(l)) by {
      assert forall l :: l in xs <==> l in Elems(xs);
      assert forall l :: l in ys <==> l in Elems(ys);
    }
    SortedListingUnique(DisplayNames(xs), DisplayNames(ys));
  }

  lemma TitleExamples()
    ensures Title("bird") == "Bird" && Title("Bird ") == "Bird " && Title("crow") == "Crow"
    ensures Titles(["bird", "Bird ", "crow"]) == ["Bird", "Bird ", "Crow"]
  {
  }

  lemma BelowExamples()
    ensures Below("Bird", "Bird ") && Below("Bird ", "Crow") && Below("Bird", "Crow")
    ensures StrictlySorted(["Bird", "Bird ", "Crow"])
  {
  }

  lemma DisplayNamesExample()
    ensures DisplayNames(["bird", "Bird ", "crow"]) == ["Bird", "Bird ", "Crow"]
  {
    var labels := ["bird", "Bird ", "crow"];
    var expected := ["Bird", "Bird ", "Crow"];
    TitleExamples();
    BelowExamples();
    SortedListingUnique(DisplayNames(labels), expected);
  }

  /** Labels are not stripped before title-casing, so a trailing space keeps a
      label apart from its trimmed spelling: the display reads
      `Bird, Bird , Crow`. */
  lemma DisplayKeepsSpacedLabel()
    ensures LabelsToDisplay(["bird", "Bird ", "crow"]) == "Bird" + ", " + ("Bird " + ", " + "Crow")
  {
    DisplayNamesExample();
    var expected := ["Bird", "Bird ", "Crow"];
    assert expected[1..] == ["Bird ", "Crow"] && expected[1..][1..] == ["Crow"];
  }
}
