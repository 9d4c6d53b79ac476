/**
 The detection policy: the 'skip' bypass, a failing detector read as "no
 faces", the whole-image fallback, the check on degenerate crops, and
 preprocessing of the first face found.
 */
module Detection {
  import opened Images
  import opened Loading
  import opened Reshape

  /** What a detector backend does with an image: it returns its faces, or it
      raises (for instance when a crop of shape (0, 0) cannot be aligned). */
  datatype DetectorOutcome = Found(faces: seq<Face>) | Raised

  /** `FaceDetector.detect_faces(face_detector, backend, img, align)`, with the
      backend built beforehand. */
  type Detector = (string, Image, bool) -> DetectorOutcome

  const SkipBackend: string := "skip"

  /** The error the validation loop raises: the shape of the first face with
      no rows or columns, when detection is enforced. */
  function FirstViolation(faces: seq<Face>, enforce: bool): (e: Option<Error>)
    ensures e.None? <==> !enforce || forall k :: 0 <= k < |faces| ==> !Degenerate(faces[k].crop)
    ensures e.Some? ==> e.value.DegenerateFace?
  {
    if faces == [] then None
    else if Degenerate(faces[0].crop) && enforce then
      Some(DegenerateFace(faces[0].crop.height, faces[0].crop.width))
    else
      FirstViolation(faces[1..], enforce)
  }

  /** The error names the first face with no rows or columns. */
  lemma {:induction false} ViolationIsFirst(faces: seq<Face>, enforce: bool, k: nat)
    requires k < |faces| && Degenerate(faces[k].crop) && enforce
    requires forall m :: 0 <= m < k ==> !Degenerate(faces[m].crop)
    ensures FirstViolation(faces, enforce) == Some(DegenerateFace(faces[k].crop.height, faces[k].crop.width))
  {
    if k > 0 {
      assert forall m :: 0 <= m < k - 1 ==> faces[1..][m] == faces[m + 1];
      ViolationIsFirst(faces[1..], enforce, k - 1);
    }
  }

  /** The faces the detector reports, a detector that raised counting as one
      that found none. */
  function FoundFaces(outcome: DetectorOutcome): seq<Face> {
    match outcome
    case Found(faces) => faces
    case Raised => []
  }

  /** What `detect_faces` does once the image is loaded. With the 'skip'
      backend the whole image is the one face. Otherwise, when the detector
      finds nothing, the call raises if detection is NOT enforced and falls
      back to the whole image if it is (the code tests `not
      enforce_detection`). Last, with detection enforced, a face with no rows
      or columns raises. */
  function DetectOnImage(img: Image, enforce: bool, backend: string, align: bool, detector: Detector)
    : Result<seq<Face>>
  {
    if backend == SkipBackend then Ok([Face(img, WholeRegion(img))])
    else
      var found := FoundFaces(detector(backend, img, align));
      if |found| == 0 && !enforce then Err(NoFaceDetected)
      else
        var faces := if |found| == 0 then [Face(img, WholeRegion(img))] else found;
        match FirstViolation(faces, enforce)
        case Some(e) => Err(e)
        case None => Ok(faces)
  }

  /** What `detect_faces` returns or raises: the input is loaded first, and a
      load that yields no array fails on `img.shape`. */
  function Detected(input: Arg, enforce: bool, backend: string, align: bool, env: Env, detector: Detector)
    : Result<seq<Face>>
  {
    match LoadImage(input, env)
    case Err(e) => Err(e)
    case Ok(None) => Err(NoImage)
    case Ok(Some(img)) => DetectOnImage(img, enforce, backend, align, detector)
  }

  /** The validation loop of `detect_faces`: with detection enforced, the
      first face with no rows or columns stops it with an error. */
  method ValidateFaces(faces: seq<Face>, enforce: bool) returns (e: Option<Error>)
    ensures e == FirstViolation(faces, enforce)
  {
    var i := 0;
    while i < |faces|
      invariant 0 <= i <= |faces|
      invariant forall k :: 0 <= k < i ==> !(enforce && Degenerate(faces[k].crop))
      invariant FirstViolation(faces, enforce) == FirstViolation(faces[i..], enforce)
    {
      var crop := faces[i].crop;
      if (crop.height == 0 || crop.width == 0) && enforce {
        return Some(DegenerateFace(crop.height, crop.width));
      }
      assert faces[i..][1..] == faces[i + 1..];
      i := i + 1;
    }
    return None;
  }

  /** `detect_faces`. */
  method DetectFaces(input: Arg, enforce: bool, backend: string, align: bool, env: Env, detector: Detector)
    returns (r: Result<seq<Face>>)
    ensures r == Detected(input, enforce, backend, align, env, detector)
  {
    var loaded := LoadImage(input, env);
    if loaded.Err? {
      return Err(loaded.error);
    }
    if loaded.value.None? {
      return Err(NoImage);
    }
    var img := loaded.value.value;
    assert Detected(input, enforce, backend, align, env, detector) == DetectOnImage(img, enforce, backend, align, detector);
    var whole := WholeRegion(img);
    if backend == SkipBackend {
      return Ok([Face(img, whole)]);
    }
    var faces := FoundFaces(detector(backend, img, align));
    if |faces| == 0 {
      if !enforce {
        return Err(NoFaceDetected);
      }
      faces := [Face(img, whole)];
    }
    var violation := ValidateFaces(faces, enforce);
    if violation.Some? {
      return Err(violation.value);
    }
    r := Ok(faces);
  }

  // ---------------------------------------------------------------------
  // Properties of detect_faces

  /** With the 'skip' backend the result is the whole image as one face,
      whatever the detector would have done. */
  lemma SkipBypassesDetector(input: Arg, enforce: bool, align: bool, env: Env, d1: Detector, d2: Detector, img: Image)
    requires LoadImage(input, env) == Ok(Some(img))
    ensures Detected(input, enforce, SkipBackend, align, env, d1) == Ok([Face(img, [0, 0, img.height, img.width])])
    ensures Detected(input, enforce, SkipBackend, align, env, d1) == Detected(input, enforce, SkipBackend, align, env, d2)
  {
  }

  /** A detector that raises is handled exactly like one that finds no face. */
  lemma RaisingDetectorFindsNothing(input: Arg, enforce: bool, backend: string, align: bool, env: Env,
                                    raising: Detector, empty: Detector)
    requires forall b, img, a :: raising(b, img, a) == Raised
    requires forall b, img, a :: empty(b, img, a) == Found([])
    ensures Detected(input, enforce, backend, align, env, raising) == Detected(input, enforce, backend, align, env, empty)
  {
  }

  /** No face found: without enforcement the call raises; with enforcement
      the whole image is the face, unless it has no rows or columns. */
  lemma NoFaceFallback(input: Arg, enforce: bool, backend: string, align: bool, env: Env, detector: Detector, img: Image)
    requires LoadImage(input, env) == Ok(Some(img))
    requires backend != SkipBackend
    requires FoundFaces(detector(backend, img, align)) == []
    ensures !enforce ==> Detected(input, enforce, backend, align, env, detector) == Err(NoFaceDetected)
    ensures enforce && !Degenerate(img) ==>
              Detected(input, enforce, backend, align, env, detector) == Ok([Face(img, [0, 0, img.height, img.width])])
    ensures enforce && Degenerate(img) ==>
              Detected(input, enforce, backend, align, env, detector) == Err(DegenerateFace(img.height, img.width))
  {
  }

  /** Faces found: they are returned unchanged, empty crops included, unless
      detection is enforced and one of them has no rows or columns. */
  lemma FoundFacesValidated(input: Arg, enforce: bool, backend: string, align: bool, env: Env, detector: Detector, img: Image)
    requires LoadImage(input, env) == Ok(Some(img))
    requires backend != SkipBackend
    requires FoundFaces(detector(backend, img, align)) != []
    ensures var found := FoundFaces(detector(backend, img, align));
            var r := Detected(input, enforce, backend, align, env, detector);
            (r == Ok(found) <==> !enforce || forall k :: 0 <= k < |found| ==> !Degenerate(found[k].crop)) &&
            (r.Err? ==> enforce && r.error.DegenerateFace?)
  {
    var found := FoundFaces(detector(backend, img, align));
    assert Detected(input, enforce, backend, align, env, detector) == DetectOnImage(img, enforce, backend, align, detector);
    var e := FirstViolation(found, enforce);
  }

  /** A successful detection has at least one face, and a face with no rows
      or columns survives only when detection is not enforced or was skipped. */
  lemma DetectionShape(input: Arg, enforce: bool, backend: string, align: bool, env: Env, detector: Detector)
    ensures var r := Detected(input, enforce, backend, align, env, detector);
            r.Ok? ==> |r.value| > 0 &&
                      (enforce && backend != SkipBackend ==> forall k :: 0 <= k < |r.value| ==> !Degenerate(r.value[k].crop))
  {
    match LoadImage(input, env)
    case Err(_) =>
    case Ok(None) =>
    case Ok(Some(img)) =>
      if backend != SkipBackend {
        var found := FoundFaces(detector(backend, img, align));
        var faces := if |found| == 0 then [Face(img, WholeRegion(img))] else found;
        var e := FirstViolation(faces, enforce);
      }
  }

  /** Detecting on an input or on the array it loads to gives the same
      result: loading an array is the identity, so the second load that
      `preprocess_face` causes changes nothing. */
  lemma DetectionOnLoadedImage(input: Arg, enforce: bool, backend: string, align: bool, env: Env, detector: Detector, img: Image)
    requires LoadImage(input, env) == Ok(Some(img))
    ensures Detected(Array(img), enforce, backend, align, env, detector) == Detected(input, enforce, backend, align, env, detector)
  {
  }

  // ---------------------------------------------------------------------
  // preprocess_face

  /** The image handed to `reshape_face`: the first face's crop, or the
      original image when that crop has no rows or columns. */
  function ChosenCrop(first: Face, original: Image): (img: Image)
    ensures Degenerate(first.crop) ==> img == original
    ensures !Degenerate(first.crop) ==> img == first.crop
  {
    if first.crop.height == 0 || first.crop.width == 0 then original else first.crop
  }

  /** `preprocess_face`: load, detect, and fit the first face found into the
      target size; its region is returned with it. */
  method PreprocessFace(input: Arg, target: Size, grayscale: bool, enforce: bool, backend: string, align: bool,
                        env: Env, detector: Detector, ops: PixelOps)
    returns (r: Result<(Image, Region)>)
    requires ShapeFaithful(ops)
    ensures var d := Detected(input, enforce, backend, align, env, detector);
            d.Err? ==> r == Err(d.error)
    ensures var d := Detected(input, enforce, backend, align, env, detector);
            d.Ok? ==> LoadImage(input, env).Ok? && LoadImage(input, env).value.Some? && |d.value| > 0 &&
                      r == ReshapeFace(ChosenCrop(d.value[0], LoadImage(input, env).value.value),
                                       d.value[0].region, target, grayscale, ops)
    ensures r.Ok? ==> r.value.0.height == target.0 && r.value.0.width == target.1
  {
    var loaded := LoadImage(input, env);
    if loaded.Err? {
      return Err(loaded.error);
    }
    if loaded.value.None? {
      return Err(NoImage);
    }
    var img := loaded.value.value;
    var original := img;
    var detected := DetectFaces(Array(img), enforce, backend, align, env, detector);
    DetectionOnLoadedImage(input, enforce, backend, align, env, detector, img);
    if detected.Err? {
      return Err(detected.error);
    }
    DetectionShape(input, enforce, backend, align, env, detector);
    var first := detected.value[0];
    var crop := ChosenCrop(first, original);
    r := ReshapeFace(crop, first.region, target, grayscale, ops);
  }

  /** The first face's crop can have no rows or columns only when detection
      is not enforced or was skipped. */
  lemma EmptyFirstCropNeedsNoEnforcement(input: Arg, enforce: bool, backend: string, align: bool, env: Env, detector: Detector)
    ensures var d := Detected(input, enforce, backend, align, env, detector);
            d.Ok? && Degenerate(d.value[0].crop) ==> !enforce || backend == SkipBackend
  {
    DetectionShape(input, enforce, backend, align, env, detector);
  }
}
