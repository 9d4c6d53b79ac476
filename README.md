# deepface face preprocessing, modelled in Dafny

This project models the decision and geometry logic of deepface's face
preprocessing pipeline (`deepface/commons/functions.py`):

- **Input classification** (`images.dfy`, `loading.dfy`): an argument is a
  NumPy array, a string or something else. A string longer than eleven
  characters that starts with `data:image/` is a base64 data URI, and its
  payload is `uri.split(',')[1]`. Any other string is a path that must name an
  existing file. `initialize_input` turns the arguments into a list of inputs
  and a bulk flag.
- **Detection policy** (`detection.dfy`): the `'skip'` bypass, a detector
  exception read as "no faces", the whole-image fallback, the check on faces
  with no rows or columns, and `preprocess_face`, which takes the first face
  and falls back to the original image when that crop is empty. The detector
  is an abstract outcome: a list of (crop, region) pairs, or an exception.
  `detect_faces` is a method whose validation loop is proved against the
  function `Detected`.
- **Fitting a face into the target size** (`reshape.dfy`): one scale factor,
  computed in exact `real` arithmetic, for both axes; the truncated resized
  size; and black padding split `diff // 2` before and the rest after. The
  padded image is proved equal to an independent definition, the content
  centred on a black canvas of exactly the target size. So the last-resort
  re-resize at line 218 is never taken.
- **Model input size** (`input_shape.dfy`): the `[1:3]` slice of the declared
  shape (a tuple, or a list whose first element is used), swapped for
  TensorFlow 2.5 and later. The TensorFlow version is a parameter.

An image is a `Raster` of `height` rows and `width` columns. One integer
stands for all the channel values of a pixel, and 0 is black. The dimensions
are stored apart from the rows, so a crop of shape (0, w) keeps its width. The
subset type `Image` holds only rectangular rasters. The OpenCV calls whose
pixel values are outside the model (`cv2.cvtColor`, `cv2.resize`) are the
function fields of a `PixelOps` value. `ShapeFaithful` states the only thing
known of them: the grey conversion keeps the dimensions, and a resize returns
the dimensions asked for. The file system is the map `Env.files`, from each
existing path to what `cv2.imread` returns (None when OpenCV cannot read the
file). Base64 decoding followed by `cv2.imdecode` is the function
`Env.decodePayload`.

Three behaviours of the code are easy to misread, and the model keeps each
as written:

- When the detector finds no face, the test at line 116 raises `ValueError`
  if `enforce_detection` is **false** and falls back to the whole image if it
  is **true**. The error message at lines 117-119 suggests the opposite.
- The payload of a data URI is `uri.split(',')[1]` (line 64): the text
  between the first comma and the next one. Text after a second comma is
  dropped.
- A path that names no existing file raises `ValueError` (lines 84-85). The
  model calls this error `FileNotFound`.

When `cv2.resize` is asked for a size with zero rows or columns, OpenCV
raises. `ReshapeFace` models this as the error `ResizeFailed` instead of
excluding such inputs. A crop with no rows or columns fails at once: with
`grayscale` set, `cv2.cvtColor` at line 193 rejects it (the error
`ConversionFailed`); otherwise the scale-factor division raises (the error
`ZeroDivision`).

## Model

| member | source | states |
|---|---|---|
| `Loading.InitializeInput` | deepface/commons/functions.py:29-44 | A list argument is copied and marks a bulk run. Otherwise there is one entry: the pair `[img1, img2]` when `img2` is any string or an array with a non-zero pixel, else `img1` alone. |
| `Loading.BlackSecondImageDropped` | deepface/commons/functions.py:36-42 | An all-black array as second argument is dropped, and the call becomes a single-image call. |
| `Loading.Split` | deepface/commons/functions.py:64 | `str.split` on one character gives one more piece than there are separators. |
| `Loading.SplitPiecesArePlain` | deepface/commons/functions.py:64 | No piece of a split holds the separator. |
| `Loading.SplitThenJoin` | deepface/commons/functions.py:64 | Joining the pieces of a split with the separator gives back the original string. |
| `Loading.JoinThenSplit` | deepface/commons/functions.py:64 | Splitting a join of separator-free pieces gives back the pieces. |
| `Loading.Base64Payload` | deepface/commons/functions.py:63-64 | The payload exists exactly when the URI holds a comma, and it holds no comma itself. A URI without a comma raises an index error. |
| `Loading.PayloadBetweenCommas` | deepface/commons/functions.py:64 | For `head,payload` followed by nothing or by a comma and more text, with no comma in `head` or `payload`, the payload is exactly `payload`. Text after a second comma is dropped. |
| `Loading.LoadBase64Img` | deepface/commons/functions.py:63-67 | Decoding succeeds as far as the split exactly when the URI holds a comma, and the result is the decode of the payload. |
| `Loading.LoadImage` | deepface/commons/functions.py:70-90 | An array is returned unchanged. A string longer than 11 characters that starts with `data:image/` is decoded as a data URI. Any other string is a path: a missing file raises `ValueError`, and an existing one gives what `cv2.imread` returns. A list or None raises `TypeError`. |
| `Loading.BarePrefixIsPath` | deepface/commons/functions.py:76-86 | The bare 11-character string `data:image/` is not a data URI; when no such file exists it raises the missing-file error. |
| `Reshape.ScaleFactor` | deepface/commons/functions.py:200-202 | The factor is non-negative. Scaling both dimensions by it fits them in the target, and one of them reaches its target exactly. |
| `Reshape.ResizedDims` | deepface/commons/functions.py:204-205 | Each resized dimension is the scaled dimension truncated by `int`: at most the scaled value and more than it minus one. The rows are at most `target[0]` and the columns at most `target[1]`, and at least one of them equals its target. |
| `Reshape.Padding` | deepface/commons/functions.py:208-212 | The two paddings of an axis add up to the difference, and top ≤ bottom ≤ top + 1 (likewise left and right). |
| `Reshape.PadImage` | deepface/commons/functions.py:212-215 | Constant padding gives dimensions `top + h + bottom` by `left + w + right`. Each cell inside the window at (top, left) is the original pixel, and every other cell is 0. |
| `Reshape.PadIsCentered` | deepface/commons/functions.py:207-215 | Padding the resized content with the `diff // 2` split equals the content centred on a black canvas of exactly the target size. |
| `Reshape.ReshapeFace` | deepface/commons/functions.py:191-231 | An empty crop raises in `cv2.cvtColor` when grey is asked for, and on the division otherwise. A zero resized dimension raises in OpenCV. Otherwise the result is the target size, it equals the resized crop centred on a black canvas (the re-resize at line 218 is not taken), and the region is passed through. |
| `Detection.FirstViolation` | deepface/commons/functions.py:123-125 | The validation raises exactly when detection is enforced and some face has zero rows or columns. |
| `Detection.ViolationIsFirst` | deepface/commons/functions.py:123-125 | The error carries the shape of the first face with zero rows or columns. |
| `Detection.ValidateFaces` | deepface/commons/functions.py:123-125 | The loop over the faces, whose invariant is that every face checked so far passes, stops with exactly the error `FirstViolation` names, or with none. |
| `Detection.DetectFaces` | deepface/commons/functions.py:93-127 | The method returns exactly what `Detected` specifies: load, skip bypass, detector failure read as no faces, fallback, validation. |
| `Detection.SkipBypassesDetector` | deepface/commons/functions.py:97-102 | With backend `'skip'` the result is `[(img, [0, 0, h, w])]`, the same for every detector: the detector is not consulted. |
| `Detection.RaisingDetectorFindsNothing` | deepface/commons/functions.py:110-113 | A detector that raises gives the same result as one that finds no face. |
| `Detection.NoFaceFallback` | deepface/commons/functions.py:115-121 | With no face found, `enforce_detection == False` raises. `True` gives the single whole-image face, which raises in validation if the image has zero rows or columns. |
| `Detection.FoundFacesValidated` | deepface/commons/functions.py:123-127 | The faces found are returned unchanged, empty crops included, exactly when detection is not enforced or no crop is empty. Otherwise the empty-face error is raised. |
| `Detection.DetectionShape` | deepface/commons/functions.py:115-127 | A successful detection holds at least one face. Unless detection was skipped, with enforcement on no face in it is empty. |
| `Detection.DetectionOnLoadedImage` | deepface/commons/functions.py:178-181 | Detecting on an input or on the array it loads to gives the same result, so the second load in `preprocess_face` changes nothing. |
| `Detection.ChosenCrop` | deepface/commons/functions.py:184-186 | The image reshaped is the first crop when that crop has rows and columns, and the original image when it is empty. |
| `Detection.PreprocessFace` | deepface/commons/functions.py:176-188 | A detection error is passed on. Otherwise only the first face is used: its crop, or the original image when the crop is empty, is reshaped with the detected region, and a success has exactly the target size. |
| `Detection.EmptyFirstCropNeedsNoEnforcement` | deepface/commons/functions.py:184-188 | The first crop can be empty only when detection is not enforced or was skipped. |
| `InputShape.Slice` | deepface/commons/functions.py:241-243 | Python slicing `s[lo:hi]` clips to the length of `s` and takes the elements from `lo` on. |
| `InputShape.FindInputShape` | deepface/commons/functions.py:234-259 | An empty list raises an index error. Before TensorFlow 2.5 the result is the up to two axes after the batch axis, in order. From 2.5 on (2.x only) it is `[dims[2], dims[1]]`, and it raises when fewer axes are declared. |
| `InputShape.SwapReversesOlderOrder` | deepface/commons/functions.py:246-252 | For a shape that declares both spatial axes, TensorFlow 2.5 and later get the older versions' pair reversed. |

## Left out

- `normalize_input` (functions.py:130-173): floating-point arithmetic done in place on the tensor, with no structure to check beyond its constants.
- `initialize_folder` and `get_deepface_home` (functions.py:47-60): directory creation and an environment variable.
- TensorFlow and Keras version detection and imports (functions.py:9-24): the major and minor versions are parameters of `FindInputShape`.
- `FaceDetector.build_model` and the process-wide detector cache (functions.py:108), and the detector algorithms: that code is not part of this model. The detector is a function from (backend, image, align) to an outcome, so an unknown backend name failing in `build_model` is not modelled.
- Pixel values computed by OpenCV and Keras (`cv2.imread`, `cv2.imdecode`, `cv2.cvtColor`, the interpolation of `cv2.resize`): they are parameters whose dimensions alone are known.
- Colour channels: a pixel is one integer, so the channel axis that `np.pad` leaves alone is not represented.
- ReshapeFace: returns the padded image itself. The conversion by `img_to_array`, the added batch axis and the division by 255 (functions.py:225-227) are left out as pixel arithmetic.
- ReshapeFace: the scale factor is an exact `real`. Python's floating-point `factor` can make `int(h * factor)` fall one short of the target, so the claim that one axis fills its target holds only in exact arithmetic. The padded size equals the target either way.
- ReshapeFace: takes `target_size` as a tuple. A list passed as `target_size` compares unequal to the shape tuple at line 218, so the source would always re-resize it.
- LoadBase64Img: `base64.b64decode` raising on a malformed payload is modelled as the decode returning None. Only the extraction of the payload string is modelled exactly.
- LoadImage: for an array, the source also evaluates `img[0:11] == "data:image/"`, a NumPy comparison of an array with a string. The model takes it as false.
- The source's default argument values (`img2_path=None`, `enforce_detection=True`, `detector_backend='opencv'`, `align=True`, `target_size=(224, 224)`, `grayscale=False`) are not modelled: every model function takes each argument explicitly.
- FirstViolation: the error carries the crop's (rows, columns), not the full NumPy shape with its channel axis.
