/**
 The values the face-preprocessing pipeline passes around: decoded pixel
 arrays, detected faces with their regions, and the errors the pipeline raises.
 */
module Images {

  /** A decoded pixel array of `height` rows and `width` columns. One integer
      stands for all channel values of a pixel; 0 is a black pixel. The
      dimensions are kept apart from the rows so that an array of shape
      (0, w) still has its width, as a NumPy array does. */
  datatype Raster = Raster(height: nat, width: nat, pixels: seq<seq<int>>)

  /** Every row is present and has `width` pixels. */
  predicate Rectangular(r: Raster) {
    |r.pixels| == r.height &&
    forall i :: 0 <= i < |r.pixels| ==> |r.pixels[i]| == r.width
  }

  /** The pixel arrays the pipeline handles are always rectangular. */
  type Image = r: Raster | Rectangular(r) witness Raster(0, 0, [])

  /** A crop with no rows or no columns (`img.shape[0] == 0 or img.shape[1] == 0`). */
  predicate Degenerate(img: Image) {
    img.height == 0 || img.width == 0
  }

  /** A region as the pipeline passes it: a list of four integers. */
  type Region = seq<int>

  /** The region that covers a whole image: `[0, 0, height, width]`. */
  function WholeRegion(img: Image): Region {
    [0, 0, img.height, img.width]
  }

  /** One detected face: its crop and its region in the original image. */
  datatype Face = Face(crop: Image, region: Region)

  /** The exceptions the pipeline raises, by cause. */
  datatype Error =
    | FileNotFound(path: string)             // ValueError: the path is not an existing file
    | IndexError                             // a list index or tuple index out of range
    | TypeError                              // load_image given neither an array nor a string
    | NoImage                                // OpenCV returned None and `.shape` / `.copy()` was used on it
    | NoFaceDetected                         // ValueError: no face found
    | DegenerateFace(height: nat, width: nat) // ValueError: a face crop with zero extent
    | ConversionFailed                       // cv2.cvtColor given an array with no rows or columns
    | ZeroDivision                           // target size divided by a zero dimension
    | ResizeFailed                           // cv2.resize asked for a zero-sized result

  datatype Option<T> = None | Some(value: T)

  datatype Result<T> = Ok(value: T) | Err(error: Error)
}
