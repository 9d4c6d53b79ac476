/**
 The input size a recognition model expects, read from its declared input
 shape, with the axis swap that TensorFlow 2.5 and later need.
 */
module InputShape {
  import opened Images

  /** One axis of a declared Keras shape: a size, or None for a free axis
      such as the batch axis. */
  datatype Dim = Known(n: nat) | Free

  /** `model.layers[0].input_shape`: one shape tuple, or, in some Keras
      versions, a list of shape tuples. */
  datatype DeclaredShape = Tuple(dims: seq<Dim>) | ListOf(shapes: seq<seq<Dim>>)

  /** Python's `s[lo:hi]` for `0 <= lo <= hi`: the bounds are clipped to the
      length of `s`, so a short sequence gives a short slice, never an error. */
  function Slice<T>(s: seq<T>, lo: nat, hi: nat): (r: seq<T>)
    requires lo <= hi
    ensures |r| == if |s| <= lo then 0 else if |s| <= hi then |s| - lo else hi - lo
    ensures forall k :: 0 <= k < |r| ==> r[k] == s[lo + k]
  {
    if |s| <= lo then [] else if |s| <= hi then s[lo..] else s[lo..hi]
  }

  /** `tf_major_version == 2 and tf_minor_version >= 5`. */
  predicate SwapsAxes(tfMajor: int, tfMinor: int) {
    tfMajor == 2 && tfMinor >= 5
  }

  /** The shape tuple the code reads: the tuple itself, or the first element
      of the list. */
  function ShapeTuple(declared: DeclaredShape): Option<seq<Dim>> {
    match declared
    case Tuple(dims) => Some(dims)
    case ListOf(shapes) => if shapes == [] then None else Some(shapes[0])
  }

  /** `find_input_shape`: the two axes after the batch axis, in declared order
      before TensorFlow 2.5 and swapped from 2.5 on (2.x only). An empty list
      fails on `input_shape[0]`, and the swap fails on a tuple with fewer than
      two axes after the batch axis. */
  function FindInputShape(declared: DeclaredShape, tfMajor: int, tfMinor: int): (r: Result<seq<Dim>>)
    ensures ShapeTuple(declared).None? ==> r == Err(IndexError)
    ensures r.Err? ==> r.error == IndexError
    ensures ShapeTuple(declared).Some? && !SwapsAxes(tfMajor, tfMinor) ==>
              var dims := ShapeTuple(declared).value;
              r.Ok? && |r.value| == (if |dims| <= 1 then 0 else if |dims| <= 3 then |dims| - 1 else 2) &&
              forall k :: 0 <= k < |r.value| ==> r.value[k] == dims[k + 1]
    ensures ShapeTuple(declared).Some? && SwapsAxes(tfMajor, tfMinor) ==>
              var dims := ShapeTuple(declared).value;
              (r.Ok? <==> |dims| >= 3) && (r.Ok? ==> r.value == [dims[2], dims[1]])
  {
    match ShapeTuple(declared)
    case None => Err(IndexError)
    case Some(dims) =>
      var spatial := Slice(dims, 1, 3);
      if SwapsAxes(tfMajor, tfMinor) then
        if |spatial| < 2 then Err(IndexError)
        else Ok([spatial[1], spatial[0]])
      else Ok(spatial)
  }

  /** For a model that declares at least height and width, TensorFlow 2.5 and
      later get the same two axes as older versions, in the other order. */
  lemma SwapReversesOlderOrder(declared: DeclaredShape, newMinor: int, oldMajor: int, oldMinor: int)
    requires ShapeTuple(declared).Some? && |ShapeTuple(declared).value| >= 3
    requires newMinor >= 5 && !SwapsAxes(oldMajor, oldMinor)
    ensures var older := FindInputShape(declared, oldMajor, oldMinor);
            var newer := FindInputShape(declared, 2, newMinor);
            older.Ok? && newer.Ok? && |older.value| == 2 &&
            newer.value == [older.value[1], older.value[0]]
  {
  }
}
