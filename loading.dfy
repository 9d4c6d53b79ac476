/**
 Input classification: how the pipeline tells a pixel array from a base64
 data URI from a file path, how it picks the payload out of a data URI, and
 how it forms the list of inputs to process.
 */
module Loading {
  import opened Images

  /** An argument as the preprocessing functions receive it: a NumPy array,
      a string, a list, or None. */
  datatype Arg = Array(img: Image) | Str(s: string) | List(items: seq<Arg>) | NoneArg

  /** What the loader sees outside the program. `files` maps each existing
      file to what `cv2.imread` returns for it (None for a file OpenCV cannot
      read); `decodePayload` is base64 decoding followed by `cv2.imdecode`,
      None when OpenCV cannot decode the bytes. */
  datatype Env = Env(files: map<string, Option<Image>>, decodePayload: string -> Option<Image>)

  // ---------------------------------------------------------------------
  // initialize_input

  /** `img.any()`: some pixel of the array is not zero. */
  predicate HasNonZero(img: Image) {
    exists i, j :: 0 <= i < |img.pixels| && 0 <= j < |img.pixels[i]| && img.pixels[i][j] != 0
  }

  /** The second argument makes a pair only when it is a string (any string,
      the empty one included) or an array with a pixel that is not zero. */
  predicate FormsPair(img2: Arg) {
    img2.Str? || (img2.Array? && HasNonZero(img2.img))
  }

  /** The list of inputs to process and whether it is a bulk run. A list
      argument is copied as it is; otherwise the result holds one entry, the
      pair `[img1, img2]` or `img1` alone. */
  function InitializeInput(img1: Arg, img2: Arg): (r: (seq<Arg>, bool))
    ensures r.1 <==> img1.List?
    ensures img1.List? ==> r.0 == img1.items
    ensures !img1.List? ==> |r.0| == 1
    ensures !img1.List? && FormsPair(img2) ==> r.0[0] == List([img1, img2])
    ensures !img1.List? && !FormsPair(img2) ==> r.0[0] == img1
  {
    if img1.List? then
      (img1.items, true)
    else if FormsPair(img2) then
      ([List([img1, img2])], false)
    else
      ([img1], false)
  }

  /** A second argument that is an all-black array is dropped: the call is
      handled as a single-image call. */
  lemma BlackSecondImageDropped(img1: Arg, black: Image)
    requires !img1.List?
    requires forall i, j :: 0 <= i < |black.pixels| && 0 <= j < |black.pixels[i]| ==> black.pixels[i][j] == 0
    ensures InitializeInput(img1, Array(black)) == ([img1], false)
  {
  }

  // ---------------------------------------------------------------------
  // str.split

  /** The number of occurrences of `c` in `s`. */
  function Count(s: string, c: char): (n: nat)
    ensures n <= |s|
  {
    if s == [] then 0 else (if s[0] == c then 1 else 0) + Count(s[1..], c)
  }

  /** A character occurs in a string exactly when its count is positive. */
  lemma {:induction false} CountPositiveIffPresent(s: string, c: char)
    ensures Count(s, c) > 0 <==> c in s
  {
    if s != [] {
      assert s == [s[0]] + s[1..];
      CountPositiveIffPresent(s[1..], c);
    }
  }

  /** `s.split(sep)` for a one-character separator: the pieces between the
      separators, one more piece than there are separators. */
  function Split(s: string, sep: char): (parts: seq<string>)
    ensures |parts| == Count(s, sep) + 1
  {
    if s == [] then [[]]
    else
      var rest := Split(s[1..], sep);
      if s[0] == sep then [[]] + rest
      else [[s[0]] + rest[0]] + rest[1..]
  }

  /** No piece of a split holds the separator. */
  lemma {:induction false} SplitPiecesArePlain(s: string, sep: char)
    ensures forall k :: 0 <= k < |Split(s, sep)| ==> sep !in Split(s, sep)[k]
  {
    if s != [] {
      SplitPiecesArePlain(s[1..], sep);
      var rest := Split(s[1..], sep);
      if s[0] != sep {
        assert forall k :: 1 <= k < |Split(s, sep)| ==> Split(s, sep)[k] == rest[k];
        assert sep !in [s[0]] + rest[0];
      }
    }
  }

  /** `sep.join(parts)`. */
  function Join(parts: seq<string>, sep: char): string
    requires |parts| > 0
  {
    if |parts| == 1 then parts[0] else parts[0] + [sep] + Join(parts[1..], sep)
  }

  /** Joining the pieces of a split gives back the string. */
  lemma {:induction false} SplitThenJoin(s: string, sep: char)
    ensures Join(Split(s, sep), sep) == s
  {
    if s != [] {
      var rest := Split(s[1..], sep);
      SplitThenJoin(s[1..], sep);
      if s[0] == sep {
        assert Split(s, sep) == [[]] + rest;
        assert ([[]] + rest)[1..] == rest;
      } else {
        var parts := Split(s, sep);
        assert parts == [[s[0]] + rest[0]] + rest[1..];
        if |rest| > 1 {
          assert parts[1..] == rest[1..];
          assert Join(rest, sep) == rest[0] + [sep] + Join(rest[1..], sep);
        }
      }
    }
  }

  /** A character other than the separator joins the first piece. */
  lemma SplitCons(c: char, s: string, sep: char)
    requires c != sep
    ensures Split([c] + s, sep) == [[c] + Split(s, sep)[0]] + Split(s, sep)[1..]
  {
    assert ([c] + s)[1..] == s;
  }

  /** Splitting a prefix free of separators extends the first piece. */
  lemma {:induction false} SplitAfterPlainPrefix(a: string, t: string, sep: char)
    requires sep !in a
    ensures Split(a + t, sep) == [a + Split(t, sep)[0]] + Split(t, sep)[1..]
  {
    var st := Split(t, sep);
    if a == [] {
      assert a + t == t;
      assert a + st[0] == st[0];
      assert st == [st[0]] + st[1..];
    } else {
      assert a + t == [a[0]] + (a[1..] + t);
      SplitAfterPlainPrefix(a[1..], t, sep);
      SplitCons(a[0], a[1..] + t, sep);
      assert [a[0]] + (a[1..] + st[0]) == a + st[0];
    }
  }

  /** Splitting a join of separator-free pieces gives back the pieces. */
  lemma {:induction false} JoinThenSplit(parts: seq<string>, sep: char)
    requires |parts| > 0
    requires forall k :: 0 <= k < |parts| ==> sep !in parts[k]
    ensures Split(Join(parts, sep), sep) == parts
  {
    if |parts| == 1 {
      SplitAfterPlainPrefix(parts[0], [], sep);
      assert parts[0] + [] == parts[0];
      assert Split([], sep) == [[]];
      assert parts == [parts[0]];
    } else {
      var tail := Join(parts[1..], sep);
      JoinThenSplit(parts[1..], sep);
      assert ([sep] + tail)[1..] == tail;
      assert Split([sep] + tail, sep) == [[]] + Split(tail, sep);
      assert parts[0] + [sep] + tail == parts[0] + ([sep] + tail);
      SplitAfterPlainPrefix(parts[0], [sep] + tail, sep);
      assert Join(parts, sep) == parts[0] + ([sep] + tail);
      assert parts[0] + [] == parts[0];
      assert Split(Join(parts, sep), sep) == [parts[0]] + Split(tail, sep);
      assert parts == [parts[0]] + parts[1..];
    }
  }

  // ---------------------------------------------------------------------
  // loadBase64Img

  /** `uri.split(',')[1]`: the text between the first comma and the next one
      (or the end); an index error when there is no comma. */
  function Base64Payload(uri: string): (r: Result<string>)
    ensures r.Ok? <==> ',' in uri
    ensures r.Err? ==> r.error == IndexError
    ensures r.Ok? ==> ',' !in r.value && |r.value| < |uri|
  {
    var parts := Split(uri, ',');
    CountPositiveIffPresent(uri, ',');
    if |parts| < 2 then Err(IndexError)
    else
      SplitPiecesArePlain(uri, ',');
      SplitThenJoin(uri, ',');
      assert Join(parts, ',') == parts[0] + [','] + Join(parts[1..], ',');
      assert Join(parts[1..], ',') == parts[1] || Join(parts[1..], ',') == parts[1] + [','] + Join(parts[2..], ',');
      Ok(parts[1])
  }

  /** The payload is exactly the piece after the first comma, up to a second
      comma if there is one: anything after a second comma is dropped. */
  lemma PayloadBetweenCommas(head: string, payload: string, tail: string)
    requires ',' !in head && ',' !in payload
    requires tail == [] || tail[0] == ','
    ensures Base64Payload(head + [','] + payload + tail) == Ok(payload)
  {
    var rest := payload + tail;
    assert head + [','] + payload + tail == head + ([','] + rest);
    SplitAfterPlainPrefix(head, [','] + rest, ',');
    assert ([','] + rest)[1..] == rest;
    SplitAfterPlainPrefix(payload, tail, ',');
    if tail == [] {
      assert Split(tail, ',') == [[]];
    } else {
      assert tail == [','] + tail[1..];
      assert Split(tail, ',')[0] == [];
    }
    assert Split(rest, ',')[0] == payload;
    assert Split([','] + rest, ',') == [[]] + Split(rest, ',');
    assert head + [] == head;
    assert Split(head + ([','] + rest), ',') == [head] + Split(rest, ',');
  }

  /** `loadBase64Img`: the payload of the data URI, decoded. */
  function LoadBase64Img(uri: string, env: Env): (r: Result<Option<Image>>)
    ensures r.Ok? <==> ',' in uri
    ensures r.Ok? ==> r.value == env.decodePayload(Base64Payload(uri).value)
  {
    match Base64Payload(uri)
    case Err(e) => Err(e)
    case Ok(payload) => Ok(env.decodePayload(payload))
  }

  // ---------------------------------------------------------------------
  // load_image

  const DataUriPrefix: string := "data:image/"

  /** A string is read as a data URI when it is longer than the prefix and
      starts with it. */
  predicate IsDataUri(s: string) {
    |s| > 11 && s[..11] == DataUriPrefix
  }

  /** `load_image`: an array is returned unchanged, a data URI is decoded, and
      any other string is a path that must name an existing file. A value of
      any other kind fails on `len` or on `os.path.isfile`. */
  function LoadImage(input: Arg, env: Env): (r: Result<Option<Image>>)
    ensures input.Array? ==> r == Ok(Some(input.img))
    ensures input.Str? && IsDataUri(input.s) ==> (r.Ok? <==> ',' in input.s)
    ensures input.Str? && IsDataUri(input.s) && r.Ok? ==>
              r.value == env.decodePayload(Base64Payload(input.s).value)
    ensures input.Str? && !IsDataUri(input.s) && input.s !in env.files ==>
              r == Err(FileNotFound(input.s))
    ensures input.Str? && !IsDataUri(input.s) && input.s in env.files ==>
              r == Ok(env.files[input.s])
    ensures (input.List? || input.NoneArg?) ==> r == Err(TypeError)
  {
    match input
    case Array(img) => Ok(Some(img))
    case Str(s) =>
      if IsDataUri(s) then LoadBase64Img(s, env)
      else if s in env.files then Ok(env.files[s])
      else Err(FileNotFound(s))
    case _ => Err(TypeError)
  }

  /** The bare prefix, eleven characters long, is not a data URI: it is
      looked up as a path. */
  lemma BarePrefixIsPath(env: Env)
    ensures !IsDataUri(DataUriPrefix)
    ensures DataUriPrefix !in env.files ==> LoadImage(Str(DataUriPrefix), env) == Err(FileNotFound(DataUriPrefix))
  {
  }
}
