/**
 * The test helpers `TestUtils` (src/test/cpp/exqudens/test/TestUtils.hpp and
 * src/test/cpp/exqudens/TestUtils.hpp): joining strings, flattening a
 * nested-exception chain into a stack trace, and the pixel layout of
 * `readPng`/`writePng`. PNG decoding and encoding themselves (lodepng) are
 * parameters: the decoded buffer and dimensions, and the encoder's error code.
 */
module TestUtils {
  import opened Wrappers

  // ---------------------------------------------------------------------
  // join

  /** The joined text: the elements with `delimiter` between consecutive ones. */
  function Joined(strings: seq<string>, delimiter: string): string
    decreases |strings|
  {
    if |strings| == 0 then ""
    else if |strings| == 1 then strings[0]
    else strings[0] + delimiter + Joined(strings[1..], delimiter)
  }

  /** Appending one element adds a delimiter only when something precedes it. */
  lemma {:induction false} JoinedSnoc(strings: seq<string>, s: string, delimiter: string)
    ensures Joined(strings + [s], delimiter) == if |strings| == 0 then s else Joined(strings, delimiter) + delimiter + s
    decreases |strings|
  {
    if |strings| == 1 {
      assert strings + [s] == [strings[0], s];
    } else if |strings| > 1 {
      assert (strings + [s])[1..] == strings[1..] + [s];
      JoinedSnoc(strings[1..], s, delimiter);
    }
  }

  /** `join(strings, delimiter, prefix, suffix)`: the loop appends each
      element and, unless it is the last, the delimiter; the result is wrapped
      in prefix and suffix. */
  method Join(strings: seq<string>, delimiter: string, prefix: string, suffix: string) returns (r: string)
    ensures r == prefix + Joined(strings, delimiter) + suffix
  {
    var result := "";
    var i := 0;
    while i < |strings|
      invariant 0 <= i <= |strings|
      invariant i == 0 ==> result == ""
      invariant 0 < i ==> result == Joined(strings[..i], delimiter) + (if i < |strings| then delimiter else "")
    {
      JoinedSnoc(strings[..i], strings[i], delimiter);
      assert strings[..i + 1] == strings[..i] + [strings[i]];
      result := result + strings[i];
      if i < |strings| - 1 {
        result := result + delimiter;
      }
      i := i + 1;
    }
    assert strings[..|strings|] == strings;
    r := prefix + result + suffix;
  }

  /** An empty list joins to prefix and suffix alone. */
  lemma JoinEmpty(delimiter: string, prefix: string, suffix: string)
    ensures prefix + Joined([], delimiter) + suffix == prefix + suffix
  {
  }

  // ---------------------------------------------------------------------
  // toStringVector, toStackTrace, toString

  /** A `std::exception` and the exception nested in it, if any. */
  datatype Exception = Exception(what: string, nested: Option<Exception>)

  /** The messages from the outermost exception to the innermost. */
  function Messages(e: Exception): (r: seq<string>)
    ensures |r| > 0 && r[0] == e.what
  {
    [e.what] + (match e.nested case None => [] case Some(inner) => Messages(inner))
  }

  /** `toStringVector(exception, previous)`: append `what()`, then recurse
      into the nested exception with the grown vector. */
  function ToStringVectorFrom(e: Exception, previous: seq<string>): seq<string> {
    match e.nested
    case None => previous + [e.what]
    case Some(inner) => ToStringVectorFrom(inner, previous + [e.what])
  }

  /** The accumulating recursion lists the messages outermost first after `previous`. */
  lemma {:induction false} ToStringVectorFromMessages(e: Exception, previous: seq<string>)
    ensures ToStringVectorFrom(e, previous) == previous + Messages(e)
  {
    match e.nested
    case None =>
    case Some(inner) =>
      ToStringVectorFromMessages(inner, previous + [e.what]);
  }

  /** `toStringVector(exception)`: starting from an empty vector. */
  function ToStringVector(e: Exception): (r: seq<string>)
    ensures r == Messages(e)
  {
    ToStringVectorFromMessages(e, []);
    ToStringVectorFrom(e, [])
  }

  function Reverse<T>(s: seq<T>): (r: seq<T>)
    ensures |r| == |s| && forall i :: 0 <= i < |s| ==> r[i] == s[|s| - 1 - i]
  {
    seq(|s|, i requires 0 <= i < |s| => s[|s| - 1 - i])
  }

  /** `toStackTrace` of src/test/cpp/exqudens/test/TestUtils.hpp: always
      reversed, innermost first. */
  function ToStackTrace(e: Exception): (r: seq<string>)
    ensures r == Reverse(Messages(e))
    ensures r[|r| - 1] == e.what
  {
    Reverse(ToStringVector(e))
  }

  /** `toStackTrace` of src/test/cpp/exqudens/TestUtils.hpp: reversed only
      when there is more than one message. */
  function ToStackTraceGuarded(e: Exception): seq<string> {
    var elements := ToStringVector(e);
    if |elements| > 1 then Reverse(elements) else elements
  }

  /** The guard changes nothing: reversing one element is the identity. */
  lemma StackTracesAgree(e: Exception)
    ensures ToStackTraceGuarded(e) == ToStackTrace(e)
  {
    var elements := ToStringVector(e);
    if |elements| <= 1 {
      assert Reverse(elements) == elements;
    }
  }

  /** `toString` of both headers: the stack trace, one entry per line, with
      no newline after the last (`join(.., "\n")` in one header, the
      `std::endl` loop in the other). */
  function ToString(e: Exception): (r: string)
    ensures r == Joined(ToStackTraceGuarded(e), "\n")
  {
    StackTracesAgree(e);
    Joined(ToStackTrace(e), "\n")
  }

  /** The shape of the chain `func1` throws in the unit test: three
      rethrows around the original exception. */
  function Chain4(outer: string, second: string, third: string, inner: string): Exception {
    Exception(outer, Some(Exception(second, Some(Exception(third, Some(Exception(inner, None)))))))
  }

  lemma JoinedCons(first: string, rest: seq<string>, delimiter: string)
    requires |rest| > 0
    ensures Joined([first] + rest, delimiter) == first + delimiter + Joined(rest, delimiter)
  {
    assert ([first] + rest)[1..] == rest;
  }

  /** The trace of a four-level chain, innermost first. */
  lemma StackTraceOfChain4(outer: string, second: string, third: string, inner: string)
    ensures ToStackTrace(Chain4(outer, second, third, inner)) == [inner] + ([third] + ([second] + [outer]))
  {
    var e3 := Exception(third, Some(Exception(inner, None)));
    var e2 := Exception(second, Some(e3));
    assert Messages(e3) == [third, inner];
    assert Messages(e2) == [second, third, inner];
    assert Messages(Chain4(outer, second, third, inner)) == [outer, second, third, inner];
  }

  /** The unit test's expectation: the innermost message first, the outermost last. */
  lemma ToStringOfChain4(outer: string, second: string, third: string, inner: string)
    ensures ToString(Chain4(outer, second, third, inner)) == inner + "\n" + third + "\n" + second + "\n" + outer
  {
    StackTraceOfChain4(outer, second, third, inner);
    JoinedCons(second, [outer], "\n");
    JoinedCons(third, [second] + [outer], "\n");
    JoinedCons(inner, [third] + ([second] + [outer]), "\n");
  }

  // ---------------------------------------------------------------------
  // readPng, writePng

  /** The channels per pixel `readPng` asks lodepng for (RGBA). */
  const Depth: nat := 4

  /** The offset of channel `z` of pixel `(x, y)` in a row-major buffer. */
  function Offset(y: nat, x: nat, z: nat, width: nat, depth: nat): nat {
    y * (width * depth) + x * depth + z
  }

  lemma {:induction false} MulMono(a: nat, b: nat, c: nat)
    requires a <= b
    ensures a * c <= b * c
    decreases b - a
  {
    if a < b {
      MulMono(a + 1, b, c);
      assert (a + 1) * c == a * c + c;
    }
  }

  /** Channel offsets stay inside their pixel, pixel offsets inside their row. */
  lemma OffsetBound(y: nat, x: nat, z: nat, width: nat, height: nat, depth: nat)
    requires y < height && x < width && z < depth
    ensures x * depth + z < width * depth
    ensures Offset(y, x, z, width, depth) < height * (width * depth)
  {
    MulMono(x + 1, width, depth);
    assert (x + 1) * depth == x * depth + depth;
    MulMono(y + 1, height, width * depth);
    assert (y + 1) * (width * depth) == y * (width * depth) + width * depth;
  }

  lemma OffsetsBounded(width: nat, height: nat, depth: nat)
    ensures forall y, x, z :: 0 <= y < height && 0 <= x < width && 0 <= z < depth ==>
      Offset(y, x, z, width, depth) < height * (width * depth)
  {
    forall y, x, z | 0 <= y < height && 0 <= x < width && 0 <= z < depth
      ensures Offset(y, x, z, width, depth) < height * (width * depth)
    {
      OffsetBound(y, x, z, width, height, depth);
    }
  }

  /** The image shape `height x width x depth`. */
  predicate Shaped<T>(image: seq<seq<seq<T>>>, height: nat, width: nat, depth: nat) {
    && |image| == height
    && (forall y :: 0 <= y < height ==> |image[y]| == width)
    && (forall y, x :: 0 <= y < height && 0 <= x < width ==> |image[y][x]| == depth)
  }

  /** The loops of `readPng`: `image[y][x][z] = pixels[y * width * 4 + x * 4 + z]`. */
  function Unflatten<T>(pixels: seq<T>, width: nat, height: nat): (r: seq<seq<seq<T>>>)
    requires |pixels| == height * (width * Depth)
    ensures Shaped(r, height, width, Depth)
    ensures forall y, x, z :: 0 <= y < height && 0 <= x < width && 0 <= z < Depth && Offset(y, x, z, width, Depth) < |pixels| ==>
      r[y][x][z] == pixels[Offset(y, x, z, width, Depth)]
  {
    OffsetsBounded(width, height, Depth);
    seq(height, (y: int) requires 0 <= y < height =>
      seq(width, (x: int) requires 0 <= x < width =>
        seq(Depth, (z: int) requires 0 <= z < Depth =>
          pixels[Offset(y, x, z, width, Depth)])))
  }

  /** `readPng`: a decoder error (non-zero) is an exception; otherwise lodepng
      yields `height * width * 4` bytes, reshaped. */
  function ReadPng<T>(decodeError: nat, pixels: seq<T>, width: nat, height: nat): (r: Result<seq<seq<seq<T>>>, string>)
    requires decodeError == 0 ==> |pixels| == height * (width * Depth)
    ensures r.Err? <==> decodeError != 0
    ensures r.Ok? ==> Shaped(r.value, height, width, Depth) && r.value == Unflatten(pixels, width, height)
  {
    if decodeError != 0 then Err("failed to read image")
    else Ok(Unflatten(pixels, width, height))
  }

  function Concat<T>(parts: seq<seq<T>>): seq<T>
    decreases |parts|
  {
    if |parts| == 0 then [] else parts[0] + Concat(parts[1..])
  }

  lemma {:induction false} ConcatLength<T>(parts: seq<seq<T>>, n: nat)
    requires forall k :: 0 <= k < |parts| ==> |parts[k]| == n
    ensures |Concat(parts)| == |parts| * n
    decreases |parts|
  {
    if |parts| > 0 {
      ConcatLength(parts[1..], n);
      assert |parts| * n == n + (|parts| - 1) * n;
    }
  }

  /** Concatenating equal-length parts places element `j` of part `k` at `k * n + j`. */
  lemma {:induction false} ConcatAt<T>(parts: seq<seq<T>>, n: nat, k: nat, j: nat)
    requires forall k :: 0 <= k < |parts| ==> |parts[k]| == n
    requires k < |parts| && j < n
    ensures k * n + j < |Concat(parts)| && Concat(parts)[k * n + j] == parts[k][j]
    decreases k
  {
    ConcatLength(parts, n);
    if k > 0 {
      var rest := parts[1..];
      ConcatAt(rest, n, k - 1, j);
      assert k * n + j == n + ((k - 1) * n + j);
    }
  }

  /** The loops of `writePng`: pixels in row-major `y, x, z` order. */
  function Flatten<T>(image: seq<seq<seq<T>>>): seq<T> {
    Concat(seq(|image|, (y: int) requires 0 <= y < |image| => Concat(image[y])))
  }

  /** Channel `z` of pixel `(x, y)` lands at the offset `readPng` reads it from. */
  lemma FlattenAt<T>(image: seq<seq<seq<T>>>, height: nat, width: nat, depth: nat, y: nat, x: nat, z: nat)
    requires Shaped(image, height, width, depth)
    requires y < height && x < width && z < depth
    ensures |Flatten(image)| == height * (width * depth)
    ensures Offset(y, x, z, width, depth) < |Flatten(image)|
    ensures Flatten(image)[Offset(y, x, z, width, depth)] == image[y][x][z]
  {
    var rows := seq(|image|, (y: int) requires 0 <= y < |image| => Concat(image[y]));
    forall k | 0 <= k < height ensures |rows[k]| == width * depth {
      ConcatLength(image[k], depth);
    }
    ConcatLength(rows, width * depth);
    OffsetBound(y, x, z, width, height, depth);
    ConcatAt(image[y], depth, x, z);
    ConcatAt(rows, width * depth, y, x * depth + z);
  }

  lemma FlattenIndex<T>(image: seq<seq<seq<T>>>, height: nat, width: nat, depth: nat)
    requires Shaped(image, height, width, depth)
    ensures |Flatten(image)| == height * (width * depth)
    ensures forall y, x, z :: 0 <= y < height && 0 <= x < width && 0 <= z < depth ==>
      Offset(y, x, z, width, depth) < |Flatten(image)| && Flatten(image)[Offset(y, x, z, width, depth)] == image[y][x][z]
  {
    var rows := seq(|image|, (y: int) requires 0 <= y < |image| => Concat(image[y]));
    forall k | 0 <= k < height ensures |rows[k]| == width * depth {
      ConcatLength(image[k], depth);
    }
    ConcatLength(rows, width * depth);
    forall y, x, z | 0 <= y < height && 0 <= x < width && 0 <= z < depth
      ensures Offset(y, x, z, width, depth) < |Flatten(image)| && Flatten(image)[Offset(y, x, z, width, depth)] == image[y][x][z]
    {
      FlattenAt(image, height, width, depth, y, x, z);
    }
  }

  /** The pixels `writePng` passes to the encoder, with width and height. */
  datatype Encoded<T> = Encoded(pixels: seq<T>, width: nat, height: nat)

  /** Every row has at least `width` pixels and each of those at least
      `depth` channels: all that the loops of `writePng` read. */
  predicate Covers<T>(image: seq<seq<seq<T>>>, width: nat, depth: nat) {
    && (forall y :: 0 <= y < |image| ==> |image[y]| >= width)
    && (forall y, x :: 0 <= y < |image| && 0 <= x < width ==> |image[y][x]| >= depth)
  }

  /** The part of `image` the loops of `writePng` read: `width` pixels per
      row and `depth` channels per pixel. */
  function Crop<T>(image: seq<seq<seq<T>>>, width: nat, depth: nat): (r: seq<seq<seq<T>>>)
    requires Covers(image, width, depth)
    ensures Shaped(r, |image|, width, depth)
    ensures forall y, x, z :: 0 <= y < |image| && 0 <= x < width && 0 <= z < depth ==> r[y][x][z] == image[y][x][z]
  {
    seq(|image|, (y: int) requires 0 <= y < |image| =>
      seq(width, (x: int) requires 0 <= x < width => image[y][x][..depth]))
  }

  /**
   * `writePng`: an image with no rows, no columns or no channels is an
   * exception; otherwise the pixels go to the encoder in row-major order,
   * and its non-zero error is an exception too. The loops take the width
   * and depth from the first row and pixel, so longer rows and pixels are
   * cut to them; shorter ones index out of bounds in the source.
   */
  function WritePng<T>(image: seq<seq<seq<T>>>, encodeError: nat): (r: Result<Encoded<T>, string>)
    requires |image| == 0 || |image[0]| == 0 || |image[0][0]| == 0 || Covers(image, |image[0]|, |image[0][0]|)
    ensures r.Ok? <==> |image| > 0 && |image[0]| > 0 && |image[0][0]| > 0 && encodeError == 0
    ensures r.Ok? ==> (
      && r.value.height == |image| && r.value.width == |image[0]|
      && |r.value.pixels| == |image| * (|image[0]| * |image[0][0]|)
      && forall y, x, z :: 0 <= y < |image| && 0 <= x < |image[0]| && 0 <= z < |image[0][0]| ==>
           Offset(y, x, z, |image[0]|, |image[0][0]|) < |r.value.pixels|
           && r.value.pixels[Offset(y, x, z, |image[0]|, |image[0][0]|)] == image[y][x][z])
  {
    if |image| == 0 || |image[0]| == 0 || |image[0][0]| == 0 then
      Err("image.empty() || image[0].empty() || image[0][0].empty()")
    else if encodeError != 0 then
      Err("failed to write image")
    else
      var cropped := Crop(image, |image[0]|, |image[0][0]|);
      FlattenIndex(cropped, |image|, |image[0]|, |image[0][0]|);
      Ok(Encoded(Flatten(cropped), |image[0]|, |image|))
  }

  /** A rectangular image is read whole: cropping it changes nothing. */
  lemma CropShaped<T>(image: seq<seq<seq<T>>>, height: nat, width: nat, depth: nat)
    requires Shaped(image, height, width, depth)
    ensures Covers(image, width, depth) && Crop(image, width, depth) == image
  {
    var r := Crop(image, width, depth);
    forall y | 0 <= y < height ensures r[y] == image[y] {
      forall x | 0 <= x < width ensures r[y][x] == image[y][x] {
        assert image[y][x][..depth] == image[y][x];
      }
    }
  }

  /** What `writePng` encodes from a `height x width x 4` image, `readPng`
      decodes back to that image. */
  lemma WriteThenRead<T>(image: seq<seq<seq<T>>>, height: nat, width: nat)
    requires height > 0 && width > 0 && Shaped(image, height, width, Depth)
    ensures var w := WritePng(image, 0);
      && w.Ok? && w.value.width == width && w.value.height == height
      && ReadPng(0, w.value.pixels, width, height) == Ok(image)
  {
    CropShaped(image, height, width, Depth);
    UnflattenFlatten(image, height, width);
  }

  /** Every offset below `height * width * depth` is the offset of one channel. */
  lemma Decompose(i: nat, width: nat, height: nat, depth: nat) returns (y: nat, x: nat, z: nat)
    requires i < height * (width * depth)
    ensures y < height && x < width && z < depth && i == Offset(y, x, z, width, depth)
  {
    var row := width * depth;
    assert row > 0;
    assert depth > 0;
    y := i / row;
    var rest := i % row;
    x := rest / depth;
    z := rest % depth;
    assert i == y * row + rest;
    assert rest == x * depth + z;
    if height <= y {
      MulMono(height, y, row);
    }
    if width <= x {
      MulMono(width, x, depth);
    }
  }

  /** Writing what was read hands the encoder the decoded buffer back. */
  lemma FlattenUnflatten<T>(pixels: seq<T>, width: nat, height: nat)
    requires |pixels| == height * (width * Depth)
    ensures Flatten(Unflatten(pixels, width, height)) == pixels
  {
    var image := Unflatten(pixels, width, height);
    FlattenIndex(image, height, width, Depth);
    var flat := Flatten(image);
    forall i | 0 <= i < |pixels| ensures flat[i] == pixels[i] {
      var y, x, z := Decompose(i, width, height, Depth);
    }
  }

  /** Reading what was written restores a `height x width x 4` image. */
  lemma UnflattenFlatten<T>(image: seq<seq<seq<T>>>, height: nat, width: nat)
    requires Shaped(image, height, width, Depth)
    ensures |Flatten(image)| == height * (width * Depth)
    ensures Unflatten(Flatten(image), width, height) == image
  {
    FlattenIndex(image, height, width, Depth);
    var back := Unflatten(Flatten(image), width, height);
    forall y | 0 <= y < height ensures back[y] == image[y] {
      forall x | 0 <= x < width ensures back[y][x] == image[y][x] {
        assert |back[y][x]| == |image[y][x]|;
      }
    }
  }
}
