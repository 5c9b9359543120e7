/**
  `reduceImageSize`: re-encode one image, optionally resized to a given
  width, and keep the result only when it is strictly smaller than the input.
  The filesystem is a map from path to file size in bytes; the imaging
  library is an oracle that reports the decoded dimensions and the number of
  bytes the encoder writes.
 */
module Transcoder {
  import opened Wrappers
  import opened PosixPath
  import opened Params

  /** The files that exist, with their sizes in bytes. */
  type FileSystem = map<Path, nat>

  /** Pixel dimensions, `img.size`. */
  datatype Dimensions = Dimensions(width: nat, height: nat)

  /**
    The imaging library as `reduceImageSize` uses it. `open(p)` is the size
    of the image `Image.open(p)` decodes, or `None` when it raises;
    `save(p, dims, quality)` is the number of bytes the JPEG encoder writes for
    the image read from `p`, resampled to `dims`, at `quality`.
   */
  datatype Codec = Codec(open: Path -> Option<Dimensions>, save: (Path, Dimensions, nat) -> nat)

  /** The exceptions that leave `reduceImageSize`. */
  datatype Fault =
    | LoadFailed   // `Image.open` raised: missing, unreadable or unrecognised file
    | ZeroWidth    // `img.height / img.width` raised `ZeroDivisionError`

  /** The sizes and dimensions the success log block reports. */
  datatype Report = Report(inputSize: nat, outputSize: nat, originalDims: Dimensions, newDims: Dimensions)

  /**
    How a call of `reduceImageSize` ends: by raising, or by returning `kept`
    (`True` or `False`) with the filesystem it leaves behind.
   */
  datatype Transcode =
    | Raised(fault: Fault)
    | Finished(fs: FileSystem, kept: bool, report: Report)

  /** `q` is the integer part of `a / b`, for a positive `b`. */
  ghost predicate IsFloorQuotient(q: nat, a: nat, b: nat) {
    q * b <= a < (q + 1) * b
  }

  /**
    The dimensions after the optional resize: the requested width and the
    height scaled by the aspect ratio and truncated by `int()`. `None` when
    the aspect ratio divides by a zero width.
   */
  function Resize(original: Dimensions, width: Option<nat>): (r: Option<Dimensions>)
    ensures !ResizeRequested(width) ==> r == Some(original)
    ensures ResizeRequested(width) ==> (r.None? <==> original.width == 0)
    ensures ResizeRequested(width) && r.Some? ==>
      r.value.width == width.value && IsFloorQuotient(r.value.height, width.value * original.height, original.width)
  {
    if ResizeRequested(width) then
      if original.width == 0 then None
      else Some(Dimensions(width.value, width.value * original.height / original.width))
    else Some(original)
  }

  /** There is only one integer part of a quotient. */
  lemma FloorQuotientUnique(q: nat, q': nat, a: nat, b: nat)
    requires IsFloorQuotient(q, a, b) && IsFloorQuotient(q', a, b)
    ensures q == q'
  {
  }

  /** Resizing to the width the image already has keeps its height too. */
  lemma ResizeToOwnWidth(original: Dimensions)
    requires original.width > 0
    ensures Resize(original, Some(original.width)) == Some(original)
  {
    var r := Resize(original, Some(original.width));
    assert IsFloorQuotient(original.height, original.width * original.height, original.width);
    FloorQuotientUnique(r.value.height, original.height, original.width * original.height, original.width);
  }

  /**
    `reduceImageSize(input, output, quality, width)`: decode `input`, resize
    it when a width is requested, write it to `output`, then compare the two
    file sizes; when the new file is not strictly smaller it is removed and
    the call returns `False`.
   */
  function ReduceImageSize(fs: FileSystem, codec: Codec, input: Path, output: Path, quality: nat, width: Option<nat>): (r: Transcode)
    ensures input !in fs || codec.open(input).None? ==> r == Raised(LoadFailed)
    ensures input in fs && codec.open(input).Some? ==>
      (r.Raised? <==> ResizeRequested(width) && codec.open(input).value.width == 0)
    ensures r.Finished? ==>
      && r.report.originalDims == codec.open(input).value
      && Resize(r.report.originalDims, width) == Some(r.report.newDims)
      && r.report.outputSize == codec.save(input, r.report.newDims, quality)
    ensures r.Finished? && input != output ==> r.report.inputSize == fs[input]
    ensures r.Finished? ==> (r.kept <==> r.report.outputSize < r.report.inputSize)
    ensures r.Finished? ==> (output in r.fs <==> r.kept)
    ensures r.Finished? && r.kept ==> r.fs[output] == r.report.outputSize
    ensures r.Finished? ==> r.fs - {output} == fs - {output}
  {
    if input !in fs || codec.open(input).None? then Raised(LoadFailed)
    else
      var original := codec.open(input).value;
      match Resize(original, width)
      case None => Raised(ZeroWidth)
      case Some(dims) =>
        var written := fs[output := codec.save(input, dims, quality)];
        var report := Report(written[input], written[output], original, dims);
        if report.outputSize >= report.inputSize then Finished(written - {output}, false, report)
        else Finished(written, true, report)
  }

  /**
    Writing the compressed copy over the input itself can never keep it: the
    sizes compared are equal, so the input file is removed. Only an output
    path different from the input is safe.
   */
  lemma OutputOverInputDeletesIt(fs: FileSystem, codec: Codec, p: Path, quality: nat, width: Option<nat>)
    requires p in fs && codec.open(p).Some?
    requires !ResizeRequested(width) || codec.open(p).value.width > 0
    ensures var r := ReduceImageSize(fs, codec, p, p, quality, width);
      r.Finished? && !r.kept && p !in r.fs
  {
    var r := ReduceImageSize(fs, codec, p, p, quality, width);
    assert r.report.inputSize == r.report.outputSize;
  }

  /** When input and output differ, the input file is never changed. */
  lemma InputUntouched(fs: FileSystem, codec: Codec, input: Path, output: Path, quality: nat, width: Option<nat>)
    requires input != output
    ensures var r := ReduceImageSize(fs, codec, input, output, quality, width);
      r.Finished? ==> input in r.fs && r.fs[input] == fs[input]
  {
    var r := ReduceImageSize(fs, codec, input, output, quality, width);
    if r.Finished? {
      assert input in fs - {output};
      assert input in r.fs - {output};
    }
  }
}
