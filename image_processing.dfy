/**
 * The transform stage (`process_image`): open the source, reject oversized
 * inputs and outputs, shrink at most once (never enlarge), and encode with
 * fixed per-format parameters. The four libvips operations are parameters:
 * each may fail with the library's error text, and the model records, in
 * order, which of them it called.
 */
module ImageProcessing {
  import opened Base
  import opened Text
  import opened AppErrors

  /** Sources wider or taller than this are refused before any resize work. */
  const MAX_INPUT_DIMENSION: int := 5000

  /** Requested widths or heights above this are refused. */
  const MAX_OUTPUT_DIMENSION: int := 4000

  /** What the handler asks for: target sizes from the query and the negotiated suffix. */
  datatype ProcessOptions = ProcessOptions(width: Option<i32>, height: Option<i32>, formatSuffix: string)

  /** A decoded `VipsImage`, reduced to the dimensions the transform reads; `pixels` stands for everything else. */
  datatype Image = Image(width: i32, height: i32, pixels: seq<byte>)

  /**
   * The libvips operations `process_image` calls. `resize` receives the target
   * and current heights whose quotient is the scale factor.
   */
  datatype Vips = Vips(
    newFromFile: string -> Result<Image, string>,
    thumbnailImage: (Image, i32) -> Result<Image, string>,
    resize: (Image, i32, i32) -> Result<Image, string>,
    writeToBuffer: (Image, string) -> Result<seq<byte>, string>)

  /** One call into libvips, with the arguments that matter. */
  datatype VipsCall =
    | NewFromFile(path: string)
    | ThumbnailImage(width: i32)
    | Resize(targetHeight: i32, currentHeight: i32)
    | WriteToBuffer(options: string)

  /** The transform's result and the libvips calls it made, in order. */
  datatype Processed = Processed(result: Result<seq<byte>, AppError>, calls: seq<VipsCall>)

  function InputTooLargeMessage(): string
  {
    "Image exceed the max allowed size of " + Decimal(MAX_INPUT_DIMENSION) + "x" + Decimal(MAX_INPUT_DIMENSION)
  }

  /** The rejection text for a too-large target; the source uses it for heights as well as widths. */
  function OutputTooLargeMessage(target: i32): string
  {
    "Requested width (" + Decimal(target) + ") exceeds the limit of " + Decimal(MAX_OUTPUT_DIMENSION)
  }

  /**
   * The libvips save string for a suffix: AVIF at quality 50 and speed 6, WebP
   * at quality 75, anything else (`.png`, `.jpg`) with the encoder's defaults.
   */
  function EncoderOptions(suffix: string): (r: string)
    ensures suffix <= r
    ensures r == suffix <==> suffix != ".avif" && suffix != ".webp"
    ensures suffix == ".avif" ==> r == ".avif[Q=50,speed=6]"
    ensures suffix == ".webp" ==> r == ".webp[Q=75]"
  {
    if suffix == ".avif" then suffix + "[Q=50,speed=6]"
    else if suffix == ".webp" then suffix + "[Q=75]"
    else suffix
  }

  /** Wraps a libvips failure as the source's `?` does. */
  function VipsResult<T>(r: Result<T, string>): Result<T, AppError>
  {
    match r
    case Ok(v) => Ok(v)
    case Err(cause) => Err(VipsError(cause))
  }

  /** The sizing stage, once the input checks passed: the image to encode, and the resize calls made. */
  function Size(lib: Vips, image: Image, o: ProcessOptions): (Result<Image, AppError>, seq<VipsCall>)
  {
    match o.width
    case Some(w) =>
      if w > MAX_OUTPUT_DIMENSION then (Err(ValidationError(OutputTooLargeMessage(w))), [])
      else if w < image.width then (VipsResult(lib.thumbnailImage(image, w)), [ThumbnailImage(w)])
      else (Ok(image), [])
    case None =>
      match o.height
      case Some(h) =>
        if h > MAX_OUTPUT_DIMENSION then (Err(ValidationError(OutputTooLargeMessage(h))), [])
        else if h < image.height then (VipsResult(lib.resize(image, h, image.height)), [Resize(h, image.height)])
        else (Ok(image), [])
      case None => (Ok(image), [])
  }

  /** The encoding stage: the save string for the suffix, and the call that writes the buffer. */
  function Encode(lib: Vips, image: Image, suffix: string): Processed
  {
    var options := EncoderOptions(suffix);
    Processed(VipsResult(lib.writeToBuffer(image, options)), [WriteToBuffer(options)])
  }

  /** `process_image`, as a function of the library, the source path and the options. */
  function Process(lib: Vips, sourcePath: string, o: ProcessOptions): Processed
  {
    match lib.newFromFile(sourcePath)
    case Err(cause) => Processed(Err(VipsError(cause)), [NewFromFile(sourcePath)])
    case Ok(image) =>
      if image.width > MAX_INPUT_DIMENSION || image.height > MAX_INPUT_DIMENSION then
        Processed(Err(ValidationError(InputTooLargeMessage())), [NewFromFile(sourcePath)])
      else
        var (sized, resizeCalls) := Size(lib, image, o);
        match sized
        case Err(e) => Processed(Err(e), [NewFromFile(sourcePath)] + resizeCalls)
        case Ok(out) =>
          var encoded := Encode(lib, out, o.formatSuffix);
          Processed(encoded.result, [NewFromFile(sourcePath)] + resizeCalls + encoded.calls)
  }

  /**
   * `process_image` step by step: `image` is reassigned by the one resize
   * that may happen, and every check returns early.
   */
  method ProcessImage(lib: Vips, sourcePath: string, options: ProcessOptions)
    returns (result: Result<seq<byte>, AppError>, calls: seq<VipsCall>)
    ensures Processed(result, calls) == Process(lib, sourcePath, options)
  {
    calls := [NewFromFile(sourcePath)];
    var decoded := lib.newFromFile(sourcePath);
    if decoded.Err? {
      return Err(VipsError(decoded.error)), calls;
    }
    var image := decoded.value;

    var currentWidth := image.width;
    var currentHeight := image.height;
    if currentWidth > MAX_INPUT_DIMENSION || currentHeight > MAX_INPUT_DIMENSION {
      return Err(ValidationError(InputTooLargeMessage())), calls;
    }

    if options.width.Some? {
      var targetWidth := options.width.value;
      if targetWidth > MAX_OUTPUT_DIMENSION {
        return Err(ValidationError(OutputTooLargeMessage(targetWidth))), calls;
      }
      if targetWidth < currentWidth {
        calls := calls + [ThumbnailImage(targetWidth)];
        var thumbnail := lib.thumbnailImage(image, targetWidth);
        if thumbnail.Err? {
          return Err(VipsError(thumbnail.error)), calls;
        }
        image := thumbnail.value;
      }
    } else if options.height.Some? {
      var targetHeight := options.height.value;
      if targetHeight > MAX_OUTPUT_DIMENSION {
        return Err(ValidationError(OutputTooLargeMessage(targetHeight))), calls;
      }
      if targetHeight < currentHeight {
        calls := calls + [Resize(targetHeight, currentHeight)];
        var resized := lib.resize(image, targetHeight, currentHeight);
        if resized.Err? {
          return Err(VipsError(resized.error)), calls;
        }
        image := resized.value;
      }
    }

    var optionsString := EncoderOptions(options.formatSuffix);
    calls := calls + [WriteToBuffer(optionsString)];
    var buffer := lib.writeToBuffer(image, optionsString);
    if buffer.Err? {
      return Err(VipsError(buffer.error)), calls;
    }
    result := Ok(buffer.value);
  }

  // ---------------------------------------------------------------------------
  // Properties of the transform
  // ---------------------------------------------------------------------------

  lemma DecimalCeilings()
    ensures Decimal(MAX_INPUT_DIMENSION) == "5000" && Decimal(MAX_OUTPUT_DIMENSION) == "4000"
  {
    assert DigitChar(0) == '0' && DigitChar(4) == '4' && DigitChar(5) == '5';
    assert Radix(50, 10) == Radix(5, 10) + "0" == "50";
    assert Radix(500, 10) == Radix(50, 10) + "0" == "500";
    assert Decimal(5000) == Radix(500, 10) + "0" == "5000";
    assert Radix(40, 10) == Radix(4, 10) + "0" == "40";
    assert Radix(400, 10) == Radix(40, 10) + "0" == "400";
    assert Decimal(4000) == Radix(400, 10) + "0" == "4000";
  }

  /** The rejection texts name the ceilings and, for a too-large target, the target itself. */
  lemma CeilingMessages(t: i32)
    ensures InputTooLargeMessage() == "Image exceed the max allowed size of 5000x5000"
    ensures OutputTooLargeMessage(t) == "Requested width (" + Decimal(t) + ") exceeds the limit of 4000"
  {
    DecimalCeilings();
  }

  /** A source over 5000 pixels in either dimension is refused whatever the options, before any other call. */
  lemma InputCeiling(lib: Vips, sourcePath: string, o: ProcessOptions, image: Image)
    requires lib.newFromFile(sourcePath) == Ok(image)
    requires image.width > MAX_INPUT_DIMENSION || image.height > MAX_INPUT_DIMENSION
    ensures Process(lib, sourcePath, o) == Processed(Err(ValidationError(InputTooLargeMessage())), [NewFromFile(sourcePath)])
  {
  }

  /** The input ceiling is inclusive: a 5000 by 5000 source is never refused as too large. */
  lemma InputCeilingInclusive(lib: Vips, sourcePath: string, o: ProcessOptions, image: Image)
    requires lib.newFromFile(sourcePath) == Ok(image)
    requires image.width <= MAX_INPUT_DIMENSION && image.height <= MAX_INPUT_DIMENSION
    ensures Process(lib, sourcePath, o).result != Err(ValidationError(InputTooLargeMessage()))
  {
    var p := Process(lib, sourcePath, o);
    if p.result.Err? && p.result.error.ValidationError? {
      var t := if o.width.Some? then o.width.value else o.height.value;
      assert p.result.error.message == OutputTooLargeMessage(t);
      assert OutputTooLargeMessage(t)[0] == 'R';
      assert InputTooLargeMessage()[0] == 'I';
    }
  }

  /** A requested width over 4000 is refused, with no call after opening the source. */
  lemma WidthCeiling(lib: Vips, sourcePath: string, o: ProcessOptions, image: Image)
    requires lib.newFromFile(sourcePath) == Ok(image)
    requires image.width <= MAX_INPUT_DIMENSION && image.height <= MAX_INPUT_DIMENSION
    requires o.width.Some? && o.width.value > MAX_OUTPUT_DIMENSION
    ensures Process(lib, sourcePath, o)
         == Processed(Err(ValidationError(OutputTooLargeMessage(o.width.value))), [NewFromFile(sourcePath)])
  {
  }

  /** When a width is given, the height (present or not, of any value) has no influence at all. */
  lemma WidthIgnoresHeight(lib: Vips, sourcePath: string, width: i32, h1: Option<i32>, h2: Option<i32>, suffix: string)
    ensures Process(lib, sourcePath, ProcessOptions(Some(width), h1, suffix))
         == Process(lib, sourcePath, ProcessOptions(Some(width), h2, suffix))
  {
  }

  /** A permitted width below the source width makes exactly one thumbnail call, and its output is what is encoded. */
  lemma WidthShrinks(lib: Vips, sourcePath: string, o: ProcessOptions, image: Image)
    requires lib.newFromFile(sourcePath) == Ok(image)
    requires image.width <= MAX_INPUT_DIMENSION && image.height <= MAX_INPUT_DIMENSION
    requires o.width.Some? && o.width.value <= MAX_OUTPUT_DIMENSION && o.width.value < image.width
    ensures var p := Process(lib, sourcePath, o);
      match lib.thumbnailImage(image, o.width.value)
      case Ok(thumbnail) =>
        p.result == Encode(lib, thumbnail, o.formatSuffix).result
        && p.calls == [NewFromFile(sourcePath), ThumbnailImage(o.width.value), WriteToBuffer(EncoderOptions(o.formatSuffix))]
      case Err(cause) =>
        p == Processed(Err(VipsError(cause)), [NewFromFile(sourcePath), ThumbnailImage(o.width.value)])
  {
  }

  /** A width at or above the source width re-encodes the source as it is: no upscaling. */
  lemma WidthNoUpscale(lib: Vips, sourcePath: string, o: ProcessOptions, image: Image)
    requires lib.newFromFile(sourcePath) == Ok(image)
    requires image.width <= MAX_INPUT_DIMENSION && image.height <= MAX_INPUT_DIMENSION
    requires o.width.Some? && image.width <= o.width.value <= MAX_OUTPUT_DIMENSION
    ensures Process(lib, sourcePath, o).result == Encode(lib, image, o.formatSuffix).result
    ensures Process(lib, sourcePath, o).calls == [NewFromFile(sourcePath), WriteToBuffer(EncoderOptions(o.formatSuffix))]
  {
  }

  /** Without a width, a height over 4000 is refused, and the message still speaks of a width. */
  lemma HeightCeiling(lib: Vips, sourcePath: string, o: ProcessOptions, image: Image)
    requires lib.newFromFile(sourcePath) == Ok(image)
    requires image.width <= MAX_INPUT_DIMENSION && image.height <= MAX_INPUT_DIMENSION
    requires o.width.None? && o.height.Some? && o.height.value > MAX_OUTPUT_DIMENSION
    ensures Process(lib, sourcePath, o)
         == Processed(Err(ValidationError(OutputTooLargeMessage(o.height.value))), [NewFromFile(sourcePath)])
    ensures "Requested width (" <= OutputTooLargeMessage(o.height.value)
  {
  }

  /** Without a width, a permitted height below the source height makes exactly one scale resize. */
  lemma HeightShrinks(lib: Vips, sourcePath: string, o: ProcessOptions, image: Image)
    requires lib.newFromFile(sourcePath) == Ok(image)
    requires image.width <= MAX_INPUT_DIMENSION && image.height <= MAX_INPUT_DIMENSION
    requires o.width.None? && o.height.Some?
    requires o.height.value <= MAX_OUTPUT_DIMENSION && o.height.value < image.height
    ensures var p := Process(lib, sourcePath, o);
      var h := o.height.value;
      match lib.resize(image, h, image.height)
      case Ok(resized) =>
        p.result == Encode(lib, resized, o.formatSuffix).result
        && p.calls == [NewFromFile(sourcePath), Resize(h, image.height), WriteToBuffer(EncoderOptions(o.formatSuffix))]
      case Err(cause) =>
        p == Processed(Err(VipsError(cause)), [NewFromFile(sourcePath), Resize(h, image.height)])
  {
  }

  /** A height at or above the source height, or no target at all, re-encodes the source as it is. */
  lemma HeightNoUpscale(lib: Vips, sourcePath: string, o: ProcessOptions, image: Image)
    requires lib.newFromFile(sourcePath) == Ok(image)
    requires image.width <= MAX_INPUT_DIMENSION && image.height <= MAX_INPUT_DIMENSION
    requires o.width.None?
    requires o.height.Some? ==> image.height <= o.height.value <= MAX_OUTPUT_DIMENSION
    ensures Process(lib, sourcePath, o).result == Encode(lib, image, o.formatSuffix).result
    ensures Process(lib, sourcePath, o).calls == [NewFromFile(sourcePath), WriteToBuffer(EncoderOptions(o.formatSuffix))]
  {
  }

  /**
   * Over all inputs: the source is opened first; at most one resizing call is
   * made, right after it, and it always shrinks; a successful transform ends
   * with exactly one encode, using the suffix's save string; the source is
   * opened once and nothing is encoded before the last call.
   */
  lemma CallsShrinkAtMostOnce(lib: Vips, sourcePath: string, o: ProcessOptions)
    ensures var p := Process(lib, sourcePath, o);
      && 1 <= |p.calls| <= 3
      && p.calls[0] == NewFromFile(sourcePath)
      && (forall i :: 0 <= i < |p.calls| && p.calls[i].ThumbnailImage? ==>
            i == 1 && o.width.Some? && p.calls[i].width == o.width.value
            && lib.newFromFile(sourcePath).Ok? && p.calls[i].width < lib.newFromFile(sourcePath).value.width)
      && (forall i :: 0 <= i < |p.calls| && p.calls[i].Resize? ==>
            i == 1 && o.width.None? && o.height.Some? && p.calls[i].targetHeight == o.height.value
            && lib.newFromFile(sourcePath).Ok?
            && p.calls[i].targetHeight < p.calls[i].currentHeight == lib.newFromFile(sourcePath).value.height)
      && (p.result.Ok? ==> p.calls[|p.calls| - 1] == WriteToBuffer(EncoderOptions(o.formatSuffix)))
      && (forall i :: 0 < i < |p.calls| ==> !p.calls[i].NewFromFile?)
      && (forall i :: 0 <= i < |p.calls| - 1 ==> !p.calls[i].WriteToBuffer?)
  {
  }
}
