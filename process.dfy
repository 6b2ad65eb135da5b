/**
 * `process_real_image_from_file` without its I/O: parse the lines, run both
 * passes at the default threshold, and write the grey file and then the binary
 * file. A write that raises ends the processing, so the binary file is only
 * written after the grey file was written in full.
 */
module Process {
  import opened Wrappers
  import opened Text
  import opened Pixels
  import opened Pipeline
  import opened Pgm
  import opened ImageSource

  /** One output file: its name and what the writer left in it. */
  datatype SavedFile = SavedFile(name: string, contents: WriteOutcome)

  /** How processing ended: the text did not parse, a write raised, or both files were saved. */
  datatype ProcessOutcome =
    | LoadFailed(parseError: ParseError)
    | WriteFailed(image: TextImage, files: seq<SavedFile>, writeError: WriteError)
    | Saved(image: TextImage, files: seq<SavedFile>)

  function GrayFileName(filename: string): string {
    filename + "_cinza.pgm"
  }

  function BinaryFileName(filename: string): string {
    filename + "_binaria.pgm"
  }

  /** `process_real_image_from_file(filename)` over the lines the file holds. */
  function ProcessRealImage(filename: string, lines: seq<string>): (o: ProcessOutcome)
    ensures o.LoadFailed? <==> ParseImageText(lines).Err?
    ensures o.LoadFailed? ==> o.parseError == ParseImageText(lines).error
    ensures !o.LoadFailed? ==> o.image == ParseImageText(lines).value
  {
    match ParseImageText(lines)
    case Err(e) => LoadFailed(e)
    case Ok(image) => SaveImage(filename, image)
  }

  /** What happens after the text parsed: both passes at the default threshold, then the two writes. */
  function SaveImage(filename: string, image: TextImage): (o: ProcessOutcome)
    ensures !o.LoadFailed? && o.image == image
    ensures 1 <= |o.files| <= 2 && o.files[0].name == GrayFileName(filename)
    ensures o.Saved? ==> |o.files| == 2 && o.files[1].name == BinaryFileName(filename)
  {
    var gray := GrayscaleOf(image.pixels);
    var binary := BinaryOf(gray, DefaultThreshold);
    var grayFile := SavedFile(GrayFileName(filename), SimpleImage(image.width, image.height, gray));
    if grayFile.contents.failure.Some? then
      WriteFailed(image, [grayFile], grayFile.contents.failure.value)
    else
      var binaryFile := SavedFile(BinaryFileName(filename), SimpleImage(image.width, image.height, binary));
      if binaryFile.contents.failure.Some? then
        WriteFailed(image, [grayFile, binaryFile], binaryFile.contents.failure.value)
      else Saved(image, [grayFile, binaryFile])
  }

  /** The binary file of a grey image always receives its header and every pixel: 0 and 255 are bytes. */
  lemma BinaryFileAlwaysWritten(width: int, height: int, gray: seq<int>)
    ensures SimpleImage(width, height, BinaryOf(gray, DefaultThreshold)).failure == None
  {
    BinaryOfIsBinary(gray, DefaultThreshold);
    SimpleImageLayout(width, height, BinaryOf(gray, DefaultThreshold), DefaultImageType);
  }

  /**
   * Once the text has parsed, processing fails only when some pixel's luma is
   * not a byte; the grey file then holds the header and the grey values before
   * it, and the binary file is not written.
   */
  lemma SaveImageFailure(filename: string, image: TextImage)
    ensures SaveImage(filename, image).WriteFailed? <==> !AllBytes(GrayscaleOf(image.pixels))
    ensures SaveImage(filename, image).WriteFailed? ==>
      var o := SaveImage(filename, image);
      |o.files| == 1 && o.files[0].name == GrayFileName(filename) && o.writeError.PixelOutOfRange?
  {
    var gray := GrayscaleOf(image.pixels);
    SimpleImageLayout(image.width, image.height, gray, DefaultImageType);
    BinaryFileAlwaysWritten(image.width, image.height, gray);
    if !AllBytes(gray) {
      SimpleImagePartialWrite(image.width, image.height, gray, DefaultImageType);
    }
  }

  /**
   * When every channel read from the text is a byte, both files are saved:
   * the grey file holds the header and one luma per pixel, the binary file the
   * header and one 0-or-255 value per pixel, both in file order.
   */
  lemma SaveColorImage(filename: string, image: TextImage)
    requires forall i :: 0 <= i < |image.pixels| ==> IsColor(image.pixels[i])
    ensures SaveImage(filename, image).Saved?
    ensures var header := Header(DefaultImageType, image.width, image.height);
      var gray := GrayscaleOf(image.pixels);
      var binary := BinaryOf(gray, DefaultThreshold);
      IsAscii(header) &&
      var files := SaveImage(filename, image).files;
      |files| == 2 &&
      files[0].name == GrayFileName(filename) && files[0].contents.failure == None &&
      files[0].contents.written == AsciiBytes(header) + gray &&
      files[1].name == BinaryFileName(filename) && files[1].contents.failure == None &&
      files[1].contents.written == AsciiBytes(header) + binary &&
      |gray| == |binary| == |image.pixels| && IsBinaryImage(binary)
  {
    var gray := GrayscaleOf(image.pixels);
    var binary := BinaryOf(gray, DefaultThreshold);
    GrayscaleOfColorsAreBytes(image.pixels);
    GrayscaleOfAt(image.pixels);
    BinaryOfAt(gray, DefaultThreshold);
    SaveImageFailure(filename, image);
    SimpleImageLayout(image.width, image.height, gray, DefaultImageType);
    BinaryOfIsBinary(gray, DefaultThreshold);
    SimpleImageLayout(image.width, image.height, binary, DefaultImageType);
  }

  /** Every text the parser accepts whose channels are bytes ends with both files saved. */
  lemma ProcessColorText(filename: string, lines: seq<string>)
    requires ParseImageText(lines).Ok?
    requires forall i :: 0 <= i < |ParseImageText(lines).value.pixels| ==> IsColor(ParseImageText(lines).value.pixels[i])
    ensures ProcessRealImage(filename, lines) == SaveImage(filename, ParseImageText(lines).value)
    ensures ProcessRealImage(filename, lines).Saved?
  {
    SaveColorImage(filename, ParseImageText(lines).value);
  }
}
