/**
 * The two image passes. Each walks its input once, in order, and appends one
 * output value per input value; the functions below say what the loops build.
 */
module Pipeline {
  import opened Pixels

  /** The grey image of a colour image, built by appending one luma per pixel. */
  function GrayscaleOf(image: seq<Rgb>): seq<int> {
    if image == [] then []
    else GrayscaleOf(image[..|image| - 1]) + [Luma(image[|image| - 1])]
  }

  /** The binary image of a grey image, built by appending one thresholded value per pixel. */
  function BinaryOf(gray: seq<int>, threshold: int): seq<int> {
    if gray == [] then []
    else BinaryOf(gray[..|gray| - 1], threshold) + [Binarize(gray[|gray| - 1], threshold)]
  }

  /** Every value is black or white. */
  predicate IsBinaryImage(s: seq<int>) {
    forall i :: 0 <= i < |s| ==> s[i] == Black || s[i] == White
  }

  lemma {:induction false} GrayscaleOfAt(image: seq<Rgb>)
    ensures |GrayscaleOf(image)| == |image|
    ensures forall i :: 0 <= i < |image| ==> GrayscaleOf(image)[i] == Luma(image[i])
  {
    if image != [] {
      GrayscaleOfAt(image[..|image| - 1]);
    }
  }

  lemma {:induction false} BinaryOfAt(gray: seq<int>, threshold: int)
    ensures |BinaryOf(gray, threshold)| == |gray|
    ensures forall i :: 0 <= i < |gray| ==> BinaryOf(gray, threshold)[i] == Binarize(gray[i], threshold)
  {
    if gray != [] {
      BinaryOfAt(gray[..|gray| - 1], threshold);
    }
  }

  /** A colour image whose channels are bytes has a grey image of bytes. */
  lemma GrayscaleOfColorsAreBytes(image: seq<Rgb>)
    requires forall i :: 0 <= i < |image| ==> IsColor(image[i])
    ensures forall i :: 0 <= i < |GrayscaleOf(image)| ==> IsByte(GrayscaleOf(image)[i])
  {
    GrayscaleOfAt(image);
  }

  /** Whatever the grey values and the threshold, the binary pass yields only 0 and 255. */
  lemma BinaryOfIsBinary(gray: seq<int>, threshold: int)
    ensures IsBinaryImage(BinaryOf(gray, threshold))
  {
    BinaryOfAt(gray, threshold);
  }

  /** With a threshold in 1..255 an image that is already binary comes back unchanged. */
  lemma BinaryOfFixesBinary(s: seq<int>, threshold: int)
    requires IsBinaryImage(s)
    requires 1 <= threshold <= 255
    ensures BinaryOf(s, threshold) == s
  {
    BinaryOfAt(s, threshold);
  }

  /** Binarising twice with the same threshold in 1..255 is the same as binarising once. */
  lemma BinaryOfIdempotent(gray: seq<int>, threshold: int)
    requires 1 <= threshold <= 255
    ensures BinaryOf(BinaryOf(gray, threshold), threshold) == BinaryOf(gray, threshold)
  {
    BinaryOfIsBinary(gray, threshold);
    BinaryOfFixesBinary(BinaryOf(gray, threshold), threshold);
  }

  /** At threshold 0 every non-negative value, black included, becomes white. */
  lemma BinaryOfZeroThreshold(gray: seq<int>)
    requires forall i :: 0 <= i < |gray| ==> gray[i] >= 0
    ensures |BinaryOf(gray, 0)| == |gray|
    ensures forall i :: 0 <= i < |gray| ==> BinaryOf(gray, 0)[i] == White
  {
    BinaryOfAt(gray, 0);
  }

  /** Above 255 every value up to 255, white included, becomes black. */
  lemma BinaryOfThresholdAboveWhite(gray: seq<int>, threshold: int)
    requires threshold > White
    requires forall i :: 0 <= i < |gray| ==> gray[i] <= White
    ensures |BinaryOf(gray, threshold)| == |gray|
    ensures forall i :: 0 <= i < |gray| ==> BinaryOf(gray, threshold)[i] == Black
  {
    BinaryOfAt(gray, threshold);
  }

  /**
   * `process_image_color_to_grayscale`: one luma per pixel, in order.
   * `width` and `height` are accepted and ignored, as in the source.
   */
  method ToGrayscale(imageData: seq<Rgb>, width: int, height: int) returns (grayscaleData: seq<int>)
    ensures |grayscaleData| == |imageData|
    ensures forall i :: 0 <= i < |imageData| ==> grayscaleData[i] == Luma(imageData[i])
    ensures grayscaleData == GrayscaleOf(imageData)
  {
    grayscaleData := [];
    var i := 0;
    while i < |imageData|
      invariant 0 <= i <= |imageData|
      invariant grayscaleData == GrayscaleOf(imageData[..i])
    {
      assert imageData[..i + 1][..i] == imageData[..i];
      grayscaleData := grayscaleData + [Luma(imageData[i])];
      i := i + 1;
    }
    assert imageData[..i] == imageData;
    GrayscaleOfAt(imageData);
  }

  /** `process_image_grayscale_to_binary`: one thresholded value per grey value, in order. */
  method ToBinary(grayscaleData: seq<int>, threshold: int := DefaultThreshold) returns (binaryData: seq<int>)
    ensures |binaryData| == |grayscaleData|
    ensures forall i :: 0 <= i < |grayscaleData| ==> binaryData[i] == Binarize(grayscaleData[i], threshold)
    ensures IsBinaryImage(binaryData)
    ensures binaryData == BinaryOf(grayscaleData, threshold)
  {
    binaryData := [];
    var i := 0;
    while i < |grayscaleData|
      invariant 0 <= i <= |grayscaleData|
      invariant binaryData == BinaryOf(grayscaleData[..i], threshold)
    {
      assert grayscaleData[..i + 1][..i] == grayscaleData[..i];
      binaryData := binaryData + [Binarize(grayscaleData[i], threshold)];
      i := i + 1;
    }
    assert grayscaleData[..i] == grayscaleData;
    BinaryOfAt(grayscaleData, threshold);
  }

  /** Red, blue and white through both passes at the default threshold. */
  lemma PipelineExamples()
    ensures GrayscaleOf([Rgb(255, 0, 0), Rgb(0, 0, 255), Rgb(255, 255, 255)]) == [76, 29, 255]
    ensures BinaryOf([76, 29, 255], DefaultThreshold) == [Black, Black, White]
  {
    var image := [Rgb(255, 0, 0), Rgb(0, 0, 255), Rgb(255, 255, 255)];
    GrayscaleOfAt(image);
    BinaryOfAt([76, 29, 255], DefaultThreshold);
  }
}
