/**
 * `create_simple_image`: the bytes a binary PGM ("P5") file receives. The
 * header is encoded as ASCII in one write; then each pixel is written as one
 * unsigned byte, so a pixel outside 0..255 stops the writing with the header
 * and every earlier pixel already in the file.
 */
module Pgm {
  import opened Wrappers
  import opened Text
  import opened Pixels

  /** Why writing stopped: `str.encode('ascii')` or `struct.pack('B', v)` raised. */
  datatype WriteError = HeaderNotAscii | PixelOutOfRange(index: nat, value: int)

  /** What the file holds when the writer returns, and the error it raised, if any. */
  datatype WriteOutcome = WriteOutcome(written: seq<byte>, failure: Option<WriteError>)

  /** What a reader recovers from the bytes of a PGM file. */
  datatype PgmImage = PgmImage(imageType: string, width: int, height: int, pixels: seq<int>)

  const DefaultImageType: string := "P5"
  const LineFeed: byte := 10
  const Space: byte := 32

  /** `f"{image_type}\n{width} {height}\n255\n"`. */
  function Header(imageType: string, width: int, height: int): string {
    imageType + "\n" + FormatInt(width) + " " + FormatInt(height) + "\n255\n"
  }

  function AsciiBytes(s: string): seq<byte>
    requires IsAscii(s)
  {
    seq(|s|, i requires 0 <= i < |s| => (s[i] as int) as byte)
  }

  function DecodeAscii(bs: seq<byte>): string {
    seq(|bs|, i requires 0 <= i < |bs| => bs[i] as char)
  }

  predicate AllBytes(s: seq<int>) {
    forall i :: 0 <= i < |s| ==> IsByte(s[i])
  }

  /** The pixel loop: one byte per pixel, in order, until a value does not fit in a byte. */
  function PackPixels(pixels: seq<int>): (o: WriteOutcome)
    ensures |o.written| <= |pixels|
    ensures o.failure.Some? ==> o.failure.value.PixelOutOfRange? && o.failure.value.index < |pixels|
  {
    if pixels == [] then WriteOutcome([], None)
    else
      var before := PackPixels(pixels[..|pixels| - 1]);
      var p := pixels[|pixels| - 1];
      if before.failure.Some? then before
      else if IsByte(p) then WriteOutcome(before.written + [p as byte], None)
      else WriteOutcome(before.written, Some(PixelOutOfRange(|pixels| - 1, p)))
  }

  /** The whole effect of `create_simple_image` on the file it opens for writing. */
  function SimpleImage(width: int, height: int, pixelData: seq<int>, imageType: string := DefaultImageType): (o: WriteOutcome)
    ensures IsAscii(Header(imageType, width, height)) ==>
      |Header(imageType, width, height)| <= |o.written| <= |Header(imageType, width, height)| + |pixelData| &&
      o.written[..|Header(imageType, width, height)|] == AsciiBytes(Header(imageType, width, height))
    ensures !IsAscii(Header(imageType, width, height)) ==> o.written == [] && o.failure == Some(HeaderNotAscii)
  {
    var header := Header(imageType, width, height);
    if !IsAscii(header) then WriteOutcome([], Some(HeaderNotAscii))
    else
      var body := PackPixels(pixelData);
      WriteOutcome(AsciiBytes(header) + body.written, body.failure)
  }

  /** `create_simple_image`, writing into `written` where the source writes into the file. */
  method CreateSimpleImage(width: int, height: int, pixelData: seq<int>, imageType: string := DefaultImageType)
    returns (outcome: WriteOutcome)
    ensures outcome == SimpleImage(width, height, pixelData, imageType)
  {
    var header := Header(imageType, width, height);
    if !IsAscii(header) {
      return WriteOutcome([], Some(HeaderNotAscii));
    }
    var written := AsciiBytes(header);
    ghost var body: seq<byte> := [];
    var i := 0;
    while i < |pixelData|
      invariant 0 <= i <= |pixelData|
      invariant written == AsciiBytes(header) + body
      invariant PackPixels(pixelData[..i]) == WriteOutcome(body, None)
    {
      assert pixelData[..i + 1][..i] == pixelData[..i];
      var pixel := pixelData[i];
      if !IsByte(pixel) {
        PackPixelsStops(pixelData, i + 1);
        return WriteOutcome(written, Some(PixelOutOfRange(i, pixel)));
      }
      written := written + [pixel as byte];
      body := body + [pixel as byte];
      i := i + 1;
    }
    assert pixelData[..i] == pixelData;
    outcome := WriteOutcome(written, None);
  }

  /** Once a pixel has been rejected, later pixels change nothing. */
  lemma {:induction false} PackPixelsStops(pixels: seq<int>, k: nat)
    requires k <= |pixels|
    requires PackPixels(pixels[..k]).failure.Some?
    ensures PackPixels(pixels) == PackPixels(pixels[..k])
    decreases |pixels| - k
  {
    if k < |pixels| {
      var init := pixels[..|pixels| - 1];
      assert init[..k] == pixels[..k];
      PackPixelsStops(init, k);
    } else {
      assert pixels[..k] == pixels;
    }
  }

  /**
   * The pixel loop writes every pixel when all are bytes, and otherwise stops at
   * the first one that is not, having written exactly the pixels before it.
   */
  lemma {:induction false} PackPixelsSpec(pixels: seq<int>)
    ensures PackPixels(pixels).failure == None <==> AllBytes(pixels)
    ensures PackPixels(pixels).failure == None ==> PackPixels(pixels).written == pixels
    ensures PackPixels(pixels).failure.Some? ==>
      var e := PackPixels(pixels).failure.value;
      e.PixelOutOfRange? && e.index < |pixels| && e.value == pixels[e.index] && !IsByte(e.value) &&
      AllBytes(pixels[..e.index]) && PackPixels(pixels).written == pixels[..e.index]
  {
    if pixels != [] {
      var init := pixels[..|pixels| - 1];
      PackPixelsSpec(init);
      assert pixels == init + [pixels[|pixels| - 1]];
      var before := PackPixels(init);
      if before.failure.Some? {
        var e := before.failure.value;
        assert init[..e.index] == pixels[..e.index];
      }
    }
  }

  /** Apart from the image type, every character of the header is ASCII. */
  lemma HeaderAscii(imageType: string, width: int, height: int)
    ensures IsAscii(Header(imageType, width, height)) <==> IsAscii(imageType)
  {
    var h := Header(imageType, width, height);
    assert forall i :: 0 <= i < |imageType| ==> h[i] == imageType[i];
  }

  /**
   * The layout of the file: the ASCII header, then one byte per pixel in input
   * order, with nothing between or after. Writing succeeds exactly when the
   * image type is ASCII and every pixel is a byte; no `width * height` check is made.
   */
  lemma SimpleImageLayout(width: int, height: int, pixelData: seq<int>, imageType: string)
    ensures SimpleImage(width, height, pixelData, imageType).failure == None <==>
              IsAscii(imageType) && AllBytes(pixelData)
    ensures SimpleImage(width, height, pixelData, imageType).failure == None ==>
              IsAscii(Header(imageType, width, height)) &&
              SimpleImage(width, height, pixelData, imageType).written ==
                AsciiBytes(Header(imageType, width, height)) + pixelData &&
              |SimpleImage(width, height, pixelData, imageType).written| ==
                |Header(imageType, width, height)| + |pixelData|
  {
    HeaderAscii(imageType, width, height);
    PackPixelsSpec(pixelData);
  }

  /**
   * A rejected pixel leaves the header and every earlier pixel in the file; a
   * header that is not ASCII leaves the file empty.
   */
  lemma SimpleImagePartialWrite(width: int, height: int, pixelData: seq<int>, imageType: string)
    requires SimpleImage(width, height, pixelData, imageType).failure.Some?
    ensures var o := SimpleImage(width, height, pixelData, imageType);
      match o.failure.value
      case HeaderNotAscii => !IsAscii(imageType) && o.written == []
      case PixelOutOfRange(k, v) =>
        IsAscii(Header(imageType, width, height)) && k < |pixelData| && v == pixelData[k] && !IsByte(v) &&
        AllBytes(pixelData[..k]) &&
        o.written == AsciiBytes(Header(imageType, width, height)) + pixelData[..k]
  {
    HeaderAscii(imageType, width, height);
    PackPixelsSpec(pixelData);
  }

  /** Writing a 2x2 image with intensities 10, 20, 30, 40. */
  lemma SimpleImageExample()
    ensures SimpleImage(2, 2, [10, 20, 30, 40]) ==
      WriteOutcome([80, 53, 10, 50, 32, 50, 10, 50, 53, 53, 10, 10, 20, 30, 40], None)
  {
    var header := Header("P5", 2, 2);
    assert header == "P5\n2 2\n255\n" by {
      assert FormatInt(2) == "2";
    }
    HeaderBytesExample();
    var bytes: seq<byte> := [80, 53, 10, 50, 32, 50, 10, 50, 53, 53, 10];
    assert AsciiBytes(header) == bytes;
    SimpleImageLayout(2, 2, [10, 20, 30, 40], "P5");
    assert SimpleImage(2, 2, [10, 20, 30, 40]).written == bytes + [10, 20, 30, 40];
  }

  lemma HeaderBytesExample()
    ensures IsAscii("P5\n2 2\n255\n")
    ensures AsciiBytes("P5\n2 2\n255\n") == [80, 53, 10, 50, 32, 50, 10, 50, 53, 53, 10]
  {
  }

  /** Position of the first `x`, or the length when there is none. */
  function IndexOf(bs: seq<byte>, x: byte): (i: nat)
    ensures i <= |bs|
    ensures forall j :: 0 <= j < i ==> bs[j] != x
    ensures i == |bs| || bs[i] == x
  {
    if bs == [] then 0 else if bs[0] == x then 0 else 1 + IndexOf(bs[1..], x)
  }

  /**
   * Reads a byte stream laid out as `SimpleImage` writes it: the type up to the
   * first newline, then the size lines and the pixels.
   */
  function ReadPgm(data: seq<byte>): Option<PgmImage> {
    var i := IndexOf(data, LineFeed);
    if i == |data| then None
    else match ReadSize(data[i + 1..])
      case None => None
      case Some(size) => Some(PgmImage(DecodeAscii(data[..i]), size.width, size.height, size.pixels))
  }

  /** What follows the type line: the size and the pixel bytes. */
  datatype SizedPixels = SizedPixels(width: int, height: int, pixels: seq<byte>)

  /** The width up to a space, then the height line, the line `255` and the pixels. */
  function ReadSize(afterType: seq<byte>): Option<SizedPixels> {
    var j := IndexOf(afterType, Space);
    if j == |afterType| then None
    else match (ParseInt(DecodeAscii(afterType[..j])), ReadHeight(afterType[j + 1..]))
      case (Some(w), Some(rest)) => Some(SizedPixels(w, rest.height, rest.pixels))
      case _ => None
  }

  /** The height up to a newline, then the line `255` and the pixels. */
  function ReadHeight(afterWidth: seq<byte>): Option<SizedPixels> {
    var k := IndexOf(afterWidth, LineFeed);
    if k == |afterWidth| then None
    else
      var afterHeight := afterWidth[k + 1..];
      if |afterHeight| < 4 || DecodeAscii(afterHeight[..4]) != "255\n" then None
      else match ParseInt(DecodeAscii(afterWidth[..k]))
        case Some(h) => Some(SizedPixels(0, h, afterHeight[4..]))
        case None => None
  }

  lemma DecodeAsciiBytes(s: string)
    requires IsAscii(s)
    ensures DecodeAscii(AsciiBytes(s)) == s
  {
  }

  /** Splitting `a + [x] + rest` at its first `x` when `a` holds none. */
  lemma SplitAtFirst(a: seq<byte>, x: byte, rest: seq<byte>)
    requires forall j :: 0 <= j < |a| ==> a[j] != x
    ensures IndexOf(a + ([x] + rest), x) == |a|
    ensures (a + ([x] + rest))[..|a|] == a
    ensures (a + ([x] + rest))[|a| + 1..] == rest
  {
    var s := a + ([x] + rest);
    assert s[|a|] == x;
    assert forall j :: 0 <= j < |a| ==> s[j] == a[j];
  }

  lemma NoByteInNumber(n: int, x: byte)
    requires x == LineFeed || x == Space
    ensures forall j :: 0 <= j < |AsciiBytes(FormatInt(n))| ==> AsciiBytes(FormatInt(n))[j] != x
  {
    var s := FormatInt(n);
    assert forall j :: 0 <= j < |s| ==> IsDigit(s[j]) || s[j] == '-';
  }

  /** The header's bytes, field by field. */
  lemma HeaderBytes(imageType: string, width: int, height: int)
    requires IsAscii(imageType)
    ensures IsAscii(Header(imageType, width, height))
    ensures AsciiBytes(Header(imageType, width, height)) ==
      AsciiBytes(imageType) + ([LineFeed] + (AsciiBytes(FormatInt(width)) + ([Space] +
        (AsciiBytes(FormatInt(height)) + ([LineFeed] + AsciiBytes("255\n"))))))
  {
    var w, h := FormatInt(width), FormatInt(height);
    var heightLine := h + (['\n'] + "255\n");
    var sizeLines := w + ([' '] + heightLine);
    var all := imageType + (['\n'] + sizeLines);
    assert Header(imageType, width, height) == all;
    AsciiBytesAround(h, '\n', "255\n");
    AsciiBytesAround(w, ' ', heightLine);
    AsciiBytesAround(imageType, '\n', sizeLines);
  }

  /** Encoding `a`, one ASCII character and `b` is encoding each in turn. */
  lemma AsciiBytesAround(a: string, c: char, b: string)
    requires IsAscii(a) && IsAscii(b) && c as int < 128
    ensures IsAscii(a + ([c] + b))
    ensures AsciiBytes(a + ([c] + b)) == AsciiBytes(a) + ([(c as int) as byte] + AsciiBytes(b))
  {
    var s := a + ([c] + b);
    assert forall i :: 0 <= i < |a| ==> s[i] == a[i];
    assert s[|a|] == c;
    assert forall i :: |a| < i < |s| ==> s[i] == b[i - |a| - 1];
  }

  /** The reader on a stream made of its four separated fields and the pixels. */
  lemma ReadPgmOfFields(ta: seq<byte>, wa: seq<byte>, ha: seq<byte>, ma: seq<byte>, pixels: seq<byte>)
    requires forall j :: 0 <= j < |ta| ==> ta[j] != LineFeed
    requires forall j :: 0 <= j < |wa| ==> wa[j] != Space
    requires forall j :: 0 <= j < |ha| ==> ha[j] != LineFeed
    requires DecodeAscii(ma) == "255\n"
    requires ParseInt(DecodeAscii(wa)).Some? && ParseInt(DecodeAscii(ha)).Some?
    ensures ReadPgm(ta + ([LineFeed] + (wa + ([Space] + (ha + ([LineFeed] + (ma + pixels))))))) ==
              Some(PgmImage(DecodeAscii(ta), ParseInt(DecodeAscii(wa)).value, ParseInt(DecodeAscii(ha)).value, pixels))
  {
    var afterWidth := ha + ([LineFeed] + (ma + pixels));
    var afterType := wa + ([Space] + afterWidth);
    ReadHeightOfFields(ha, ma, pixels);
    SplitAtFirst(wa, Space, afterWidth);
    SplitAtFirst(ta, LineFeed, afterType);
  }

  lemma ReadHeightOfFields(ha: seq<byte>, ma: seq<byte>, pixels: seq<byte>)
    requires forall j :: 0 <= j < |ha| ==> ha[j] != LineFeed
    requires DecodeAscii(ma) == "255\n"
    requires ParseInt(DecodeAscii(ha)).Some?
    ensures ReadHeight(ha + ([LineFeed] + (ma + pixels))) ==
              Some(SizedPixels(0, ParseInt(DecodeAscii(ha)).value, pixels))
  {
    var afterHeight := ma + pixels;
    SplitAtFirst(ha, LineFeed, afterHeight);
    assert |ma| == 4;
    assert afterHeight[..4] == ma && afterHeight[4..] == pixels;
  }

  /**
   * Reading back what a successful write produced recovers the image type, the
   * width, the height and every pixel, when the type holds no newline.
   */
  lemma ReadPgmOfSimpleImage(width: int, height: int, pixelData: seq<int>, imageType: string)
    requires SimpleImage(width, height, pixelData, imageType).failure == None
    requires forall i :: 0 <= i < |imageType| ==> imageType[i] != '\n'
    ensures ReadPgm(SimpleImage(width, height, pixelData, imageType).written) ==
              Some(PgmImage(imageType, width, height, pixelData))
  {
    SimpleImageLayout(width, height, pixelData, imageType);
    HeaderAscii(imageType, width, height);
    ReadPgmAfterHeader(imageType, width, height, pixelData);
  }

  /** The reader recovers the header's fields and whatever bytes follow the header. */
  lemma ReadPgmAfterHeader(imageType: string, width: int, height: int, pixels: seq<byte>)
    requires IsAscii(imageType)
    requires forall i :: 0 <= i < |imageType| ==> imageType[i] != '\n'
    ensures IsAscii(Header(imageType, width, height))
    ensures ReadPgm(AsciiBytes(Header(imageType, width, height)) + pixels) ==
              Some(PgmImage(imageType, width, height, pixels))
  {
    HeaderBytes(imageType, width, height);
    var ta, wa, ha, ma := AsciiBytes(imageType), AsciiBytes(FormatInt(width)), AsciiBytes(FormatInt(height)), AsciiBytes("255\n");
    assert AsciiBytes(Header(imageType, width, height)) + pixels ==
             ta + ([LineFeed] + (wa + ([Space] + (ha + ([LineFeed] + (ma + pixels))))));
    NoByteInNumber(width, Space);
    NoByteInNumber(height, LineFeed);
    DecodeAsciiBytes(imageType);
    DecodeAsciiBytes(FormatInt(width));
    DecodeAsciiBytes(FormatInt(height));
    DecodeAsciiBytes("255\n");
    ParseFormatInt(width);
    ParseFormatInt(height);
    ReadPgmOfFields(ta, wa, ha, ma, pixels);
  }
}
