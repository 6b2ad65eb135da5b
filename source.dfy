/**
 * Where colour images come from: the built-in 8x8 example and the plain-text
 * format read by `process_real_image_from_file` (first line `width height`,
 * then one `r g b` line per pixel).
 */
module ImageSource {
  import opened Wrappers
  import opened Text
  import opened Pixels

  /** The example's palette: red, green, blue, yellow, magenta, cyan, mid grey, white. */
  const Colors: seq<Rgb> := [
    Rgb(255, 0, 0), Rgb(0, 255, 0), Rgb(0, 0, 255), Rgb(255, 255, 0),
    Rgb(255, 0, 255), Rgb(0, 255, 255), Rgb(128, 128, 128), Rgb(255, 255, 255)
  ]

  /** Row-major position of column x of row y in an image `width` pixels wide. */
  function PixelIndex(x: int, y: int, width: int): int {
    y * width + x
  }

  /** `create_color_image_example`: row by row, the pixel at column x of row y is palette entry (x + y) mod 8. */
  method CreateColorImageExample() returns (imageData: seq<Rgb>, width: int, height: int)
    ensures width == 8 && height == 8 && |imageData| == width * height
    ensures forall y, x :: 0 <= y < 8 && 0 <= x < 8 ==> imageData[PixelIndex(x, y, 8)] == Colors[(x + y) % 8]
  {
    width, height := 8, 8;
    imageData := [];
    var y := 0;
    while y < height
      invariant 0 <= y <= height
      invariant |imageData| == y * 8
      invariant forall yy, xx :: 0 <= yy < y && 0 <= xx < 8 ==> imageData[PixelIndex(xx, yy, 8)] == Colors[(xx + yy) % 8]
    {
      var x := 0;
      while x < width
        invariant 0 <= x <= width
        invariant |imageData| == y * 8 + x
        invariant forall yy, xx :: 0 <= yy < y && 0 <= xx < 8 ==> imageData[PixelIndex(xx, yy, 8)] == Colors[(xx + yy) % 8]
        invariant forall xx :: 0 <= xx < x ==> imageData[PixelIndex(xx, y, 8)] == Colors[(xx + y) % 8]
      {
        var colorIndex := (x + y) % |Colors|;
        imageData := imageData + [Colors[colorIndex]];
        x := x + 1;
      }
      y := y + 1;
    }
  }

  /** The error `process_real_image_from_file` reports when the text cannot be read as an image. */
  datatype ParseError =
    | MissingSizeLine                          // `lines[0]` on an empty file: IndexError
    | InvalidLiteral(token: string)            // `int(token)` raised ValueError
    | NotEnoughValues(expected: nat, got: nat) // unpacking found too few numbers
    | TooManyValues(expected: nat)             // unpacking found more numbers than names

  /** An image as read from text: the declared size, and the pixels in file order. */
  datatype TextImage = TextImage(width: int, height: int, pixels: seq<Rgb>)

  /** `int` applied to each token in turn; the first token it rejects is the error. */
  function ParseInts(tokens: seq<string>): (r: Result<seq<int>, string>)
    ensures r.Ok? ==> |r.value| == |tokens|
  {
    if tokens == [] then Ok([])
    else match ParseInt(tokens[0])
      case None => Err(tokens[0])
      case Some(v) =>
        match ParseInts(tokens[1..])
        case Err(t) => Err(t)
        case Ok(vs) => Ok([v] + vs)
  }

  /**
   * `x1, ..., xn = map(int, tokens)`. Unpacking draws up to n + 1 values from
   * the lazy map, so `int` sees the first n + 1 tokens (in order) before the
   * count is judged.
   */
  function Unpack(tokens: seq<string>, n: nat): (r: Result<seq<int>, ParseError>)
    ensures r.Ok? ==> |tokens| == n && |r.value| == n
  {
    match ParseInts(Drawn(tokens, n))
    case Err(t) => Err(InvalidLiteral(t))
    case Ok(values) =>
      if |tokens| < n then Err(NotEnoughValues(n, |tokens|))
      else if |tokens| > n then Err(TooManyValues(n))
      else Ok(values)
  }

  /** The tokens unpacking into n names passes to `int`: all of them, or the first n + 1. */
  function Drawn(tokens: seq<string>, n: nat): seq<string> {
    if |tokens| <= n then tokens else tokens[..n + 1]
  }

  /** `r, g, b = map(int, line.strip().split())`. */
  function PixelOfLine(line: string): Result<Rgb, ParseError> {
    match Unpack(Tokens(line), 3)
    case Err(e) => Err(e)
    case Ok(v) => Ok(Rgb(v[0], v[1], v[2]))
  }

  /** The loop over `lines[1:]`: blank lines are skipped, each other line appends one pixel. */
  function ParsePixelLines(lines: seq<string>): Result<seq<Rgb>, ParseError> {
    if lines == [] then Ok([])
    else match ParsePixelLines(lines[..|lines| - 1])
      case Err(e) => Err(e)
      case Ok(pixels) =>
        var line := lines[|lines| - 1];
        if IsBlank(line) then Ok(pixels)
        else match PixelOfLine(line)
          case Err(e) => Err(e)
          case Ok(p) => Ok(pixels + [p])
  }

  /** The parsing part of `process_real_image_from_file`, over the lines `readlines` returned. */
  function ParseImageText(lines: seq<string>): (r: Result<TextImage, ParseError>)
    ensures r.Ok? ==> lines != [] && |Tokens(lines[0])| == 2
    ensures lines == [] ==> r == Err(MissingSizeLine)
  {
    if lines == [] then Err(MissingSizeLine)
    else match Unpack(Tokens(lines[0]), 2)
      case Err(e) => Err(e)
      case Ok(size) =>
        match ParsePixelLines(lines[1..])
        case Err(e) => Err(e)
        case Ok(pixels) => Ok(TextImage(size[0], size[1], pixels))
  }

  /** The parsing loop of `process_real_image_from_file`, stopping at the first line that fails. */
  method LoadImageText(lines: seq<string>) returns (result: Result<TextImage, ParseError>)
    ensures result == ParseImageText(lines)
  {
    if |lines| == 0 {
      return Err(MissingSizeLine);
    }
    var size := Unpack(Tokens(lines[0]), 2);
    if size.Err? {
      return Err(size.error);
    }
    var pixelLines := lines[1..];
    var imageData: seq<Rgb> := [];
    var i := 0;
    while i < |pixelLines|
      invariant 0 <= i <= |pixelLines|
      invariant ParsePixelLines(pixelLines[..i]) == Ok(imageData)
    {
      var line := pixelLines[i];
      assert pixelLines[..i + 1][..i] == pixelLines[..i];
      if !IsBlank(line) {
        var pixel := PixelOfLine(line);
        if pixel.Err? {
          ParsePixelLinesStops(pixelLines, i + 1);
          return Err(pixel.error);
        }
        imageData := imageData + [pixel.value];
      }
      i := i + 1;
    }
    assert pixelLines[..i] == pixelLines;
    result := Ok(TextImage(size.value[0], size.value[1], imageData));
  }

  /** Once a line has failed, the lines after it are never looked at. */
  lemma {:induction false} ParsePixelLinesStops(lines: seq<string>, k: nat)
    requires k <= |lines|
    requires ParsePixelLines(lines[..k]).Err?
    ensures ParsePixelLines(lines) == ParsePixelLines(lines[..k])
    decreases |lines| - k
  {
    if k < |lines| {
      var init := lines[..|lines| - 1];
      assert init[..k] == lines[..k];
      ParsePixelLinesStops(init, k);
    } else {
      assert lines[..k] == lines;
    }
  }

  /** The lines that are not blank, in order. */
  function NonBlankLines(lines: seq<string>): seq<string> {
    if lines == [] then []
    else
      var line := lines[|lines| - 1];
      NonBlankLines(lines[..|lines| - 1]) + (if IsBlank(line) then [] else [line])
  }

  /** `int` accepts all tokens exactly when no token is reported, and then gives one value per token. */
  lemma {:induction false} ParseIntsSpec(tokens: seq<string>)
    ensures ParseInts(tokens).Ok? <==> forall i :: 0 <= i < |tokens| ==> ParseInt(tokens[i]).Some?
    ensures ParseInts(tokens).Ok? ==>
      |ParseInts(tokens).value| == |tokens| &&
      forall i :: 0 <= i < |tokens| ==> ParseInt(tokens[i]) == Some(ParseInts(tokens).value[i])
    ensures ParseInts(tokens).Err? ==>
      exists k :: 0 <= k < |tokens| && tokens[k] == ParseInts(tokens).error && ParseInt(tokens[k]).None? &&
        forall j :: 0 <= j < k ==> ParseInt(tokens[j]).Some?
  {
    if tokens != [] {
      var rest := tokens[1..];
      ParseIntsSpec(rest);
      assert forall i :: 1 <= i < |tokens| ==> tokens[i] == rest[i - 1];
      if ParseInt(tokens[0]).Some? && ParseInts(rest).Err? {
        var k :| 0 <= k < |rest| && rest[k] == ParseInts(rest).error && ParseInt(rest[k]).None? &&
          forall j :: 0 <= j < k ==> ParseInt(rest[j]).Some?;
        assert tokens[k + 1] == rest[k];
      }
    }
  }

  /** Unpacking into n names succeeds exactly when there are n tokens and `int` accepts each. */
  lemma UnpackSpec(tokens: seq<string>, n: nat)
    ensures Unpack(tokens, n).Ok? <==>
      |tokens| == n && forall i :: 0 <= i < n ==> ParseInt(tokens[i]).Some?
    ensures Unpack(tokens, n).Ok? ==>
      |Unpack(tokens, n).value| == n &&
      forall i :: 0 <= i < n ==> ParseInt(tokens[i]) == Some(Unpack(tokens, n).value[i])
  {
    var drawn := Drawn(tokens, n);
    ParseIntsSpec(drawn);
    if |tokens| == n {
      assert drawn == tokens;
    }
  }

  /**
   * Which error unpacking reports: the first token among those drawn that `int`
   * rejects; and only when `int` accepts all of them, too few or too many values.
   */
  lemma UnpackErrorOrder(tokens: seq<string>, n: nat)
    ensures (forall k :: 0 <= k < |Drawn(tokens, n)| ==> ParseInt(tokens[k]).Some?) ==>
      (|tokens| < n ==> Unpack(tokens, n) == Err(NotEnoughValues(n, |tokens|))) &&
      (|tokens| > n ==> Unpack(tokens, n) == Err(TooManyValues(n)))
    ensures !(forall k :: 0 <= k < |Drawn(tokens, n)| ==> ParseInt(tokens[k]).Some?) ==>
      exists k :: 0 <= k < |Drawn(tokens, n)| && Unpack(tokens, n) == Err(InvalidLiteral(tokens[k])) &&
        ParseInt(tokens[k]).None? && forall j :: 0 <= j < k ==> ParseInt(tokens[j]).Some?
  {
    var drawn := Drawn(tokens, n);
    ParseIntsSpec(drawn);
    assert forall k :: 0 <= k < |drawn| ==> drawn[k] == tokens[k];
  }

  /** With every drawn token an integer, surplus tokens are reported even when a later one is not. */
  lemma UnpackTooManyExample()
    ensures Unpack(["1", "2", "3", "x"], 2) == Err(TooManyValues(2))
  {
    var tokens := ["1", "2", "3", "x"];
    assert Drawn(tokens, 2) == ["1", "2", "3"];
    ParseIntAccepts();
    assert ParseInt("1") == Some(1) && ParseInt("2") == Some(2) && ParseInt("3") == Some(3);
  }

  /** A bad literal among the drawn tokens is reported before the surplus. */
  lemma UnpackBadBeforeTooManyExample()
    ensures Unpack(["1", "2", "x", "y"], 2) == Err(InvalidLiteral("x"))
  {
    var tokens := ["1", "2", "x", "y"];
    assert Drawn(tokens, 2) == ["1", "2", "x"];
    assert ParseInt("1") == Some(1) && ParseInt("2") == Some(2);
  }

  /** A bad literal is reported before a shortage. */
  lemma UnpackBadBeforeTooFewExample()
    ensures Unpack(["x"], 2) == Err(InvalidLiteral("x"))
  {
    assert Drawn(["x"], 2) == ["x"];
  }


  /** The pixel lines parse exactly when every non-blank line holds three integers. */
  lemma {:induction false} ParsePixelLinesSucceeds(lines: seq<string>)
    ensures ParsePixelLines(lines).Ok? <==> AllPixelLines(NonBlankLines(lines))
  {
    if lines != [] {
      var init := lines[..|lines| - 1];
      var line := lines[|lines| - 1];
      ParsePixelLinesSucceeds(init);
      if IsBlank(line) {
        SkipBlankLine(lines);
      } else {
        ReadNonBlankLine(lines);
        AllPixelLinesAppend(NonBlankLines(init), line);
      }
    }
  }

  /** A blank last line adds no pixel and cannot fail. */
  lemma SkipBlankLine(lines: seq<string>)
    requires lines != [] && IsBlank(lines[|lines| - 1])
    ensures NonBlankLines(lines) == NonBlankLines(lines[..|lines| - 1])
    ensures ParsePixelLines(lines) == ParsePixelLines(lines[..|lines| - 1])
  {
  }

  /** A non-blank last line is parsed after all earlier lines have been. */
  lemma ReadNonBlankLine(lines: seq<string>)
    requires lines != [] && !IsBlank(lines[|lines| - 1])
    ensures NonBlankLines(lines) == NonBlankLines(lines[..|lines| - 1]) + [lines[|lines| - 1]]
    ensures ParsePixelLines(lines).Ok? <==>
      ParsePixelLines(lines[..|lines| - 1]).Ok? && PixelOfLine(lines[|lines| - 1]).Ok?
    ensures ParsePixelLines(lines).Ok? ==>
      ParsePixelLines(lines).value ==
        ParsePixelLines(lines[..|lines| - 1]).value + [PixelOfLine(lines[|lines| - 1]).value]
  {
  }

  /** Every line in `lines` holds exactly three integers. */
  predicate AllPixelLines(lines: seq<string>) {
    forall k :: 0 <= k < |lines| ==> PixelOfLine(lines[k]).Ok?
  }

  lemma AllPixelLinesAppend(lines: seq<string>, line: string)
    ensures AllPixelLines(lines + [line]) <==> AllPixelLines(lines) && PixelOfLine(line).Ok?
  {
    var all := lines + [line];
    assert all[|lines|] == line;
    assert forall k :: 0 <= k < |lines| ==> all[k] == lines[k];
  }

  /** When the pixel lines parse, the pixels are the non-blank lines' triples, one per line, in order. */
  lemma {:induction false} ParsePixelLinesValues(lines: seq<string>)
    requires ParsePixelLines(lines).Ok?
    ensures |ParsePixelLines(lines).value| == |NonBlankLines(lines)|
    ensures forall k :: 0 <= k < |NonBlankLines(lines)| ==>
      PixelOfLine(NonBlankLines(lines)[k]) == Ok(ParsePixelLines(lines).value[k])
  {
    if lines != [] {
      var init := lines[..|lines| - 1];
      var line := lines[|lines| - 1];
      if IsBlank(line) {
        SkipBlankLine(lines);
        ParsePixelLinesValues(init);
      } else {
        ReadNonBlankLine(lines);
        ParsePixelLinesValues(init);
        var nb, pixels := NonBlankLines(init), ParsePixelLines(init).value;
        var all, values := NonBlankLines(lines), ParsePixelLines(lines).value;
        assert all[|nb|] == line && values[|nb|] == PixelOfLine(line).value;
        assert forall k :: 0 <= k < |nb| ==> all[k] == nb[k] && values[k] == pixels[k];
      }
    }
  }

  /** Line k is the first of `lines` that is not three integers, and it fails with `e`. */
  predicate FirstBadLine(lines: seq<string>, k: int, e: ParseError) {
    0 <= k < |lines| && PixelOfLine(lines[k]) == Err(e) && AllPixelLines(lines[..k])
  }

  /** A parse that fails reports the error of the first non-blank line that is not three integers. */
  lemma {:induction false} ParsePixelLinesFirstError(lines: seq<string>)
    requires ParsePixelLines(lines).Err?
    ensures exists k :: FirstBadLine(NonBlankLines(lines), k, ParsePixelLines(lines).error)
  {
    var init := lines[..|lines| - 1];
    var line := lines[|lines| - 1];
    var nb := NonBlankLines(init);
    if IsBlank(line) {
      SkipBlankLine(lines);
      ParsePixelLinesFirstError(init);
    } else {
      ReadNonBlankLine(lines);
      var all := NonBlankLines(lines);
      if ParsePixelLines(init).Err? {
        ParsePixelLinesFirstError(init);
        var k :| FirstBadLine(nb, k, ParsePixelLines(init).error);
        assert all[k] == nb[k] && all[..k] == nb[..k];
        assert FirstBadLine(all, k, ParsePixelLines(lines).error);
      } else {
        ParsePixelLinesSucceeds(init);
        assert all[|nb|] == line && all[..|nb|] == nb;
        assert FirstBadLine(all, |nb|, ParsePixelLines(lines).error);
      }
    }
  }

  /** A pixel line parses to the integers of its three tokens. */
  lemma PixelOfLineSpec(line: string)
    ensures PixelOfLine(line).Ok? <==>
      |Tokens(line)| == 3 && forall i :: 0 <= i < 3 ==> ParseInt(Tokens(line)[i]).Some?
    ensures PixelOfLine(line).Ok? ==>
      var p := PixelOfLine(line).value;
      ParseInt(Tokens(line)[0]) == Some(p.r) && ParseInt(Tokens(line)[1]) == Some(p.g) &&
      ParseInt(Tokens(line)[2]) == Some(p.b)
  {
    UnpackSpec(Tokens(line), 3);
  }

  /**
   * A text parses exactly when its first line holds two integers and every
   * later non-blank line three; the image then has that size and one pixel per
   * non-blank later line, in order.
   */
  lemma ParseImageTextSpec(lines: seq<string>)
    ensures ParseImageText(lines).Ok? <==>
      lines != [] && |Tokens(lines[0])| == 2 &&
      ParseInt(Tokens(lines[0])[0]).Some? && ParseInt(Tokens(lines[0])[1]).Some? &&
      AllPixelLines(NonBlankLines(lines[1..]))
    ensures ParseImageText(lines).Ok? ==>
      var image := ParseImageText(lines).value;
      ParseInt(Tokens(lines[0])[0]) == Some(image.width) &&
      ParseInt(Tokens(lines[0])[1]) == Some(image.height) &&
      image.pixels == ParsePixelLines(lines[1..]).value &&
      |image.pixels| == |NonBlankLines(lines[1..])|
  {
    if lines != [] {
      UnpackSpec(Tokens(lines[0]), 2);
      ParsePixelLinesSucceeds(lines[1..]);
      if ParsePixelLines(lines[1..]).Ok? {
        ParsePixelLinesValues(lines[1..]);
      }
    }
  }

  /** The size is read from the very first line, so a text whose first line is blank is rejected. */
  lemma BlankSizeLineRejected(lines: seq<string>)
    requires lines != [] && IsBlank(lines[0])
    ensures ParseImageText(lines) == Err(NotEnoughValues(2, 0))
  {
    TokensEmptyIffBlank(lines[0]);
  }

  /** The text of a pixel: `f"{r} {g} {b}\n"`. */
  function PixelLine(p: Rgb): string {
    Line([FormatInt(p.r), FormatInt(p.g), FormatInt(p.b)])
  }

  /** The text file of an image, one line per pixel after the size line. */
  function ImageText(image: TextImage): seq<string> {
    [Line([FormatInt(image.width), FormatInt(image.height)])] + PixelLinesText(image.pixels)
  }

  function PixelLinesText(pixels: seq<Rgb>): seq<string> {
    seq(|pixels|, i requires 0 <= i < |pixels| => PixelLine(pixels[i]))
  }


  /** The decimal texts of some integers, on one line, unpack back into those integers. */
  lemma UnpackFormatted(words: seq<string>, values: seq<int>)
    requires |words| == |values|
    requires forall i :: 0 <= i < |values| ==> words[i] == FormatInt(values[i])
    ensures Unpack(Tokens(Line(words)), |values|) == Ok(values)
  {
    TokensOfLine(words);
    forall i | 0 <= i < |values|
      ensures ParseInt(words[i]) == Some(values[i])
    {
      ParseFormatInt(values[i]);
    }
    UnpackSpec(words, |values|);
    var r := Unpack(words, |values|);
    assert r.value == values by {
      assert forall i :: 0 <= i < |values| ==> Some(r.value[i]) == Some(values[i]);
    }
  }

  lemma PixelOfPixelLine(p: Rgb)
    ensures !IsBlank(PixelLine(p)) && PixelOfLine(PixelLine(p)) == Ok(p)
  {
    UnpackFormatted([FormatInt(p.r), FormatInt(p.g), FormatInt(p.b)], [p.r, p.g, p.b]);
    TokensEmptyIffBlank(PixelLine(p));
  }

  lemma ParsePixelLinesText(pixels: seq<Rgb>)
    ensures ParsePixelLines(PixelLinesText(pixels)) == Ok(pixels)
  {
    var text := PixelLinesText(pixels);
    forall i | 0 <= i < |pixels|
      ensures !IsBlank(text[i]) && PixelOfLine(text[i]) == Ok(pixels[i])
    {
      PixelOfPixelLine(pixels[i]);
    }
    ParseParsedLines(text, pixels);
  }


  /** Lines that each parse, none of them blank, give their pixels in order. */
  lemma {:induction false} ParseParsedLines(lines: seq<string>, pixels: seq<Rgb>)
    requires |lines| == |pixels|
    requires forall i :: 0 <= i < |lines| ==> !IsBlank(lines[i]) && PixelOfLine(lines[i]) == Ok(pixels[i])
    ensures ParsePixelLines(lines) == Ok(pixels)
  {
    if lines != [] {
      var init, initPixels := lines[..|lines| - 1], pixels[..|pixels| - 1];
      ParseParsedLines(init, initPixels);
      ReadNonBlankLine(lines);
      assert pixels == initPixels + [pixels[|pixels| - 1]];
    }
  }

  /** Reading the text of any image gives back its size and every pixel in order. */
  lemma ParseImageTextRoundTrip(image: TextImage)
    ensures ParseImageText(ImageText(image)) == Ok(image)
  {
    UnpackFormatted([FormatInt(image.width), FormatInt(image.height)], [image.width, image.height]);
    ParsePixelLinesText(image.pixels);
    assert ImageText(image)[1..] == PixelLinesText(image.pixels);
  }

  /** The file "2 1\n10 20 30\n40 50 60\n" holds a 2x1 image of two pixels. */
  lemma ParseImageTextExample()
    ensures ParseImageText(["2 1\n", "10 20 30\n", "40 50 60\n"]) ==
              Ok(TextImage(2, 1, [Rgb(10, 20, 30), Rgb(40, 50, 60)]))
  {
    var image := TextImage(2, 1, [Rgb(10, 20, 30), Rgb(40, 50, 60)]);
    ParseImageTextRoundTrip(image);
    ImageTextExample();
  }

  lemma ImageTextExample()
    ensures ImageText(TextImage(2, 1, [Rgb(10, 20, 30), Rgb(40, 50, 60)])) == ["2 1\n", "10 20 30\n", "40 50 60\n"]
  {
    var first, second := Rgb(10, 20, 30), Rgb(40, 50, 60);
    var image := TextImage(2, 1, [first, second]);
    FirstPixelLineExample();
    SecondPixelLineExample();
    SizeLineExample();
    assert PixelLinesText(image.pixels) == [PixelLine(first), PixelLine(second)];
  }

  lemma FirstPixelLineExample()
    ensures PixelLine(Rgb(10, 20, 30)) == "10 20 30\n"
  {
    assert FormatInt(10) == "10" && FormatInt(20) == "20" && FormatInt(30) == "30";
  }

  lemma SecondPixelLineExample()
    ensures PixelLine(Rgb(40, 50, 60)) == "40 50 60\n"
  {
    assert FormatInt(40) == "40" && FormatInt(50) == "50" && FormatInt(60) == "60";
  }

  lemma SizeLineExample()
    ensures Line([FormatInt(2), FormatInt(1)]) == "2 1\n"
  {
    assert FormatInt(2) == "2" && FormatInt(1) == "1";
  }
}
