/**
 * The pieces of Python's string handling that the image core relies on:
 * `str.isspace`, `str.split()` with no separator, `int(token)` in base 10,
 * and the decimal rendering of an `int` inside an f-string.
 */
module Text {
  import opened Wrappers

  /** `c.isspace()` in Python: the characters whose Unicode class is a space or separator. */
  predicate IsSpace(c: char) {
    var n := c as int;
    (0x09 <= n <= 0x0D) || (0x1C <= n <= 0x20) || n == 0x85 || n == 0xA0 ||
    n == 0x1680 || (0x2000 <= n <= 0x200A) || n == 0x2028 || n == 0x2029 ||
    n == 0x202F || n == 0x205F || n == 0x3000
  }

  predicate IsDigit(c: char) {
    '0' <= c <= '9'
  }

  /** Every character is 7-bit ASCII, which is what `str.encode('ascii')` accepts. */
  predicate IsAscii(s: string) {
    forall i :: 0 <= i < |s| ==> s[i] as int < 128
  }

  /** `not s.strip()`: the line holds nothing but whitespace. */
  predicate IsBlank(s: string) {
    forall i :: 0 <= i < |s| ==> IsSpace(s[i])
  }

  /** A token `str.split()` can produce: non-empty and free of whitespace. */
  predicate IsWord(w: string) {
    |w| > 0 && forall i :: 0 <= i < |w| ==> !IsSpace(w[i])
  }

  /** Drops the leading run of whitespace. */
  function SkipSpace(s: string): (rest: string)
    ensures |rest| <= |s|
    ensures rest == [] || !IsSpace(rest[0])
  {
    if s != [] && IsSpace(s[0]) then SkipSpace(s[1..]) else s
  }

  /** Length of the leading run of non-whitespace characters. */
  function WordLength(s: string): (n: nat)
    ensures n <= |s|
    ensures s != [] && !IsSpace(s[0]) ==> n > 0
  {
    if s == [] || IsSpace(s[0]) then 0 else 1 + WordLength(s[1..])
  }

  /** What `SkipSpace` drops is whitespace, and what it keeps is the rest of the text. */
  lemma {:induction false} SkipSpaceSpec(s: string)
    ensures SkipSpace(s) == s[|s| - |SkipSpace(s)|..]
    ensures forall i :: 0 <= i < |s| - |SkipSpace(s)| ==> IsSpace(s[i])
  {
    if s != [] && IsSpace(s[0]) {
      SkipSpaceSpec(s[1..]);
    }
  }

  /** `WordLength` measures exactly the leading run of non-whitespace. */
  lemma {:induction false} WordLengthSpec(s: string)
    ensures forall i :: 0 <= i < WordLength(s) ==> !IsSpace(s[i])
    ensures WordLength(s) == |s| || IsSpace(s[WordLength(s)])
  {
    if s != [] && !IsSpace(s[0]) {
      WordLengthSpec(s[1..]);
    }
  }

  /** `s.split()`: the maximal runs of non-whitespace characters, in order. */
  function Tokens(s: string): (ts: seq<string>)
    ensures |ts| <= |s|
    decreases |s|
  {
    var t := SkipSpace(s);
    if t == [] then []
    else
      var n := WordLength(t);
      [t[..n]] + Tokens(t[n..])
  }

  lemma {:induction false} TokensAreWords(s: string)
    ensures forall k :: 0 <= k < |Tokens(s)| ==> IsWord(Tokens(s)[k])
    decreases |s|
  {
    var t := SkipSpace(s);
    if t != [] {
      var n := WordLength(t);
      var rest := Tokens(t[n..]);
      TokensAreWords(t[n..]);
      WordLengthSpec(t);
      assert Tokens(s) == [t[..n]] + rest;
      assert IsWord(t[..n]);
      forall k | 0 <= k < |Tokens(s)|
        ensures IsWord(Tokens(s)[k])
      {
        if k > 0 {
          assert Tokens(s)[k] == rest[k - 1];
        }
      }
    }
  }

  /** A line is blank exactly when splitting it yields no token. */
  lemma TokensEmptyIffBlank(s: string)
    ensures Tokens(s) == [] <==> IsBlank(s)
  {
    var t := SkipSpace(s);
    SkipSpaceSpec(s);
    if t != [] {
      assert s[|s| - |t|] == t[0];
    }
  }

  /** Whitespace in front of the text does not change its tokens. */
  lemma TokensAfterSpace(c: char, rest: string)
    requires IsSpace(c)
    ensures Tokens([c] + rest) == Tokens(rest)
  {
    assert ([c] + rest)[1..] == rest;
  }

  /** The leading run of non-whitespace of `w + rest` is `w` when `rest` starts with whitespace or is empty. */
  lemma {:induction false} WordLengthOfWord(w: string, rest: string)
    requires forall i :: 0 <= i < |w| ==> !IsSpace(w[i])
    requires rest == [] || IsSpace(rest[0])
    ensures WordLength(w + rest) == |w|
  {
    if w == [] {
      assert w + rest == rest;
    } else {
      assert (w + rest)[0] == w[0];
      assert (w + rest)[1..] == w[1..] + rest;
      WordLengthOfWord(w[1..], rest);
    }
  }

  /** A word followed by whitespace (or by nothing) is the first token. */
  lemma TokensAfterWord(w: string, rest: string)
    requires IsWord(w)
    requires rest == [] || IsSpace(rest[0])
    ensures Tokens(w + rest) == [w] + Tokens(rest)
  {
    var s := w + rest;
    assert s[0] == w[0];
    assert SkipSpace(s) == s;
    WordLengthOfWord(w, rest);
    assert s[..|w|] == w;
    assert s[|w|..] == rest;
  }

  /** A word, one space and more text: the word is the first token, the rest follow. */
  lemma TokensAfterWordAndSpace(w: string, rest: string)
    requires IsWord(w)
    ensures Tokens(w + ([' '] + rest)) == [w] + Tokens(rest)
  {
    TokensAfterWord(w, [' '] + rest);
    TokensAfterSpace(' ', rest);
  }

  /** The text of one line: the words separated by single spaces, then a newline. */
  function Line(words: seq<string>): string {
    if |words| == 0 then "\n"
    else if |words| == 1 then words[0] + "\n"
    else words[0] + ([' '] + Line(words[1..]))
  }

  /** Splitting a line written by `Line` gives back its words. */
  lemma {:induction false} TokensOfLine(words: seq<string>)
    requires forall k :: 0 <= k < |words| ==> IsWord(words[k])
    ensures Tokens(Line(words)) == words
  {
    if |words| == 0 {
      TokensOfNewline();
    } else if |words| == 1 {
      TokensOfLastWord(words[0]);
    } else {
      TokensOfLine(words[1..]);
      TokensAfterWordAndSpace(words[0], Line(words[1..]));
      assert words == [words[0]] + words[1..];
    }
  }

  lemma TokensOfNewline()
    ensures Tokens("\n") == []
  {
    TokensEmptyIffBlank("\n");
  }

  lemma TokensOfLastWord(w: string)
    requires IsWord(w)
    ensures Tokens(w + "\n") == [w]
  {
    TokensOfNewline();
    TokensAfterWord(w, "\n");
  }

  /** The decimal text `int()` accepts after its sign: digits, with single `_` only between digits. */
  predicate IsDigitGroup(s: string) {
    |s| > 0 && IsDigit(s[0]) && IsDigit(s[|s| - 1]) &&
    (forall i :: 0 <= i < |s| ==> IsDigit(s[i]) || s[i] == '_') &&
    (forall i :: 0 <= i < |s| - 1 ==> s[i] == '_' ==> s[i + 1] != '_')
  }

  /** The number the digits of `s` denote, read left to right; `_` separators carry no value. */
  function DigitsValue(s: string): nat {
    if s == [] then 0
    else
      var c := s[|s| - 1];
      var v := DigitsValue(s[..|s| - 1]);
      if IsDigit(c) then 10 * v + (c as int - '0' as int) else v
  }

  /** `int(token)` in base 10: an optional sign, then a digit group; `None` where Python raises ValueError. */
  function ParseInt(s: string): (r: Option<int>)
  {
    if |s| > 0 && (s[0] == '+' || s[0] == '-') then
      var digits := s[1..];
      if IsDigitGroup(digits) then
        var v: int := DigitsValue(digits);
        Some(if s[0] == '-' then -v else v)
      else None
    else if IsDigitGroup(s) then Some(DigitsValue(s))
    else None
  }

  function DigitChar(d: int): (c: char)
    requires 0 <= d < 10
    ensures IsDigit(c) && c as int - '0' as int == d
  {
    ('0' as int + d) as char
  }

  /** The shortest decimal text of a natural number. */
  function FormatNat(n: nat): (s: string)
    ensures |s| > 0
    ensures forall i :: 0 <= i < |s| ==> IsDigit(s[i])
    ensures (|s| > 1 || n > 0) ==> s[0] != '0'
  {
    if n < 10 then [DigitChar(n)] else FormatNat(n / 10) + [DigitChar(n % 10)]
  }

  /** `f"{n}"` for a Python int: decimal digits with a leading `-` when negative. */
  function FormatInt(n: int): (s: string)
    ensures IsWord(s) && IsAscii(s)
    ensures forall i :: 0 <= i < |s| ==> IsDigit(s[i]) || (i == 0 && n < 0 && s[i] == '-')
    ensures n >= 0 && |s| > 1 ==> s[0] != '0'
    ensures n < 0 ==> |s| > 1 && s[0] == '-' && s[1] != '0'
  {
    if n < 0 then "-" + FormatNat(-n) else FormatNat(n)
  }

  lemma {:induction false} DigitsValueOfFormatNat(n: nat)
    ensures DigitsValue(FormatNat(n)) == n
  {
    if n >= 10 {
      var s := FormatNat(n);
      DigitsValueOfFormatNat(n / 10);
      assert s[..|s| - 1] == FormatNat(n / 10);
    }
  }

  /** The decimal text of a natural number is a digit group that denotes it. */
  lemma FormatNatReadsBack(n: nat)
    ensures IsDigitGroup(FormatNat(n)) && DigitsValue(FormatNat(n)) == n
  {
    DigitsValueOfFormatNat(n);
  }

  /** `int(f"{n}") == n`: the decimal text of an integer reads back as that integer. */
  lemma ParseFormatInt(n: int)
    ensures ParseInt(FormatInt(n)) == Some(n)
  {
    if n < 0 {
      FormatNatReadsBack(-n);
      ParseNegativeDigits(FormatNat(-n));
      assert FormatInt(n) == "-" + FormatNat(-n);
    } else {
      FormatNatReadsBack(n);
      ParseUnsignedDigits(FormatNat(n));
      assert FormatInt(n) == FormatNat(n);
    }
  }

  /** A sign, leading zeros and single `_` between digits are accepted. */
  lemma ParseIntAccepts()
    ensures ParseInt("+7") == Some(7) && ParseInt("-0") == Some(0) && ParseInt("007") == Some(7)
    ensures ParseInt("-1_000") == Some(-1000)
  {
    var plus, minus, zeros, grouped := "+7", "-0", "007", "-1_000";
    assert plus[1..] == "7" && minus[1..] == "0" && grouped[1..] == "1_000";
    assert DigitsValue("7") == 7 by { assert "7"[..0] == ""; }
    assert DigitsValue("0") == 0 by { assert "0"[..0] == ""; }
    assert DigitsValue("007") == 7 by {
      assert "007"[..2] == "00" && "00"[..1] == "0" && "0"[..0] == "";
    }
    assert DigitsValue("1_000") == 1000 by {
      assert "1_000"[..4] == "1_00" && "1_00"[..3] == "1_0" && "1_0"[..2] == "1_";
      assert "1_"[..1] == "1" && "1"[..0] == "";
    }
  }

  /** A doubled, leading or trailing `_`, a letter, a bare sign and the empty token are rejected. */
  lemma ParseIntRejects()
    ensures ParseInt("1__0") == None && ParseInt("_1") == None && ParseInt("1_") == None
    ensures ParseInt("12a") == None && ParseInt("-") == None && ParseInt("") == None
  {
    var doubled := "1__0";
    assert doubled[1] == '_' && doubled[2] == '_';
  }

  /** A digit group without a sign reads as the number its digits denote. */
  lemma ParseUnsignedDigits(digits: string)
    requires IsDigitGroup(digits)
    ensures ParseInt(digits) == Some(DigitsValue(digits))
  {
    assert digits[0] != '+' && digits[0] != '-';
  }

  /** A minus sign before a digit group negates the number. */
  lemma ParseNegativeDigits(digits: string)
    requires IsDigitGroup(digits)
    ensures var v: int := DigitsValue(digits); ParseInt("-" + digits) == Some(-v)
  {
    var s := "-" + digits;
    assert s[0] == '-' && s[1..] == digits;
  }

}
