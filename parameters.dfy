/** The checks `main` applies to the user's replies before blending (Main.kt:69-91, 112-113):
    key colour, transparency percentage, placement method, position and output file name.
    Each reply is a plain string; each check yields the parsed value or the error it throws. */
module Parameters {
  import opened Errors
  import opened Text
  import opened Pixels
  import opened Compositor

  // ---------------------------------------------------------------- key colour

  /** `matches(Regex("\\d+ \\d+ \\d+"))`: three digit runs separated by single spaces. */
  predicate MatchesColor(s: string) {
    var parts := Split(s, ' ');
    |parts| == 3 && IsDigits(parts[0]) && IsDigits(parts[1]) && IsDigits(parts[2])
  }

  /** The key colour reply (Main.kt:69-73): the pattern check, then `toInt` on each of the three
      pieces (which fails for a value beyond `Int`), then the 0..255 range check. */
  function ParseColor(s: string): (r: Result<Rgb>)
    ensures r.Ok? ==> MatchesColor(s)
    ensures !MatchesColor(s) ==> r == Err(InvalidTransparencyColor)
    ensures r.Err? ==> r.error in {InvalidTransparencyColor, NumberFormat}
  {
    if !MatchesColor(s) then Err(InvalidTransparencyColor)
    else
      var parts := Split(s, ' ');
      var red, green, blue := ToIntOrNull(parts[0]), ToIntOrNull(parts[1]), ToIntOrNull(parts[2]);
      if red.None? || green.None? || blue.None? then Err(NumberFormat)
      else if !(0 <= red.value <= 255 && 0 <= green.value <= 255 && 0 <= blue.value <= 255) then
        Err(InvalidTransparencyColor)
      else Ok(Rgb(red.value, green.value, blue.value))
  }

  /** A string matches the key colour pattern exactly when it is three digit runs joined by
      single spaces. */
  lemma {:induction false} ColorPatternShape(a: string, b: string, c: string)
    requires ' ' !in a && ' ' !in b && ' ' !in c
    ensures MatchesColor(a + " " + b + " " + c) <==> IsDigits(a) && IsDigits(b) && IsDigits(c)
  {
    SplitOfThree(a, b, c);
  }

  lemma {:induction false} MatchedColorShape(s: string)
    requires MatchesColor(s)
    ensures s == Split(s, ' ')[0] + " " + Split(s, ' ')[1] + " " + Split(s, ' ')[2]
  {
    var parts := Split(s, ' ');
    JoinSplit(s, ' ');
    assert parts[1..][1..] == [parts[2]];
    assert Join(parts[1..], ' ') == parts[1] + " " + parts[2];
    assert Join(parts, ' ') == parts[0] + " " + parts[1] + " " + parts[2];
  }

  lemma {:induction false} SplitOfThree(a: string, b: string, c: string)
    requires ' ' !in a && ' ' !in b && ' ' !in c
    ensures Split(a + " " + b + " " + c, ' ') == [a, b, c]
  {
    var parts := [a, b, c];
    assert parts[1..] == [b, c] && parts[1..][1..] == [c];
    assert Join(parts[1..], ' ') == b + " " + c;
    assert Join(parts, ' ') == a + " " + b + " " + c;
    SplitJoin(parts, ' ');
  }

  /** On three digit runs the key colour check succeeds exactly when every value is at most
      255, and then yields those values; it fails with NumberFormat exactly when some value is
      beyond `Int`, and with InvalidTransparencyColor otherwise. */
  lemma {:induction false} ParseColorDigits(a: string, b: string, c: string)
    requires IsDigits(a) && IsDigits(b) && IsDigits(c)
    ensures ParseColor(a + " " + b + " " + c).Ok?
        <==> DigitsValue(a) <= 255 && DigitsValue(b) <= 255 && DigitsValue(c) <= 255
    ensures ParseColor(a + " " + b + " " + c).Ok? ==>
      ParseColor(a + " " + b + " " + c).value == Rgb(DigitsValue(a), DigitsValue(b), DigitsValue(c))
    ensures ParseColor(a + " " + b + " " + c) == Err(NumberFormat)
        <==> DigitsValue(a) > INT_MAX || DigitsValue(b) > INT_MAX || DigitsValue(c) > INT_MAX
  {
    SplitOfThree(a, b, c);
    ToIntOrNullDigits(a);
    ToIntOrNullDigits(b);
    ToIntOrNullDigits(c);
  }

  /** Writing a colour as its three decimal channels separated by spaces is read back as that
      colour. */
  lemma ParseColorShow(k: Rgb)
    ensures ParseColor(Show(k.red) + " " + Show(k.green) + " " + Show(k.blue)) == Ok(k)
  {
    ShowValue(k.red);
    ShowValue(k.green);
    ShowValue(k.blue);
    ParseColorDigits(Show(k.red), Show(k.green), Show(k.blue));
  }

  // ---------------------------------------------------------------- percentage

  /** The percentage reply (Main.kt:77-79): `toIntOrNull`, then the 0..100 range check. */
  function ParsePercentage(s: string): (r: Result<Percent>)
    ensures r.Ok? ==> ToIntOrNull(s) == Some(r.value as int)
    ensures r == Err(NumberFormat) <==> ToIntOrNull(s).None?
    ensures ToIntOrNull(s).Some? && 0 <= ToIntOrNull(s).value <= 100 ==> r == Ok(ToIntOrNull(s).value)
    ensures r.Err? ==> r.error in {NumberFormat, InvalidTransparencyPercentage}
  {
    var n := ToIntOrNull(s);
    if n.None? then Err(NumberFormat)
    else if !(0 <= n.value <= 100) then Err(InvalidTransparencyPercentage)
    else Ok(n.value)
  }

  /** Every percentage, written in decimal with or without a `+`, is accepted as itself; a
      larger number that still fits an `Int`, or a negative one, is out of range; a number beyond
      `Int` is not a number at all. */
  lemma ParsePercentageShow(n: nat)
    ensures n <= 100 ==> ParsePercentage(Show(n)) == Ok(n) && ParsePercentage("+" + Show(n)) == Ok(n)
    ensures 100 < n <= INT_MAX ==> ParsePercentage(Show(n)) == Err(InvalidTransparencyPercentage)
    ensures 0 < n <= -INT_MIN ==> ParsePercentage("-" + Show(n)) == Err(InvalidTransparencyPercentage)
    ensures INT_MAX < n ==> ParsePercentage(Show(n)) == Err(NumberFormat)
  {
    ToIntOrNullShow(n);
  }

  // ---------------------------------------------------------------- placement method

  datatype PlacementMethod = SingleMethod | GridMethod

  /** The method reply (Main.kt:82-83): exactly "single" or "grid". */
  function ParseMethod(s: string): (r: Result<PlacementMethod>)
    ensures r == Ok(SingleMethod) <==> s == "single"
    ensures r == Ok(GridMethod) <==> s == "grid"
    ensures r.Err? ==> r.error == InvalidPositionMethod
  {
    if s == "single" then Ok(SingleMethod)
    else if s == "grid" then Ok(GridMethod)
    else Err(InvalidPositionMethod)
  }

  // ---------------------------------------------------------------- position

  /** `matches(Regex("-?\\d+ -?\\d+"))`: two optionally negated digit runs separated by one space. */
  predicate MatchesPosition(s: string) {
    var parts := Split(s, ' ');
    |parts| == 2 && IsSignedDigits(parts[0]) && IsSignedDigits(parts[1])
  }

  /** The position reply for single placement (Main.kt:86-91): the pattern check, `toInt` on
      both pieces, then `0 <= x <= maxX` and `0 <= y <= maxY`. */
  function ParsePosition(s: string, maxX: int, maxY: int): (r: Result<Position>)
    ensures r.Ok? ==> MatchesPosition(s)
    ensures r.Ok? ==> 0 <= r.value.x <= maxX && 0 <= r.value.y <= maxY
    ensures !MatchesPosition(s) ==> r == Err(InvalidPositionInput)
    ensures r.Err? ==> r.error in {InvalidPositionInput, NumberFormat, InvalidPosition}
  {
    if !MatchesPosition(s) then Err(InvalidPositionInput)
    else
      var parts := Split(s, ' ');
      var x, y := ToIntOrNull(parts[0]), ToIntOrNull(parts[1]);
      if x.None? || y.None? then Err(NumberFormat)
      else if !(0 <= x.value <= maxX) || !(0 <= y.value <= maxY) then Err(InvalidPosition)
      else Ok(Position(x.value, y.value))
  }

  /** Every position in range, written as two decimal numbers separated by a space, is read
      back as itself. */
  lemma {:induction false} ParsePositionShow(x: nat, y: nat, maxX: int, maxY: int)
    requires x <= maxX && y <= maxY && x <= INT_MAX && y <= INT_MAX
    ensures ParsePosition(Show(x) + " " + Show(y), maxX, maxY) == Ok(Position(x, y))
  {
    var parts := [Show(x), Show(y)];
    assert parts[1..] == [Show(y)];
    assert Join(parts, ' ') == Show(x) + " " + Show(y);
    SplitJoin(parts, ' ');
    ToIntOrNullShow(x);
    ToIntOrNullShow(y);
  }

  /** A well-formed position whose coordinates fit an `Int` but lie outside the range is
      refused with InvalidPosition: too large a coordinate, or a negative one written with a
      minus sign, in either place or in both. A coordinate beyond `Int` fails earlier, at `toInt`, with
      NumberFormat. */
  lemma {:induction false} ParsePositionOutOfRange(x: nat, y: nat, maxX: int, maxY: int)
    ensures x <= INT_MAX && y <= INT_MAX && (x > maxX || y > maxY) ==>
      ParsePosition(Show(x) + " " + Show(y), maxX, maxY) == Err(InvalidPosition)
    ensures 0 < x <= -INT_MIN && y <= INT_MAX ==>
      ParsePosition("-" + Show(x) + " " + Show(y), maxX, maxY) == Err(InvalidPosition)
    ensures x <= INT_MAX && 0 < y <= -INT_MIN ==>
      ParsePosition(Show(x) + " -" + Show(y), maxX, maxY) == Err(InvalidPosition)
    ensures 0 < x <= -INT_MIN && 0 < y <= -INT_MIN ==>
      ParsePosition("-" + Show(x) + " -" + Show(y), maxX, maxY) == Err(InvalidPosition)
    ensures x > INT_MAX || y > INT_MAX ==>
      ParsePosition(Show(x) + " " + Show(y), maxX, maxY) == Err(NumberFormat)
  {
    if x <= INT_MAX && y <= INT_MAX && (x > maxX || y > maxY) {
      ToIntOrNullShow(x);
      ToIntOrNullShow(y);
      PositionOfParts(Show(x), Show(y), maxX, maxY);
    }
    if 0 < x <= -INT_MIN && y <= INT_MAX {
      assert ("-" + Show(x))[1..] == Show(x);
      ToIntOrNullShow(x);
      ToIntOrNullShow(y);
      PositionOfParts("-" + Show(x), Show(y), maxX, maxY);
    }
    if x <= INT_MAX && 0 < y <= -INT_MIN {
      assert ("-" + Show(y))[1..] == Show(y);
      assert Show(x) + " -" + Show(y) == Show(x) + " " + ("-" + Show(y));
      ToIntOrNullShow(x);
      ToIntOrNullShow(y);
      PositionOfParts(Show(x), "-" + Show(y), maxX, maxY);
    }
    if 0 < x <= -INT_MIN && 0 < y <= -INT_MIN {
      assert ("-" + Show(x))[1..] == Show(x);
      assert ("-" + Show(y))[1..] == Show(y);
      assert "-" + Show(x) + " -" + Show(y) == ("-" + Show(x)) + " " + ("-" + Show(y));
      ToIntOrNullShow(x);
      ToIntOrNullShow(y);
      PositionOfParts("-" + Show(x), "-" + Show(y), maxX, maxY);
    }
    if x > INT_MAX || y > INT_MAX {
      ToIntOrNullShow(x);
      ToIntOrNullShow(y);
      PositionOfParts(Show(x), Show(y), maxX, maxY);
    }
  }

  /** A position reply made of two signed digit runs is read piece by piece: NumberFormat when
      either piece does not fit an `Int`, otherwise the range check on the two values. */
  lemma {:induction false} PositionOfParts(a: string, b: string, maxX: int, maxY: int)
    requires ' ' !in a && ' ' !in b && IsSignedDigits(a) && IsSignedDigits(b)
    ensures ToIntOrNull(a).None? || ToIntOrNull(b).None? ==>
      ParsePosition(a + " " + b, maxX, maxY) == Err(NumberFormat)
    ensures ToIntOrNull(a).Some? && ToIntOrNull(b).Some? ==>
      ParsePosition(a + " " + b, maxX, maxY)
      == if 0 <= ToIntOrNull(a).value <= maxX && 0 <= ToIntOrNull(b).value <= maxY
         then Ok(Position(ToIntOrNull(a).value, ToIntOrNull(b).value))
         else Err(InvalidPosition)
  {
    SplitOfTwo(a, b);
  }

  lemma {:induction false} SplitOfTwo(a: string, b: string)
    requires ' ' !in a && ' ' !in b
    ensures Split(a + " " + b, ' ') == [a, b]
  {
    var parts := [a, b];
    assert parts[1..] == [b];
    assert Join(parts, ' ') == a + " " + b;
    SplitJoin(parts, ' ');
  }

  // ---------------------------------------------------------------- output file name

  /** The characters a Java regular-expression `.` does not match. */
  predicate IsLineTerminator(c: char) {
    c == '\n' || c == '\r' || c == '\U{85}' || c == '\U{2028}' || c == '\U{2029}'
  }

  /** `matches(Regex(".+\\.(jpg|png)"))` on the whole name. */
  predicate MatchesFileName(s: string) {
    && |s| >= 5
    && s[|s| - 4] == '.'
    && s[|s| - 3..] in {"jpg", "png"}
    && forall i :: 0 <= i < |s| - 4 ==> !IsLineTerminator(s[i])
  }

  /** The output file name reply (Main.kt:112-113): on success, the format handed to
      `ImageIO.write`, the name's last three characters (Main.kt:117). */
  function ParseFileName(s: string): (r: Result<string>)
    ensures r.Ok? ==> r.value in {"jpg", "png"} && |s| > 4 && s == s[..|s| - 4] + "." + r.value
    ensures r.Err? ==> r.error == InvalidFileName
  {
    if MatchesFileName(s) then Ok(s[|s| - 3..]) else Err(InvalidFileName)
  }

  /** A name is `stem.ext` with format `ext` exactly when the stem is not empty, holds no line
      terminator, and the extension is `jpg` or `png`. */
  lemma FileNameParts(stem: string, ext: string)
    ensures ParseFileName(stem + "." + ext) == Ok(ext)
        <==> |stem| > 0 && (forall i :: 0 <= i < |stem| ==> !IsLineTerminator(stem[i])) && ext in {"jpg", "png"}
  {
    var s := stem + "." + ext;
    if ParseFileName(s) == Ok(ext) {
      assert |ext| == 3;
      assert s[..|s| - 4] == stem;
      assert forall i :: 0 <= i < |stem| ==> s[i] == stem[i];
    }
    if |stem| > 0 && (forall i :: 0 <= i < |stem| ==> !IsLineTerminator(stem[i])) && ext in {"jpg", "png"} {
      assert s[|s| - 3..] == ext;
      assert forall i :: 0 <= i < |s| - 4 ==> s[i] == stem[i];
    }
  }
}
