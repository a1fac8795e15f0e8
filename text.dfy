/** String helpers behind the program's input validation: the digit classes of its
    regular expressions, Kotlin's `toIntOrNull` / `toInt`, `split(" ")` and `lowercase()`.
    Strings are sequences of characters; digits are the ASCII digits `0`-`9`. */
module Text {
  import opened Errors

  const INT_MIN: int := -0x8000_0000
  const INT_MAX: int := 0x7FFF_FFFF

  /** A value that fits Kotlin's 32-bit `Int`. */
  predicate InIntRange(v: int) {
    INT_MIN <= v <= INT_MAX
  }

  predicate IsDigit(c: char) {
    '0' <= c <= '9'
  }

  /** The regular-expression class `\d+`: one or more ASCII digits. */
  predicate IsDigits(s: string) {
    |s| > 0 && forall i :: 0 <= i < |s| ==> IsDigit(s[i])
  }

  /** The regular expression `-?\d+`. */
  predicate IsSignedDigits(s: string) {
    IsDigits(s) || (|s| > 1 && s[0] == '-' && IsDigits(s[1..]))
  }

  function DigitValue(c: char): (d: nat)
    requires IsDigit(c)
    ensures d < 10
  {
    (c as int) - ('0' as int)
  }

  function DigitChar(d: nat): (c: char)
    requires d < 10
    ensures IsDigit(c) && DigitValue(c) == d
  {
    ('0' as int + d) as char
  }

  /** The decimal value of a run of digits, read from the left. */
  function DigitsValue(s: string): nat
    requires forall i :: 0 <= i < |s| ==> IsDigit(s[i])
    decreases |s|
  {
    if |s| == 0 then 0 else 10 * DigitsValue(s[..|s| - 1]) + DigitValue(s[|s| - 1])
  }

  /** The decimal text of a natural number, without leading zeros. */
  function Show(n: nat): (s: string)
    ensures IsDigits(s)
    ensures ' ' !in s && '-' !in s
    decreases n
  {
    if n < 10 then [DigitChar(n)] else Show(n / 10) + [DigitChar(n % 10)]
  }

  lemma {:induction false} ShowValue(n: nat)
    ensures DigitsValue(Show(n)) == n
    decreases n
  {
    if n >= 10 {
      var s := Show(n);
      assert s[..|s| - 1] == Show(n / 10);
      ShowValue(n / 10);
    }
  }

  /** Kotlin's `String.toIntOrNull()`: an optional `+` or `-` followed by at least one digit,
      whose value fits an `Int`; anything else gives null (None). The library's `toInt()`
      behaves the same way, throwing NumberFormatException where this gives None. */
  function ToIntOrNull(s: string): (r: Option<int>)
    ensures r.Some? ==> InIntRange(r.value)
    ensures r.Some? ==> IsDigits(s) || (|s| > 1 && s[0] in "+-" && IsDigits(s[1..]))
  {
    if |s| == 0 then None
    else if s[0] < '0' then
      // a possible leading sign
      if |s| == 1 then None
      else if s[0] == '-' && IsDigits(s[1..]) && InIntRange(-(DigitsValue(s[1..]) as int)) then Some(-(DigitsValue(s[1..]) as int))
      else if s[0] == '+' && IsDigits(s[1..]) && InIntRange(DigitsValue(s[1..])) then Some(DigitsValue(s[1..]))
      else None
    else if IsDigits(s) && InIntRange(DigitsValue(s)) then Some(DigitsValue(s))
    else None
  }

  /** A digit run, bare or after a `+`, reads as its value when that fits an `Int`; after a
      `-` it reads as the negated value down to -2^31; leading zeros change nothing. Beyond
      those bounds it reads as null. */
  lemma ToIntOrNullDigits(d: string)
    requires IsDigits(d)
    ensures ToIntOrNull(d) == if DigitsValue(d) <= INT_MAX then Some(DigitsValue(d) as int) else None
    ensures ToIntOrNull("+" + d) == if DigitsValue(d) <= INT_MAX then Some(DigitsValue(d) as int) else None
    ensures ToIntOrNull("-" + d) == if DigitsValue(d) <= -INT_MIN then Some(-(DigitsValue(d) as int)) else None
  {
    assert ("+" + d)[1..] == d;
    assert ("-" + d)[1..] == d;
  }

  /** The decimal text of an `Int` read back by `ToIntOrNull` gives the same `Int`, and
      writing it with a leading `+` or, for a value of at most 2^31, as a negated digit
      run, is read as well. */
  lemma ToIntOrNullShow(n: nat)
    ensures n <= INT_MAX ==> ToIntOrNull(Show(n)) == Some(n)
    ensures n <= INT_MAX ==> ToIntOrNull("+" + Show(n)) == Some(n)
    ensures n <= -INT_MIN ==> ToIntOrNull("-" + Show(n)) == Some(-(n as int))
    ensures n > INT_MAX ==> ToIntOrNull(Show(n)) == None
    ensures n > INT_MAX ==> ToIntOrNull("+" + Show(n)) == None
    ensures n > -INT_MIN ==> ToIntOrNull("-" + Show(n)) == None
  {
    ShowValue(n);
    assert ("+" + Show(n))[1..] == Show(n);
    assert ("-" + Show(n))[1..] == Show(n);
  }

  /** Kotlin's `split(sep)`: the pieces between the separators, keeping empty ones. */
  function Split(s: string, sep: char): (parts: seq<string>)
    ensures |parts| >= 1
    ensures forall k :: 0 <= k < |parts| ==> sep !in parts[k]
    decreases |s|
  {
    if |s| == 0 then [""]
    else
      var rest := Split(s[1..], sep);
      if s[0] == sep then [""] + rest
      else [[s[0]] + rest[0]] + rest[1..]
  }

  /** The inverse of `Split`: the pieces with a separator between each two. */
  function Join(parts: seq<string>, sep: char): string
    requires |parts| >= 1
    decreases |parts|
  {
    if |parts| == 1 then parts[0] else parts[0] + [sep] + Join(parts[1..], sep)
  }

  lemma {:induction false} JoinSplit(s: string, sep: char)
    ensures Join(Split(s, sep), sep) == s
    decreases |s|
  {
    if |s| > 0 {
      JoinSplit(s[1..], sep);
      var rest := Split(s[1..], sep);
      if s[0] == sep {
        assert Split(s, sep)[1..] == rest;
      } else if |rest| == 1 {
        assert Split(s, sep) == [[s[0]] + rest[0]];
      } else {
        var parts := Split(s, sep);
        assert parts[1..] == rest[1..];
        assert Join(rest, sep) == rest[0] + [sep] + Join(rest[1..], sep);
      }
    }
  }

  /** Splitting a piece without separators, followed by a separator and more text, yields
      that piece first. */
  lemma {:induction false} SplitPrefix(a: string, b: string, sep: char)
    requires sep !in a
    ensures Split(a + [sep] + b, sep) == [a] + Split(b, sep)
    decreases |a|
  {
    if |a| > 0 {
      assert (a + [sep] + b)[1..] == a[1..] + [sep] + b;
      SplitPrefix(a[1..], b, sep);
      assert [a[0]] + a[1..] == a;
    } else {
      assert a + [sep] + b == [sep] + b;
      assert ([sep] + b)[1..] == b;
    }
  }

  lemma {:induction false} SplitNone(a: string, sep: char)
    requires sep !in a
    ensures Split(a, sep) == [a]
    decreases |a|
  {
    if |a| > 0 {
      SplitNone(a[1..], sep);
      assert [a[0]] + a[1..] == a;
    }
  }

  lemma {:induction false} SplitJoin(parts: seq<string>, sep: char)
    requires |parts| >= 1
    requires forall k :: 0 <= k < |parts| ==> sep !in parts[k]
    ensures Split(Join(parts, sep), sep) == parts
    decreases |parts|
  {
    if |parts| == 1 {
      SplitNone(parts[0], sep);
    } else {
      SplitJoin(parts[1..], sep);
      SplitPrefix(parts[0], Join(parts[1..], sep), sep);
      assert [parts[0]] + parts[1..] == parts;
    }
  }

  function LowerChar(c: char): char {
    if 'A' <= c <= 'Z' then (c as int - 'A' as int + 'a' as int) as char else c
  }

  /** Kotlin's `lowercase()`, restricted to the ASCII letters. */
  function Lower(s: string): (r: string)
    ensures |r| == |s|
    ensures forall i :: 0 <= i < |s| ==> r[i] == LowerChar(s[i])
  {
    seq(|s|, i requires 0 <= i < |s| => LowerChar(s[i]))
  }

  /** The replies that lowercase to "yes" are exactly the eight spellings of "yes" in any
      mix of upper and lower case. */
  lemma LowerIsYes(s: string)
    ensures Lower(s) == "yes" <==>
      |s| == 3 && s[0] in "yY" && s[1] in "eE" && s[2] in "sS"
  {
  }
}
