/**
 * The JDK string operations the person parser relies on, stated on Dafny strings:
 * `String.split(" ")`, `String.trim()`, `Integer.parseInt` (and its inverse `Integer.toString`)
 * and `String.compareTo`.
 */
module JavaText {
  import opened Wrappers
  import opened Domain

  // ---------------------------------------------------------------------------
  // String.split(" ")
  // ---------------------------------------------------------------------------

  /** The tokens joined back with one space between each two of them. */
  function Join(toks: seq<string>): string
    decreases |toks|
  {
    if toks == [] then ""
    else if |toks| == 1 then toks[0]
    else toks[0] + " " + Join(toks[1..])
  }

  /** Every piece of `s` between two spaces (or an end of `s`), empty pieces included. */
  function Segments(s: string): (r: seq<string>)
    ensures |r| >= 1
    ensures forall k :: 0 <= k < |r| ==> ' ' !in r[k]
    ensures Join(r) == s
    decreases |s|
  {
    if s == [] then [""]
    else
      var rest := Segments(s[1..]);
      if s[0] == ' ' then [""] + rest
      else
        var r := [[s[0]] + rest[0]] + rest[1..];
        assert r[1..] == rest[1..];
        r
  }

  /** Removes the empty strings at the end of `r`. */
  function DropTrailingEmpty(r: seq<string>): (d: seq<string>)
    ensures |d| <= |r| && d == r[..|d|]
    ensures d == [] || d[|d| - 1] != ""
    ensures forall k :: |d| <= k < |r| ==> r[k] == ""
    decreases |r|
  {
    if r == [] then []
    else if r[|r| - 1] == "" then DropTrailingEmpty(r[..|r| - 1])
    else r
  }

  /**
   * `s.split(" ")`: a string without a space is its own only token (so "" gives [""]);
   * otherwise the pieces between single spaces, trailing empty pieces removed.
   */
  function Split(s: string): (r: seq<string>)
    ensures forall k :: 0 <= k < |r| ==> ' ' !in r[k]
    ensures ' ' !in s ==> r == [s]
    ensures ' ' in s ==> |r| <= |Segments(s)| && r == Segments(s)[..|r|] && (r == [] || r[|r| - 1] != "")
    ensures ' ' in s ==> forall k :: |r| <= k < |Segments(s)| ==> Segments(s)[k] == ""
  {
    if ' ' !in s then [s] else DropTrailingEmpty(Segments(s))
  }

  /** Splitting `a + " " + rest` cuts `a` off first when `a` holds no space. */
  lemma {:induction false} SegmentsCons(a: string, rest: string)
    requires ' ' !in a
    ensures Segments(a + " " + rest) == [a] + Segments(rest)
    decreases |a|
  {
    if a == [] {
      assert a + " " + rest == [' '] + rest;
      assert (a + " " + rest)[1..] == rest;
    } else {
      var s := a + " " + rest;
      assert s[1..] == a[1..] + " " + rest;
      assert s[0] == a[0];
      SegmentsCons(a[1..], rest);
      assert [a[0]] + a[1..] == a;
    }
  }

  /** Cutting a joined list of space-free tokens at its spaces gives the tokens back. */
  lemma {:induction false} SegmentsOfJoin(toks: seq<string>)
    requires |toks| >= 1
    requires forall k :: 0 <= k < |toks| ==> ' ' !in toks[k]
    ensures Segments(Join(toks)) == toks
    decreases |toks|
  {
    if |toks| == 1 {
      SegmentsNoSpace(toks[0]);
    } else {
      SegmentsOfJoin(toks[1..]);
      SegmentsCons(toks[0], Join(toks[1..]));
      assert [toks[0]] + toks[1..] == toks;
    }
  }

  /** A string without a space is a single piece. */
  lemma {:induction false} SegmentsNoSpace(s: string)
    requires ' ' !in s
    ensures Segments(s) == [s]
    decreases |s|
  {
    if s != [] {
      assert ' ' !in s[1..] by {
        forall k | 0 <= k < |s[1..]| ensures s[1..][k] != ' ' { assert s[1..][k] == s[k + 1]; }
      }
      SegmentsNoSpace(s[1..]);
      assert [s[0]] + s[1..] == s;
    }
  }

  /**
   * `split(" ")` inverts joining with single spaces, for tokens without spaces whose last
   * token is non-empty (a single token may be empty).
   */
  lemma SplitJoin(toks: seq<string>)
    requires |toks| >= 1
    requires forall k :: 0 <= k < |toks| ==> ' ' !in toks[k]
    requires |toks| == 1 || toks[|toks| - 1] != ""
    ensures Split(Join(toks)) == toks
  {
    if |toks| == 1 {
    } else {
      assert Join(toks) == toks[0] + " " + Join(toks[1..]);
      assert Join(toks)[|toks[0]|] == ' ';
      SegmentsOfJoin(toks);
      DropKeepsNonEmptyEnd(toks);
    }
  }

  lemma DropKeepsNonEmptyEnd(r: seq<string>)
    requires r != [] && r[|r| - 1] != ""
    ensures DropTrailingEmpty(r) == r
  {
  }

  /** A non-empty line made only of spaces splits into no token at all. */
  lemma {:induction false} SplitOnlySpaces(s: string)
    requires s != []
    requires forall k :: 0 <= k < |s| ==> s[k] == ' '
    ensures Split(s) == []
  {
    assert s[0] == ' ';
    AllEmptySegments(s);
    AllEmptyDropped(Segments(s));
  }

  lemma {:induction false} AllEmptySegments(s: string)
    requires forall k :: 0 <= k < |s| ==> s[k] == ' '
    ensures forall k :: 0 <= k < |Segments(s)| ==> Segments(s)[k] == ""
    decreases |s|
  {
    if s != [] {
      AllEmptySegments(s[1..]);
    }
  }

  lemma {:induction false} AllEmptyDropped(r: seq<string>)
    requires forall k :: 0 <= k < |r| ==> r[k] == ""
    ensures DropTrailingEmpty(r) == []
    decreases |r|
  {
    if r != [] {
      AllEmptyDropped(r[..|r| - 1]);
    }
  }

  // ---------------------------------------------------------------------------
  // String.trim()
  // ---------------------------------------------------------------------------

  /** `trim()` strips every character whose code is at most U+0020 (space and control characters). */
  predicate IsTrimmable(c: char) { c <= ' ' }

  /** A string that `trim()` leaves as it is. */
  predicate IsTrimmed(s: string)
  {
    s == [] || (!IsTrimmable(s[0]) && !IsTrimmable(s[|s| - 1]))
  }

  function TrimStart(s: string): (r: string)
    ensures |r| <= |s| && r == s[|s| - |r|..]
    ensures r == [] || !IsTrimmable(r[0])
    ensures forall k :: 0 <= k < |s| - |r| ==> IsTrimmable(s[k])
    decreases |s|
  {
    if s != [] && IsTrimmable(s[0]) then TrimStart(s[1..]) else s
  }

  function TrimEnd(s: string): (r: string)
    ensures |r| <= |s| && r == s[..|r|]
    ensures r == [] || !IsTrimmable(r[|r| - 1])
    ensures forall k :: |r| <= k < |s| ==> IsTrimmable(s[k])
    decreases |s|
  {
    if s != [] && IsTrimmable(s[|s| - 1]) then TrimEnd(s[..|s| - 1]) else s
  }

  /**
   * `s.trim()`: the longest infix of `s` that neither starts nor ends with a trimmable
   * character; everything cut off on either side is trimmable.
   */
  function Trim(s: string): (r: string)
    ensures IsTrimmed(r)
    ensures |r| <= |s|
    ensures IsTrimmed(s) ==> r == s
  {
    var t := TrimStart(s);
    assert t == [] || t[|t| - 1] == s[|s| - 1];
    TrimEnd(t)
  }

  /** `r` is the infix of `s` at `i`, and everything before and after it is trimmable. */
  ghost predicate InfixAfterCuts(s: string, r: string, i: int)
  {
    && 0 <= i && i + |r| <= |s| && r == s[i..i + |r|]
    && (forall k :: 0 <= k < i ==> IsTrimmable(s[k]))
    && (forall k :: i + |r| <= k < |s| ==> IsTrimmable(s[k]))
  }

  /** What `trim()` removes: only trimmable characters, and only from the two ends. */
  lemma TrimIsInfix(s: string)
    ensures exists i :: InfixAfterCuts(s, Trim(s), i)
  {
    var t := TrimStart(s);
    var i := |s| - |t|;
    var r := Trim(s);
    assert r == TrimEnd(t);
    forall k | i + |r| <= k < |s|
      ensures IsTrimmable(s[k])
    {
      assert s[k] == t[k - i];
    }
    assert InfixAfterCuts(s, r, i);
  }

  lemma TrimIdempotent(s: string)
    ensures Trim(Trim(s)) == Trim(s)
  {
  }

  // ---------------------------------------------------------------------------
  // Integer.parseInt and Integer.toString
  // ---------------------------------------------------------------------------

  predicate IsDigit(c: char) { '0' <= c <= '9' }

  predicate AllDigits(s: string) { forall k :: 0 <= k < |s| ==> IsDigit(s[k]) }

  function DigitValue(c: char): (d: nat)
    requires IsDigit(c)
    ensures d < 10
  {
    (c as int) - ('0' as int)
  }

  /** The value of a string of decimal digits, leading zeros allowed. */
  function DecimalValue(s: string): nat
    requires AllDigits(s)
    decreases |s|
  {
    if s == [] then 0 else DecimalValue(s[..|s| - 1]) * 10 + DigitValue(s[|s| - 1])
  }

  /**
   * `Integer.parseInt(s)`: an optional '-' or '+', then at least one decimal digit, and the value
   * must lie in the range of a Java `int`; anything else (the empty string, a lone sign, a space,
   * an overflow) is a NumberFormatException, here `None`.
   */
  function ParseInt(s: string): (r: Option<int>)
    ensures r.Some? ==> IsInt32(r.value)
    ensures r.Some? ==> s != [] && (IsDigit(s[0]) || s[0] == '-' || s[0] == '+')
    ensures r.Some? ==> forall k :: 1 <= k < |s| ==> IsDigit(s[k])
  {
    if s == [] then None
    else
      var digits := if s[0] == '-' || s[0] == '+' then s[1..] else s;
      if digits == [] || !AllDigits(digits) then None
      else
        var magnitude: int := DecimalValue(digits);
        var v: int := if s[0] == '-' then -magnitude else magnitude;
        if IsInt32(v) then Some(v) else None
  }

  function DigitChar(d: nat): (c: char)
    requires d < 10
    ensures IsDigit(c) && DigitValue(c) == d
  {
    (('0' as int) + d) as char
  }

  /** The decimal digits of `n`, without leading zeros. */
  function Digits(n: nat): (s: string)
    ensures |s| >= 1 && AllDigits(s)
    decreases n
  {
    if n < 10 then [DigitChar(n)] else Digits(n / 10) + [DigitChar(n % 10)]
  }

  /** `Integer.toString(n)`: a '-' for a negative number, then the digits of its magnitude. */
  function FormatInt(n: int): (s: string)
    ensures s != [] && ' ' !in s
    ensures forall k :: 0 <= k < |s| ==> IsDigit(s[k]) || (k == 0 && n < 0 && s[k] == '-')
  {
    if n < 0 then "-" + Digits(-n) else Digits(n)
  }

  lemma {:induction false} DigitsValue(n: nat)
    ensures DecimalValue(Digits(n)) == n
    decreases n
  {
    if n >= 10 {
      DigitsValue(n / 10);
      var s := Digits(n);
      assert s[..|s| - 1] == Digits(n / 10);
    }
  }

  /** `Integer.parseInt` reads back what `Integer.toString` writes, for every Java `int`. */
  lemma ParseFormatInt(n: int)
    requires IsInt32(n)
    ensures ParseInt(FormatInt(n)) == Some(n)
  {
    var s := FormatInt(n);
    if n < 0 {
      assert s[1..] == Digits(-n);
      DigitsValue(-n);
    } else {
      DigitsValue(n);
    }
  }

  /** `parseInt` accepts a sign and leading zeros, and negative numbers. */
  lemma ParseIntExamples()
    ensures ParseInt("+007") == Some(7)
    ensures ParseInt("-5") == Some(-5)
    ensures ParseInt("") == None && ParseInt("-") == None && ParseInt("2147483648") == None
  {
    assert "+007"[1..] == "007";
    assert "007"[..2] == "00" && "00"[..1] == "0" && "0"[..0] == "";
    assert DecimalValue("007") == 7;
    assert "-5"[1..] == "5";
    assert "2147483648"[..9] == "214748364";
    assert "214748364"[..8] == "21474836";
    assert "21474836"[..7] == "2147483";
    assert "2147483"[..6] == "214748";
    assert "214748"[..5] == "21474";
    assert "21474"[..4] == "2147";
    assert "2147"[..3] == "214";
    assert "214"[..2] == "21";
    assert "21"[..1] == "2";
  }

  // ---------------------------------------------------------------------------
  // String.compareTo
  // ---------------------------------------------------------------------------

  /**
   * `a.compareTo(b)`: the difference of the first two differing characters, or, when one string
   * is a prefix of the other, the difference of the lengths.
   */
  function CompareStrings(a: string, b: string): (c: int)
    ensures c == 0 <==> a == b
    decreases |a|
  {
    if a == [] || b == [] then |a| - |b|
    else if a[0] != b[0] then (a[0] as int) - (b[0] as int)
    else
      var c := CompareStrings(a[1..], b[1..]);
      assert a == [a[0]] + a[1..] && b == [b[0]] + b[1..];
      c
  }

  lemma {:induction false} CompareStringsAntisymmetric(a: string, b: string)
    ensures CompareStrings(b, a) == -CompareStrings(a, b)
    decreases |a|
  {
    if a != [] && b != [] && a[0] == b[0] {
      CompareStringsAntisymmetric(a[1..], b[1..]);
    }
  }

  lemma {:induction false} CompareStringsTransitive(a: string, b: string, c: string)
    requires CompareStrings(a, b) <= 0 && CompareStrings(b, c) <= 0
    ensures CompareStrings(a, c) <= 0
    ensures CompareStrings(a, b) < 0 || CompareStrings(b, c) < 0 ==> CompareStrings(a, c) < 0
    decreases |a|
  {
    if a != [] && b != [] && c != [] && a[0] == b[0] && b[0] == c[0] {
      CompareStringsTransitive(a[1..], b[1..], c[1..]);
    }
  }
}
