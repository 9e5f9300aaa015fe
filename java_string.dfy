/**
 * The java.lang.String and java.lang.Integer operations the servers rely on:
 * decimal formatting of an index (string concatenation with an int),
 * Integer.parseInt, String.trim, String.split on a single character,
 * toUpperCase and equalsIgnoreCase. Case mapping is modelled for ASCII only.
 */
module JavaString {
  import opened Wrappers
  import opened Sequences

  const INT_MIN: int := -0x8000_0000
  const INT_MAX: int := 0x7FFF_FFFF

  predicate IsDigit(c: char) {
    '0' <= c <= '9'
  }

  predicate AllDigits(s: string) {
    forall k :: 0 <= k < |s| ==> IsDigit(s[k])
  }

  function DigitChar(d: nat): (c: char)
    requires d < 10
    ensures IsDigit(c)
  {
    ('0' as int + d) as char
  }

  function DigitValue(c: char): nat
    requires IsDigit(c)
  {
    c as int - '0' as int
  }

  /** The decimal text of a non-negative int, as `"" + i` produces it in Java. */
  function Decimal(n: nat): (s: string)
    ensures |s| >= 1 && AllDigits(s)
  {
    if n < 10 then [DigitChar(n)] else Decimal(n / 10) + [DigitChar(n % 10)]
  }

  /** The value of a string of decimal digits, most significant digit first. */
  function DigitsValue(s: string): nat
    requires AllDigits(s)
  {
    if s == [] then 0 else DigitsValue(s[..|s| - 1]) * 10 + DigitValue(s[|s| - 1])
  }

  lemma {:induction false} DecimalValue(n: nat)
    ensures DigitsValue(Decimal(n)) == n
  {
    if n >= 10 {
      var s := Decimal(n);
      assert s[..|s| - 1] == Decimal(n / 10);
      DecimalValue(n / 10);
    }
  }

  /** A larger number never prints shorter. */
  lemma {:induction false} DecimalLengthMonotonic(a: nat, b: nat)
    requires a <= b
    ensures |Decimal(a)| <= |Decimal(b)|
  {
    if a >= 10 {
      DecimalLengthMonotonic(a / 10, b / 10);
    }
  }

  /** Different indices never print the same way. */
  lemma DecimalInjective(a: nat, b: nat)
    requires Decimal(a) == Decimal(b)
    ensures a == b
  {
    DecimalValue(a);
    DecimalValue(b);
  }

  /**
   * Integer.parseInt(s) in radix 10: an optional sign, at least one digit,
   * nothing else, and a value inside the 32-bit range. None stands for the
   * NumberFormatException it throws otherwise.
   */
  function ParseInt(s: string): (r: Option<int>)
    ensures r.Some? ==> INT_MIN <= r.value <= INT_MAX
  {
    if s == [] then None
    else
      var signed := s[0] == '-' || s[0] == '+';
      var digits := if signed then s[1..] else s;
      if digits == [] || !AllDigits(digits) then None
      else
        var v: int := if s[0] == '-' then 0 - DigitsValue(digits) else DigitsValue(digits);
        if INT_MIN <= v <= INT_MAX then Some(v) else None
  }

  /** parseInt reads back what decimal formatting writes, over the whole int range. */
  lemma ParseIntDecimal(n: nat)
    requires n <= INT_MAX
    ensures ParseInt(Decimal(n)) == Some(n)
    ensures ParseInt("-" + Decimal(n)) == Some(0 - n)
  {
    DecimalValue(n);
    var s := "-" + Decimal(n);
    assert s[1..] == Decimal(n);
  }

  /** A text with a character that is neither a digit nor a leading sign is rejected. */
  lemma ParseIntRejectsNonDigit(s: string, k: nat)
    requires 0 < k < |s| || (k == 0 && |s| > 0 && s[0] != '-' && s[0] != '+')
    requires !IsDigit(s[k])
    ensures ParseInt(s) == None
  {
    if k > 0 && (s[0] == '-' || s[0] == '+') {
      assert s[1..][k - 1] == s[k];
    }
  }

  // ---------------------------------------------------------------- trim

  /** String.trim removes every leading and trailing code point up to U+0020. */
  predicate IsTrimmable(c: char) {
    c <= ' '
  }

  function TrimStart(s: string): (r: string)
    ensures |r| <= |s| && r == s[|s| - |r|..]
    ensures r == [] || !IsTrimmable(r[0])
    ensures forall k :: 0 <= k < |s| - |r| ==> IsTrimmable(s[k])
    decreases |s|
  {
    if s != [] && IsTrimmable(s[0]) then
      var r := TrimStart(s[1..]);
      assert forall k :: 1 <= k < |s| ==> s[k] == s[1..][k - 1];
      r
    else s
  }

  function TrimEnd(s: string): (r: string)
    ensures |r| <= |s| && r == s[..|r|]
    ensures r == [] || !IsTrimmable(r[|r| - 1])
    ensures forall k :: |r| <= k < |s| ==> IsTrimmable(s[k])
    decreases |s|
  {
    if s != [] && IsTrimmable(s[|s| - 1]) then
      var r := TrimEnd(s[..|s| - 1]);
      assert forall k :: 0 <= k < |s| - 1 ==> s[k] == s[..|s| - 1][k];
      r
    else s
  }

  /**
   * r is s[i..j], and every character of s before i or from j on is
   * trimmable.
   */
  predicate TrimmedSlice(s: string, r: string, i: int, j: int) {
    && 0 <= i <= j <= |s| && r == s[i..j]
    && (forall k :: 0 <= k < i ==> IsTrimmable(s[k]))
    && (forall k :: j <= k < |s| ==> IsTrimmable(s[k]))
  }

  /** String.trim: the slice of s left once the trimmable characters at both ends are removed. */
  function Trim(s: string): (r: string)
    ensures r == [] || (!IsTrimmable(r[0]) && !IsTrimmable(r[|r| - 1]))
    ensures r == [] <==> forall k :: 0 <= k < |s| ==> IsTrimmable(s[k])
    ensures exists i, j :: TrimmedSlice(s, r, i, j)
  {
    var t := TrimStart(s);
    var r := TrimEnd(t);
    TrimBothEnds(s, t, r);
    r
  }

  /**
   * Trimming the start, then the end, leaves the slice between the
   * trimmable ends: t is what TrimStart leaves of s, r what TrimEnd leaves
   * of t.
   */
  lemma TrimBothEnds(s: string, t: string, r: string)
    requires |t| <= |s| && t == s[|s| - |t|..] && (t == [] || !IsTrimmable(t[0]))
    requires forall k :: 0 <= k < |s| - |t| ==> IsTrimmable(s[k])
    requires |r| <= |t| && r == t[..|r|] && (r == [] || !IsTrimmable(r[|r| - 1]))
    requires forall k :: |r| <= k < |t| ==> IsTrimmable(t[k])
    ensures r == [] || (!IsTrimmable(r[0]) && !IsTrimmable(r[|r| - 1]))
    ensures r == [] <==> forall k :: 0 <= k < |s| ==> IsTrimmable(s[k])
    ensures TrimmedSlice(s, r, |s| - |t|, |s| - |t| + |r|)
  {
    var i := |s| - |t|;
    PrefixOfSuffix(s, i, |r|);
    forall k | i + |r| <= k < |s|
      ensures IsTrimmable(s[k])
    {
      assert s[k] == t[k - i];
    }
    if r != [] {
      assert r[0] == t[0];
    }
  }

  // ---------------------------------------------------------------- split

  /** The parts joined back with the separator between them. */
  function Join(parts: seq<string>, sep: char): string
    requires |parts| >= 1
  {
    if |parts| == 1 then parts[0] else parts[0] + [sep] + Join(parts[1..], sep)
  }

  /** Every piece between separators, empty ones included. */
  function SplitAll(s: string, sep: char): (parts: seq<string>)
    ensures |parts| >= 1
    ensures forall k :: 0 <= k < |parts| ==> sep !in parts[k]
    ensures Join(parts, sep) == s
    decreases |s|
  {
    if s == [] then [""]
    else
      var tail := SplitAll(s[1..], sep);
      if s[0] == sep then
        assert Join([""] + tail, sep) == [sep] + Join(tail, sep) by {
          assert ([""] + tail)[1..] == tail;
        }
        [""] + tail
      else
        var parts := [[s[0]] + tail[0]] + tail[1..];
        assert Join(parts, sep) == [s[0]] + Join(tail, sep) by {
          if |tail| > 1 {
            assert parts[1..] == tail[1..];
          }
        }
        parts
  }

  /** Drops the empty strings at the end, as split with limit 0 does. */
  function DropTrailingEmpty(parts: seq<string>): (r: seq<string>)
    ensures |r| <= |parts| && r == parts[..|r|]
    ensures r == [] || r[|r| - 1] != []
    ensures forall k :: |r| <= k < |parts| ==> parts[k] == []
  {
    if parts != [] && parts[|parts| - 1] == [] then DropTrailingEmpty(parts[..|parts| - 1]) else parts
  }

  /**
   * s.split(String.valueOf(sep)): the string itself when the separator does
   * not occur, otherwise every piece between separators with the trailing
   * empty pieces removed (a leading empty piece is kept).
   */
  function Split(s: string, sep: char): seq<string> {
    if sep !in s then [s] else DropTrailingEmpty(SplitAll(s, sep))
  }

  /** A string without the separator is a single piece. */
  lemma {:induction false} SplitAllWithout(c: string, sep: char)
    requires sep !in c
    ensures SplitAll(c, sep) == [c]
    decreases |c|
  {
    if c != [] {
      SplitAllWithout(c[1..], sep);
    }
  }

  /** The piece before the first separator comes off first. */
  lemma {:induction false} SplitAllFirst(a: string, rest: string, sep: char)
    requires sep !in a
    ensures SplitAll(a + [sep] + rest, sep) == [a] + SplitAll(rest, sep)
    decreases |a|
  {
    var s := a + [sep] + rest;
    if a == [] {
      assert s[1..] == rest;
    } else {
      assert s[1..] == a[1..] + [sep] + rest;
      SplitAllFirst(a[1..], rest, sep);
      var tail := SplitAll(s[1..], sep);
      assert s[0] == a[0] && s[0] != sep;
      assert [s[0]] + tail[0] == a;
      assert tail[1..] == SplitAll(rest, sep);
    }
  }

  /** Three pieces without the separator, joined by it, split back into those pieces when the last is not empty. */
  lemma SplitThree(a: string, b: string, c: string, sep: char)
    requires sep !in a && sep !in b && sep !in c && c != []
    ensures Split(a + [sep] + b + [sep] + c, sep) == [a, b, c]
  {
    var s := a + [sep] + b + [sep] + c;
    assert s == a + [sep] + (b + [sep] + c);
    assert s[|a|] == sep;
    SplitAllFirst(a, b + [sep] + c, sep);
    SplitAllFirst(b, c, sep);
    SplitAllWithout(c, sep);
  }

  /** trim leaves alone a string that starts and ends with a visible character. */
  lemma TrimVisible(s: string)
    requires s != [] && !IsTrimmable(s[0]) && !IsTrimmable(s[|s| - 1])
    ensures Trim(s) == s
  {
  }

  // ---------------------------------------------------------------- case

  function ToUpperChar(c: char): char {
    if 'a' <= c <= 'z' then (c as int - 32) as char else c
  }

  /**
   * String.toUpperCase restricted to ASCII letters: no lower-case letter is
   * left, every other character stays, and the result equals the string
   * ignoring case.
   */
  function ToUpper(s: string): (r: string)
    ensures |r| == |s|
    ensures forall k :: 0 <= k < |s| ==> r[k] == ToUpperChar(s[k])
    ensures forall k :: 0 <= k < |r| ==> !('a' <= r[k] <= 'z')
    ensures forall k :: 0 <= k < |s| && !('a' <= s[k] <= 'z') ==> r[k] == s[k]
    ensures EqualsIgnoreCase(r, s)
  {
    seq(|s|, k requires 0 <= k < |s| => ToUpperChar(s[k]))
  }

  /** String.equalsIgnoreCase, compared character by character after upper-casing. */
  predicate EqualsIgnoreCase(a: string, b: string) {
    |a| == |b| && forall k :: 0 <= k < |a| ==> ToUpperChar(a[k]) == ToUpperChar(b[k])
  }

  /** The two case-insensitive tests of the servers agree: equalsIgnoreCase and comparing toUpperCase. */
  lemma EqualsIgnoreCaseIsUpperEquality(a: string, b: string)
    ensures EqualsIgnoreCase(a, b) <==> ToUpper(a) == ToUpper(b)
  {
    if ToUpper(a) == ToUpper(b) {
      assert |a| == |b|;
      forall k | 0 <= k < |a| ensures ToUpperChar(a[k]) == ToUpperChar(b[k]) {
        assert ToUpper(a)[k] == ToUpper(b)[k];
      }
    }
  }

  /** Upper-casing twice is upper-casing once. */
  lemma ToUpperIdempotent(s: string)
    ensures ToUpper(ToUpper(s)) == ToUpper(s)
  {
    var u := ToUpper(s);
    forall k | 0 <= k < |s| ensures ToUpper(u)[k] == u[k] {
      assert u[k] == ToUpperChar(s[k]);
    }
  }
}
