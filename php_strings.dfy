/**
 * The PHP string functions the request path relies on: trim, strtolower,
 * strtoupper, explode, str_starts_with, str_ends_with, str_contains, the
 * integer-to-string conversion and the (int) cast, and PHP's truthiness of a
 * string. Strings are sequences of characters; case mapping is ASCII-only,
 * as strtolower and strtoupper are from PHP 8.2 on, whatever the locale.
 */
module PhpStrings {

  import opened Wrappers

  // ---------------------------------------------------------------------------
  // Truthiness

  /** A string is falsy in PHP exactly when it is "" or "0". */
  predicate Truthy(s: string) {
    s != "" && s != "0"
  }

  // ---------------------------------------------------------------------------
  // trim()

  /** The characters trim() strips by default: " \t\n\r\0\x0B". */
  predicate IsTrimChar(c: char) {
    c == ' ' || c == '\t' || c == '\n' || c == '\r' || c == '\0' || c == '\U{000B}'
  }

  /** Neither end of `s` is a character trim() would strip. */
  predicate IsTrimmed(s: string) {
    |s| == 0 || (!IsTrimChar(s[0]) && !IsTrimChar(s[|s| - 1]))
  }

  function TrimLeft(s: string): (r: string)
    ensures |r| <= |s| && r == s[|s| - |r|..]
    ensures |r| == 0 || !IsTrimChar(r[0])
    ensures forall i {:trigger IsTrimChar(s[i])} :: 0 <= i < |s| - |r| ==> IsTrimChar(s[i])
    decreases |s|
  {
    if |s| > 0 && IsTrimChar(s[0]) then TrimLeft(s[1..]) else s
  }

  function TrimRight(s: string): (r: string)
    ensures |r| <= |s| && r == s[..|r|]
    ensures |r| == 0 || !IsTrimChar(r[|r| - 1])
    ensures forall i {:trigger IsTrimChar(s[i])} :: |r| <= i < |s| ==> IsTrimChar(s[i])
    decreases |s|
  {
    if |s| > 0 && IsTrimChar(s[|s| - 1]) then TrimRight(s[..|s| - 1]) else s
  }

  /** trim(): the longest infix of `s` that starts and ends with a kept character. */
  function Trim(s: string): (r: string)
    ensures IsTrimmed(r)
    ensures IsTrimmed(s) ==> r == s
    ensures |r| <= |s|
  {
    var l := TrimLeft(s);
    var r := TrimRight(l);
    assert |r| > 0 ==> r[0] == l[0];
    r
  }

  /**
   * trim() removes only strippable characters, and only from the ends: its
   * result is the infix of `s` that starts at `k`, and every character
   * before `k` or after the infix is one trim() strips.
   */
  lemma {:induction false} TrimStripsOnlyEnds(s: string)
    ensures |s| - |TrimLeft(s)| + |Trim(s)| <= |s|
    ensures Trim(s) == s[|s| - |TrimLeft(s)|..|s| - |TrimLeft(s)| + |Trim(s)|]
    ensures IsTrimmed(Trim(s))
    ensures forall i :: 0 <= i < |s| - |TrimLeft(s)| ==> IsTrimChar(s[i])
    ensures forall i :: |s| - |TrimLeft(s)| + |Trim(s)| <= i < |s| ==> IsTrimChar(s[i])
  {
    TrimUnfold(s);
    StrippedInfix(s, TrimLeft(s), Trim(s));
  }

  lemma TrimUnfold(s: string)
    ensures Trim(s) == TrimRight(TrimLeft(s))
  {
  }

  /** A prefix `r` of a suffix `l` of `s`, with only strippable characters cut off each time. */
  lemma StrippedInfix(s: string, l: string, r: string)
    requires |l| <= |s| && l == s[|s| - |l|..]
    requires forall i :: 0 <= i < |s| - |l| ==> IsTrimChar(s[i])
    requires |r| <= |l| && r == l[..|r|]
    requires forall i :: |r| <= i < |l| ==> IsTrimChar(l[i])
    ensures var k := |s| - |l|;
      && k + |r| <= |s|
      && r == s[k..k + |r|]
      && (forall i :: 0 <= i < k ==> IsTrimChar(s[i]))
      && (forall i :: k + |r| <= i < |s| ==> IsTrimChar(s[i]))
  {
    var k := |s| - |l|;
    forall i | k + |r| <= i < |s|
      ensures IsTrimChar(s[i])
    {
      assert s[i] == l[i - k];
    }
  }

  // ---------------------------------------------------------------------------
  // strtolower() / strtoupper()

  function LowerChar(c: char): char {
    if 'A' <= c <= 'Z' then (c as int + 32) as char else c
  }

  function UpperChar(c: char): char {
    if 'a' <= c <= 'z' then (c as int - 32) as char else c
  }

  function Lower(s: string): (r: string)
    ensures |r| == |s|
  {
    seq(|s|, i requires 0 <= i < |s| => LowerChar(s[i]))
  }

  function Upper(s: string): (r: string)
    ensures |r| == |s|
  {
    seq(|s|, i requires 0 <= i < |s| => UpperChar(s[i]))
  }

  /** For an upper-case letter, a character upper-cases to it exactly when it lower-cases to its lower case. */
  lemma SameLetterAnyCase(c: char, upper: char)
    requires 'A' <= upper <= 'Z'
    ensures UpperChar(c) == upper <==> LowerChar(c) == LowerChar(upper)
  {
  }

  /** strtoupper(s) equals an upper-case word exactly when strtolower(s) equals its lower case. */
  lemma UpperMatchesIffLowerMatches(s: string, word: string)
    requires forall k :: 0 <= k < |word| ==> 'A' <= word[k] <= 'Z'
    ensures Upper(s) == word <==> Lower(s) == Lower(word)
  {
    if |s| == |word| {
      forall k | 0 <= k < |s|
        ensures (Upper(s)[k] == word[k]) == (Lower(s)[k] == Lower(word)[k])
      {
        SameLetterAnyCase(s[k], word[k]);
      }
      if Lower(s) == Lower(word) {
        assert forall k :: 0 <= k < |s| ==> Lower(s)[k] == Lower(word)[k];
      }
    }
  }

  /** strtolower is idempotent. */
  lemma LowerIdempotent(s: string)
    ensures Lower(Lower(s)) == Lower(s)
  {
  }

  /** strtoupper does not see what strtolower did: comparing upper-cased text ignores case. */
  lemma UpperOfLower(s: string)
    ensures Upper(Lower(s)) == Upper(s)
  {
    forall i | 0 <= i < |s|
      ensures UpperChar(LowerChar(s[i])) == UpperChar(s[i])
    {
    }
  }

  /** strtolower commutes with trim, since no character trim() strips is a letter. */
  lemma {:induction false} TrimLower(s: string)
    ensures Trim(Lower(s)) == Lower(Trim(s))
  {
    TrimLeftLower(s);
    TrimRightLower(TrimLeft(s));
  }

  lemma {:induction false} TrimLeftLower(s: string)
    ensures TrimLeft(Lower(s)) == Lower(TrimLeft(s))
    decreases |s|
  {
    if |s| > 0 {
      LowerKeepsTrimChars(s[0]);
      if IsTrimChar(s[0]) {
        LowerTail(s);
        TrimLeftLower(s[1..]);
      }
    }
  }

  lemma {:induction false} TrimRightLower(s: string)
    ensures TrimRight(Lower(s)) == Lower(TrimRight(s))
    decreases |s|
  {
    if |s| > 0 {
      LowerKeepsTrimChars(s[|s| - 1]);
      if IsTrimChar(s[|s| - 1]) {
        LowerInit(s);
        TrimRightLower(s[..|s| - 1]);
      }
    }
  }

  /** No character trim() strips is a letter, so lower-casing neither adds nor removes one. */
  lemma LowerKeepsTrimChars(c: char)
    ensures IsTrimChar(LowerChar(c)) <==> IsTrimChar(c)
  {
  }

  lemma LowerTail(s: string)
    requires |s| > 0
    ensures Lower(s)[1..] == Lower(s[1..]) && Lower(s)[0] == LowerChar(s[0])
  {
  }

  lemma LowerInit(s: string)
    requires |s| > 0
    ensures Lower(s)[..|s| - 1] == Lower(s[..|s| - 1]) && Lower(s)[|s| - 1] == LowerChar(s[|s| - 1])
  {
  }

  // ---------------------------------------------------------------------------
  // str_starts_with() / str_ends_with() / str_contains()

  predicate StartsWith(s: string, prefix: string) {
    |prefix| <= |s| && s[..|prefix|] == prefix
  }

  predicate EndsWith(s: string, suffix: string) {
    |suffix| <= |s| && s[|s| - |suffix|..] == suffix
  }

  /** `needle` occurs in `s` starting at index `i`. */
  predicate OccursAt(s: string, needle: string, i: int) {
    0 <= i <= |s| - |needle| && s[i..i + |needle|] == needle
  }

  predicate Contains(s: string, needle: string) {
    exists i | 0 <= i <= |s| - |needle| :: OccursAt(s, needle, i)
  }

  // ---------------------------------------------------------------------------
  // explode()

  /**
   * explode(d, s): the pieces of `s` between occurrences of `d`, in order.
   * There is always at least one piece; explode(d, "") is [""].
   */
  function Split(s: string, d: char): (r: seq<string>)
    ensures |r| >= 1
    ensures forall i :: 0 <= i < |r| ==> d !in r[i]
    decreases |s|
  {
    if |s| == 0 then [""]
    else
      var rest := Split(s[1..], d);
      if s[0] == d then [""] + rest else [[s[0]] + rest[0]] + rest[1..]
  }

  /** implode(): the pieces joined by the delimiter. */
  function Join(parts: seq<string>, d: char): (r: string)
    requires |parts| > 0
    decreases |parts|
  {
    if |parts| == 1 then parts[0] else parts[0] + [d] + Join(parts[1..], d)
  }

  /** implode(d, explode(d, s)) == s: splitting loses nothing. */
  lemma {:induction false} JoinSplit(s: string, d: char)
    ensures Join(Split(s, d), d) == s
    decreases |s|
  {
    if |s| > 0 {
      var rest := Split(s[1..], d);
      JoinSplit(s[1..], d);
      if s[0] == d {
        assert ([""] + rest)[1..] == rest;
        assert [d] + s[1..] == s;
      } else {
        JoinPrepend(s[0], rest, d);
        assert [s[0]] + s[1..] == s;
      }
    }
  }

  lemma JoinPrepend(c: char, parts: seq<string>, d: char)
    requires |parts| > 0
    ensures Join([[c] + parts[0]] + parts[1..], d) == [c] + Join(parts, d)
  {
    var q := [[c] + parts[0]] + parts[1..];
    assert q[0] == [c] + parts[0];
    assert q[1..] == parts[1..];
    if |parts| > 1 {
      assert [c] + parts[0] + [d] + Join(parts[1..], d) == [c] + (parts[0] + [d] + Join(parts[1..], d));
    }
  }

  lemma JoinThree(parts: seq<string>, d: char)
    requires |parts| == 3
    ensures Join(parts, d) == parts[0] + [d] + parts[1] + [d] + parts[2]
  {
    var tail := parts[1..];
    assert tail[1..] == [parts[2]];
    assert Join(tail, d) == parts[1] + [d] + parts[2];
    assert parts[0] + [d] + (parts[1] + [d] + parts[2]) == parts[0] + [d] + parts[1] + [d] + parts[2];
  }

  /** A string without the delimiter is a single piece. */
  lemma {:induction false} SplitNoDelimiter(s: string, d: char)
    requires d !in s
    ensures Split(s, d) == [s]
    decreases |s|
  {
    if |s| > 0 {
      SplitNoDelimiter(s[1..], d);
      assert [s[0]] + s[1..] == s;
    }
  }

  /** Splitting at a delimiter splits the pieces: explode distributes over concatenation. */
  lemma {:induction false} SplitAppend(a: string, b: string, d: char)
    ensures Split(a + [d] + b, d) == Split(a, d) + Split(b, d)
    decreases |a|
  {
    if |a| == 0 {
      assert a + [d] + b == [d] + b;
      assert ([d] + b)[1..] == b;
    } else {
      assert (a + [d] + b)[1..] == a[1..] + [d] + b;
      SplitAppend(a[1..], b, d);
    }
  }

  /** explode(d, s, 2): `s` cut at the first `d`, or None when `s` has no `d`. */
  function SplitOnce(s: string, d: char): (r: Option<(string, string)>)
    ensures r.None? <==> d !in s
    ensures r.Some? ==> s == r.value.0 + [d] + r.value.1 && d !in r.value.0
    decreases |s|
  {
    if |s| == 0 then None
    else if s[0] == d then Some(("", s[1..]))
    else
      match SplitOnce(s[1..], d)
      case None => None
      case Some(p) => Some(([s[0]] + p.0, p.1))
  }

  // ---------------------------------------------------------------------------
  // Decimal integers: string interpolation of an int, and the (int) cast

  predicate IsDigit(c: char) {
    '0' <= c <= '9'
  }

  function DigitChar(d: nat): (c: char)
    requires d < 10
    ensures IsDigit(c) && c as int - '0' as int == d
  {
    (d + '0' as int) as char
  }

  /** The decimal text of a natural number, as "{$n}" produces it. */
  function NatToString(n: nat): (r: string)
    ensures |r| >= 1 && IsDigit(r[0])
    ensures forall i :: 0 <= i < |r| ==> IsDigit(r[i])
    decreases n
  {
    if n < 10 then [DigitChar(n)] else NatToString(n / 10) + [DigitChar(n % 10)]
  }

  /** The decimal text of an integer, with a leading '-' when negative. */
  function IntToString(n: int): (r: string)
    ensures |r| >= 1
  {
    if n < 0 then "-" + NatToString(-n) else NatToString(n)
  }

  /** The value of a string of decimal digits. */
  function DigitsValue(s: string): nat
    requires forall i :: 0 <= i < |s| ==> IsDigit(s[i])
    decreases |s|
  {
    if |s| == 0 then 0
    else
      assert IsDigit(s[|s| - 1]);
      DigitsValue(s[..|s| - 1]) * 10 + (s[|s| - 1] as int - '0' as int) as nat
  }

  /** The longest prefix of `s` made of decimal digits. */
  function DigitPrefix(s: string): (r: string)
    ensures StartsWith(s, r)
    ensures forall i :: 0 <= i < |r| ==> IsDigit(r[i])
    ensures |r| < |s| ==> !IsDigit(s[|r|])
    decreases |s|
  {
    if |s| > 0 && IsDigit(s[0]) then [s[0]] + DigitPrefix(s[1..]) else ""
  }

  /** The whitespace a numeric string may start with: " \t\n\r\v\f". */
  predicate IsNumericSpace(c: char) {
    c == ' ' || c == '\t' || c == '\n' || c == '\r' || c == '\U{000B}' || c == '\U{000C}'
  }

  function SkipNumericSpace(s: string): (r: string)
    ensures |r| <= |s| && r == s[|s| - |r|..]
    ensures |r| > 0 ==> !IsNumericSpace(r[0])
    decreases |s|
  {
    if |s| > 0 && IsNumericSpace(s[0]) then SkipNumericSpace(s[1..]) else s
  }

  /**
   * (int) $s: leading whitespace, an optional sign, then the longest run of
   * digits; a string with no leading digits converts to 0.
   */
  function PhpIntCast(s: string): (r: int)
    ensures (forall i :: 0 <= i < |s| ==> !IsDigit(s[i])) ==> r == 0
  {
    var t := SkipNumericSpace(s);
    NoDigitsNoPrefix(s, t);
    if |t| > 0 && t[0] == '-' then -(DigitsValue(DigitPrefix(t[1..])) as int)
    else if |t| > 0 && t[0] == '+' then DigitsValue(DigitPrefix(t[1..]))
    else DigitsValue(DigitPrefix(t))
  }

  /** A string without digits, and each suffix of it, has no digit prefix. */
  lemma NoDigitsNoPrefix(s: string, t: string)
    requires |t| <= |s| && t == s[|s| - |t|..]
    ensures (forall i :: 0 <= i < |s| ==> !IsDigit(s[i])) ==>
      DigitPrefix(t) == "" && (|t| > 0 ==> DigitPrefix(t[1..]) == "")
  {
    if forall i :: 0 <= i < |s| ==> !IsDigit(s[i]) {
      if |t| > 0 {
        assert t[0] == s[|s| - |t|];
      }
      if |t| > 1 {
        assert t[1..][0] == s[|s| - |t| + 1];
      }
    }
  }

  lemma {:induction false} DigitPrefixOfDigits(s: string)
    requires forall i :: 0 <= i < |s| ==> IsDigit(s[i])
    ensures DigitPrefix(s) == s
    decreases |s|
  {
    if |s| > 0 {
      DigitPrefixOfDigits(s[1..]);
      assert [s[0]] + s[1..] == s;
    }
  }

  lemma {:induction false} DigitsValueOfNat(n: nat)
    ensures DigitsValue(NatToString(n)) == n
    decreases n
  {
    if n >= 10 {
      var s := NatToString(n);
      assert s[..|s| - 1] == NatToString(n / 10);
      DigitsValueOfNat(n / 10);
    }
  }

  /** The digits of a natural number read back as that number. */
  lemma DigitTextValue(n: nat)
    ensures DigitsValue(DigitPrefix(NatToString(n))) == n
  {
    DigitPrefixOfDigits(NatToString(n));
    DigitsValueOfNat(n);
  }

  /** Digits followed by text that does not start with a digit: the digit prefix is exactly the digits. */
  lemma {:induction false} DigitPrefixStopsAtText(digits: string, rest: string)
    requires forall i :: 0 <= i < |digits| ==> IsDigit(digits[i])
    requires |rest| == 0 || !IsDigit(rest[0])
    ensures DigitPrefix(digits + rest) == digits
    decreases |digits|
  {
    if |digits| == 0 {
      assert digits + rest == rest;
    } else {
      assert (digits + rest)[1..] == digits[1..] + rest;
      DigitPrefixStopsAtText(digits[1..], rest);
      assert [digits[0]] + digits[1..] == digits;
    }
  }

  /** (int) reads the leading number and ignores the text after it: (int) "604800abc" is 604800. */
  lemma {:induction false} IntCastIgnoresTrailing(n: nat, rest: string)
    requires |rest| == 0 || !IsDigit(rest[0])
    ensures PhpIntCast(NatToString(n) + rest) == n
  {
    var s := NatToString(n) + rest;
    assert s[0] == NatToString(n)[0];
    IntCastOfDigitStart(s);
    DigitPrefixStopsAtText(NatToString(n), rest);
    DigitsValueOfNat(n);
  }

  /** A string that starts with a digit casts to the value of its digit prefix. */
  lemma {:induction false} IntCastOfDigitStart(s: string)
    requires |s| > 0 && IsDigit(s[0])
    ensures PhpIntCast(s) == DigitsValue(DigitPrefix(s))
  {
    assert !IsNumericSpace(s[0]) && s[0] != '-' && s[0] != '+';
    assert SkipNumericSpace(s) == s;
  }

  /** Casting the decimal text of an integer back with (int) gives the integer. */
  lemma {:induction false} IntCastRoundTrip(n: int)
    ensures PhpIntCast(IntToString(n)) == n
  {
    var s := IntToString(n);
    assert s[0] == '-' || IsDigit(s[0]);
    assert SkipNumericSpace(s) == s;
    if n < 0 {
      assert s[1..] == NatToString(-n);
      DigitTextValue(-n);
    } else {
      DigitTextValue(n);
    }
  }
}
