/** The string operations the parser relies on: Python's `str.strip()`,
    `str.split()` with no argument, `int(...)` on a decimal literal, and the
    decimal rendering an f-string gives a non-negative integer. */
module Text {
  import opened Wrappers

  /** The characters Python's `str.isspace()` accepts, which are exactly the
      ones `strip()` and `split()` without arguments treat as whitespace. */
  predicate IsSpace(c: char) {
    var n := c as int;
    || (0x09 <= n <= 0x0D)
    || (0x1C <= n <= 0x20)
    || n == 0x85
    || n == 0xA0
    || n == 0x1680
    || (0x2000 <= n <= 0x200A)
    || n == 0x2028
    || n == 0x2029
    || n == 0x202F
    || n == 0x205F
    || n == 0x3000
  }

  predicate NoSpace(s: string) {
    forall k :: 0 <= k < |s| ==> !IsSpace(s[k])
  }

  /** The first position at or after `i` that holds no whitespace, or `|s|`. */
  function SkipSpace(s: string, i: nat): (j: nat)
    requires i <= |s|
    ensures i <= j <= |s|
    ensures j == |s| || !IsSpace(s[j])
    decreases |s| - i
  {
    if i < |s| && IsSpace(s[i]) then SkipSpace(s, i + 1) else i
  }

  /** Everything `SkipSpace` skips is whitespace. */
  lemma {:induction false} SkipSpaceSpan(s: string, i: nat)
    requires i <= |s|
    ensures forall k :: i <= k < SkipSpace(s, i) ==> IsSpace(s[k])
    decreases |s| - i
  {
    if i < |s| && IsSpace(s[i]) {
      SkipSpaceSpan(s, i + 1);
    }
  }

  /** The first position at or after `i` that holds whitespace, or `|s|`. */
  function SkipWord(s: string, i: nat): (j: nat)
    requires i <= |s|
    ensures i <= j <= |s|
    ensures j == |s| || IsSpace(s[j])
    decreases |s| - i
  {
    if i < |s| && !IsSpace(s[i]) then SkipWord(s, i + 1) else i
  }

  /** Everything `SkipWord` skips is not whitespace. */
  lemma {:induction false} SkipWordSpan(s: string, i: nat)
    requires i <= |s|
    ensures forall k :: i <= k < SkipWord(s, i) ==> !IsSpace(s[k])
    decreases |s| - i
  {
    if i < |s| && !IsSpace(s[i]) {
      SkipWordSpan(s, i + 1);
    }
  }

  /** The last position at or before `j` that follows no whitespace, or 0. */
  function SkipSpaceBack(s: string, j: nat): (i: nat)
    requires j <= |s|
    ensures i <= j
    ensures i == 0 || !IsSpace(s[i - 1])
  {
    if j > 0 && IsSpace(s[j - 1]) then SkipSpaceBack(s, j - 1) else j
  }

  /** Everything `SkipSpaceBack` skips is whitespace. */
  lemma {:induction false} SkipSpaceBackSpan(s: string, j: nat)
    requires j <= |s|
    ensures forall k :: SkipSpaceBack(s, j) <= k < j ==> IsSpace(s[k])
  {
    if j > 0 && IsSpace(s[j - 1]) {
      SkipSpaceBackSpan(s, j - 1);
    }
  }

  /** `s.strip()`: what lies between the leading and the trailing
      whitespace. A line is blank exactly when it strips to the empty string,
      that is, when every character of it is whitespace. */
  function Strip(s: string): (r: string)
    ensures |r| <= |s|
    ensures r == [] <==> forall k :: 0 <= k < |s| ==> IsSpace(s[k])
    ensures r == [] || (!IsSpace(r[0]) && !IsSpace(r[|r| - 1]))
    ensures r != [] ==> SkipSpace(s, 0) < SkipSpaceBack(s, |s|) && r == s[SkipSpace(s, 0)..SkipSpaceBack(s, |s|)]
  {
    var i := SkipSpace(s, 0);
    var j := SkipSpaceBack(s, |s|);
    SkipSpaceSpan(s, 0);
    SkipSpaceBackSpan(s, |s|);
    if i < j then s[i..j] else []
  }

  /** The tokens of `s` from position `i` on. */
  function SplitFrom(s: string, i: nat): (r: seq<string>)
    requires i <= |s|
    decreases |s| - i
  {
    var start := SkipSpace(s, i);
    if start == |s| then []
    else
      var end := SkipWord(s, start);
      [s[start..end]] + SplitFrom(s, end)
  }

  /** `s.split()`: the maximal runs of non-whitespace characters, in order. */
  function Split(s: string): seq<string> {
    SplitFrom(s, 0)
  }

  /** Every token is non-empty and free of whitespace. */
  lemma {:induction false} SplitFromTokens(s: string, i: nat)
    requires i <= |s|
    ensures forall k :: 0 <= k < |SplitFrom(s, i)| ==> SplitFrom(s, i)[k] != [] && NoSpace(SplitFrom(s, i)[k])
    decreases |s| - i
  {
    var start := SkipSpace(s, i);
    if start < |s| {
      var end := SkipWord(s, start);
      SplitFromTokens(s, end);
      SkipWordSpan(s, start);
      assert NoSpace(s[start..end]);
    }
  }

  /** The tokens `split()` returns are non-empty and contain no whitespace,
      and only a blank string has none. */
  lemma SplitTokens(s: string)
    ensures forall k :: 0 <= k < |Split(s)| ==> Split(s)[k] != [] && NoSpace(Split(s)[k])
    ensures Split(s) == [] <==> forall k :: 0 <= k < |s| ==> IsSpace(s[k])
  {
    SplitFromTokens(s, 0);
    SkipSpaceSpan(s, 0);
  }

  /** `" ".join(ts)`, the partner of `Split`. */
  function Join(ts: seq<string>): string {
    if |ts| == 0 then ""
    else if |ts| == 1 then ts[0]
    else ts[0] + " " + Join(ts[1..])
  }

  /** Scanning a suffix is scanning the whole from the suffix's start. */
  lemma {:induction false} SkipShift(p: string, q: string, i: nat)
    requires i <= |q|
    ensures SkipSpace(p + q, |p| + i) == |p| + SkipSpace(q, i)
    ensures SkipWord(p + q, |p| + i) == |p| + SkipWord(q, i)
    decreases |q| - i
  {
    if i < |q| {
      assert (p + q)[|p| + i] == q[i];
      SkipShift(p, q, i + 1);
    }
  }

  /** Tokenizing a suffix does not depend on what precedes it. */
  lemma {:induction false} SplitFromShift(p: string, q: string, i: nat)
    requires i <= |q|
    ensures SplitFrom(p + q, |p| + i) == SplitFrom(q, i)
    decreases |q| - i
  {
    var s := p + q;
    SkipShift(p, q, i);
    var start := SkipSpace(q, i);
    if start < |q| {
      var end := SkipWord(q, start);
      SkipShift(p, q, start);
      assert s[|p| + start..|p| + end] == q[start..end] by {
        SliceShift(p, q, start, end);
      }
      SplitFromShift(p, q, end);
      assert SplitFrom(s, |p| + i) == [s[|p| + start..|p| + end]] + SplitFrom(s, |p| + end);
    }
  }

  lemma SliceShift(p: string, q: string, i: nat, j: nat)
    requires i <= j <= |q|
    ensures (p + q)[|p| + i..|p| + j] == q[i..j]
  {
    assert forall k :: 0 <= k < j - i ==> (p + q)[|p| + i..|p| + j][k] == q[i..j][k];
  }

  /** A scan for whitespace from the start of a word stops at its end. */
  lemma {:induction false} WordEnd(t: string, rest: string, i: nat)
    requires i <= |t| && NoSpace(t)
    requires rest == [] || IsSpace(rest[0])
    ensures SkipWord(t + rest, i) == |t|
    decreases |t| - i
  {
    if i < |t| {
      assert (t + rest)[i] == t[i];
      WordEnd(t, rest, i + 1);
    } else if rest != [] {
      assert (t + rest)[|t|] == rest[0];
    }
  }

  /** Whitespace at the scan position does not change the tokens. */
  lemma SplitFromSpace(s: string, i: nat)
    requires i < |s| && IsSpace(s[i])
    ensures SplitFrom(s, i) == SplitFrom(s, i + 1)
  {
    assert SkipSpace(s, i) == SkipSpace(s, i + 1);
  }

  /** A word followed by whitespace or nothing is the first token. */
  lemma SplitWordThen(t: string, rest: string)
    requires t != [] && NoSpace(t)
    requires rest == [] || IsSpace(rest[0])
    ensures SplitFrom(t + rest, 0) == [t] + SplitFrom(rest, 0)
  {
    var s := t + rest;
    assert s[0] == t[0];
    assert SkipSpace(s, 0) == 0;
    WordEnd(t, rest, 0);
    assert s[0..|t|] == t;
    assert SplitFrom(s, 0) == [t] + SplitFrom(s, |t|);
    SplitFromShift(t, rest, 0);
  }

  /** Splitting a space-joined list of tokens gives the tokens back. */
  lemma {:induction false} SplitJoin(ts: seq<string>)
    requires forall k :: 0 <= k < |ts| ==> ts[k] != [] && NoSpace(ts[k])
    ensures Split(Join(ts)) == ts
    decreases |ts|
  {
    if |ts| == 0 {
      assert SkipSpace("", 0) == 0;
    } else if |ts| == 1 {
      assert Join(ts) == ts[0] + "";
      SplitWordThen(ts[0], "");
      assert SkipSpace("", 0) == 0;
    } else {
      var j := Join(ts[1..]);
      assert Join(ts) == ts[0] + (" " + j);
      SplitCons(ts[0], j);
      SplitJoin(ts[1..]);
      assert ts == [ts[0]] + ts[1..];
    }
  }

  /** A token joined by a space in front of a string comes back first,
      followed by the string's own tokens. */
  lemma SplitCons(t: string, j: string)
    requires t != [] && NoSpace(t)
    ensures Split(t + (" " + j)) == [t] + Split(j)
  {
    var rest := " " + j;
    SplitWordThen(t, rest);
    SplitFromSpace(rest, 0);
    SplitFromShift(" ", j, 0);
  }

  predicate IsDigit(c: char) {
    '0' <= c <= '9'
  }

  predicate AllDigits(s: string) {
    forall k :: 0 <= k < |s| ==> IsDigit(s[k])
  }

  /** The value of a string of decimal digits, most significant first. */
  function DigitsValue(s: string): nat
    requires AllDigits(s)
  {
    if s == [] then 0
    else 10 * DigitsValue(s[..|s| - 1]) + ((s[|s| - 1] as int) - ('0' as int))
  }

  /** The decimal digits `s`, read one at a time: `None` unless `s` is a
      non-empty run of ASCII digits. */
  function ParseDigits(s: string): (r: Option<nat>)
  {
    if s == [] || !IsDigit(s[|s| - 1]) then None
    else
      var d: nat := (s[|s| - 1] as int) - ('0' as int);
      if |s| == 1 then Some(d)
      else
        match ParseDigits(s[..|s| - 1])
        case None => None
        case Some(v) => Some(10 * v + d)
  }

  /** Digit by digit, the reader computes the value of a string of digits
      and rejects everything else. */
  lemma {:induction false} ParseDigitsMeaning(s: string)
    ensures ParseDigits(s) == if s != [] && AllDigits(s) then Some(DigitsValue(s)) else None
  {
    if s != [] && IsDigit(s[|s| - 1]) && |s| > 1 {
      var front := s[..|s| - 1];
      ParseDigitsMeaning(front);
      assert AllDigits(s) <==> AllDigits(front) by {
        assert forall k :: 0 <= k < |front| ==> front[k] == s[k];
      }
      assert front != [];
    }
  }

  /** `int(s)` for a stripped token: an optional sign followed by one or more
      ASCII digits; anything else is not an integer. */
  function ParseInt(s: string): (r: Option<int>)
  {
    if |s| > 0 && (s[0] == '+' || s[0] == '-') then
      match ParseDigits(s[1..])
      case None => None
      case Some(v) =>
        var value: int := v;
        Some(if s[0] == '-' then -value else value)
    else ParseDigits(s)
  }

  /** What `int()` accepts: a `+` or `-` sign, or none, then at least one
      digit; the value is that of the digits, negated after a `-`. */
  lemma ParseIntMeaning(s: string)
    ensures var signed := |s| > 0 && (s[0] == '+' || s[0] == '-');
            var digits := if signed then s[1..] else s;
            ParseInt(s) ==
              if digits != [] && AllDigits(digits)
              then Some(if signed && s[0] == '-' then -(DigitsValue(digits) as int) else DigitsValue(digits))
              else None
  {
    ParseDigitsMeaning(s);
    if |s| > 0 {
      ParseDigitsMeaning(s[1..]);
    }
  }

  function Digit(d: nat): (c: char)
    requires d < 10
    ensures IsDigit(c) && (c as int) - ('0' as int) == d
  {
    (('0' as int) + d) as char
  }

  /** The decimal rendering of `n` (`f"{n}"`), without leading zeros. */
  function ShowNat(n: nat): (s: string)
    ensures s != [] && AllDigits(s)
    ensures DigitsValue(s) == n
    ensures s[0] == '0' ==> n == 0
  {
    if n < 10 then
      [Digit(n)]
    else
      var hi := ShowNat(n / 10);
      var s := hi + [Digit(n % 10)];
      assert s[..|s| - 1] == hi;
      s
  }

  /** Reading back what `ShowNat` writes gives the same number. The parser
      renders only 1-based project and activity numbers, so no rendering of
      a negative number is needed. */
  lemma ParseShowNat(n: nat)
    ensures ParseInt(ShowNat(n)) == Some(n)
  {
    ParseDigitsMeaning(ShowNat(n));
    assert !(ShowNat(n)[0] == '+' || ShowNat(n)[0] == '-');
  }

  /** Two numbers with the same rendering are equal. */
  lemma ShowNatInjective(m: nat, n: nat)
    ensures ShowNat(m) == ShowNat(n) ==> m == n
  {
  }
}
