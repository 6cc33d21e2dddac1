/** Decimal rendering (`%d`), its inverse, and splitting, as several modules use them. */
module Text {

  predicate IsDigit(c: char)
  {
    '0' <= c <= '9'
  }

  predicate AllDigits(s: string)
  {
    forall i :: 0 <= i < |s| ==> IsDigit(s[i])
  }

  function DigitChar(d: nat): (c: char)
    requires d < 10
    ensures IsDigit(c) && DigitValue(c) == d
  {
    "0123456789"[d]
  }

  function DigitValue(c: char): nat
    requires IsDigit(c)
  {
    c as int - '0' as int
  }

  /** The decimal digits of `n`, most significant first, without leading zeros. */
  function Digits(n: nat): (s: string)
    ensures s != "" && AllDigits(s)
  {
    if n < 10 then [DigitChar(n)] else Digits(n / 10) + [DigitChar(n % 10)]
  }

  /** No number but zero starts with a zero. */
  lemma {:induction false} NoLeadingZero(n: nat)
    ensures Digits(n)[0] == '0' <==> n == 0
  {
    if n >= 10 {
      NoLeadingZero(n / 10);
    }
  }

  /** The `%d` verb. */
  function FormatInt(n: int): (s: string)
    ensures s != "" && (s[0] == '-' <==> n < 0)
  {
    if n < 0 then "-" + Digits(-n) else Digits(n)
  }

  /** The number a digit string denotes. */
  function DigitsValue(s: string): nat
    requires AllDigits(s)
  {
    if s == "" then 0 else DigitsValue(s[..|s| - 1]) * 10 + DigitValue(s[|s| - 1])
  }

  lemma {:induction false} DigitsReadBack(n: nat)
    ensures DigitsValue(Digits(n)) == n
  {
    if n >= 10 {
      DigitsReadBack(n / 10);
      assert Digits(n)[..|Digits(n)| - 1] == Digits(n / 10);
    }
  }

  /** The number a rendered integer denotes. */
  function ParsedInt(s: string): int
  {
    if s != "" && s[0] == '-' && AllDigits(s[1..]) then 0 - DigitsValue(s[1..])
    else if AllDigits(s) then DigitsValue(s)
    else 0
  }

  lemma FormatIntReadsBack(n: int)
    ensures ParsedInt(FormatInt(n)) == n
  {
    var m: nat := if n < 0 then -n else n;
    var d := Digits(m);
    DigitsReadBack(m);
    assert IsDigit(d[0]);
    if n < 0 {
      SignReadsBack(d);
    }
  }

  lemma SignReadsBack(d: string)
    requires AllDigits(d)
    ensures ParsedInt("-" + d) == 0 - DigitsValue(d)
  {
    assert ("-" + d)[1..] == d;
  }

  lemma FormatIntInjective(m: int, n: int)
    ensures FormatInt(m) == FormatInt(n) <==> m == n
  {
    FormatIntReadsBack(m);
    FormatIntReadsBack(n);
  }

  /** `c` does not occur in `s`. */
  predicate Free(s: string, c: char)
  {
    forall i :: 0 <= i < |s| ==> s[i] != c
  }

  lemma FormatIntFree(n: int, c: char)
    requires !IsDigit(c) && c != '-'
    ensures Free(FormatInt(n), c)
  {
    var s := FormatInt(n);
    if n < 0 { assert s[1..] == Digits(-n); assert forall i :: 1 <= i < |s| ==> s[i] == Digits(-n)[i - 1]; }
  }

  /** A separator-free head is determined by the text it starts. */
  lemma CutUnique(a: string, b: string, x: string, y: string, c: char)
    requires Free(a, c) && Free(b, c) && a + [c] + x == b + [c] + y
    ensures a == b && x == y
  {
    var s := a + [c] + x;
    assert s[|a|] == c && s[|b|] == c;
    assert forall i :: 0 <= i < |a| ==> s[i] == a[i];
    assert forall i :: 0 <= i < |b| ==> s[i] == b[i];
    assert a == s[..|a|] && b == s[..|b|];
    assert x == s[|a| + 1..] && y == s[|b| + 1..];
  }

  /** White space as the `unicode` and `fmt` packages know it. */
  predicate IsSpace(c: char)
  {
    var r := c as int;
    0x09 <= r <= 0x0d || r == 0x20 || r == 0x85 || r == 0xa0 || r == 0x1680 || 0x2000 <= r <= 0x200a
    || r == 0x2028 || r == 0x2029 || r == 0x202f || r == 0x205f || r == 0x3000
  }

  /** `strings.Split` for a one-character separator. */
  function Split(s: string, sep: char): (parts: seq<string>)
    ensures parts != []
  {
    if s == "" then [""]
    else if s[0] == sep then [""] + Split(s[1..], sep)
    else
      var rest := Split(s[1..], sep);
      [[s[0]] + rest[0]] + rest[1..]
  }

  /** A separator-free head becomes the first part. */
  lemma {:induction false} SplitCuts(head: string, sep: char, tail: string)
    requires Free(head, sep)
    ensures Split(head + [sep] + tail, sep) == [head] + Split(tail, sep)
  {
    var s := head + [sep] + tail;
    if head == "" {
      assert s == [sep] + tail;
      assert s[1..] == tail;
    } else {
      assert Free(head[1..], sep) by { assert forall i :: 0 <= i < |head[1..]| ==> head[1..][i] == head[i + 1]; }
      SplitCuts(head[1..], sep, tail);
      assert s[0] == head[0] && s[1..] == head[1..] + [sep] + tail;
      assert head == [head[0]] + head[1..];
    }
  }

  lemma {:induction false} SplitWhole(s: string, sep: char)
    requires Free(s, sep)
    ensures Split(s, sep) == [s]
  {
    if s != "" {
      assert Free(s[1..], sep) by { assert forall i :: 0 <= i < |s[1..]| ==> s[1..][i] == s[i + 1]; }
      SplitWhole(s[1..], sep);
      assert s == [s[0]] + s[1..];
    }
  }

  /** A separator-free tail becomes the last part. */
  lemma {:induction false} SplitEnds(s: string, sep: char, tail: string)
    requires Free(tail, sep)
    ensures Split(s + [sep] + tail, sep) == Split(s, sep) + [tail]
  {
    var all := s + [sep] + tail;
    if s == "" {
      assert all == [sep] + tail && all[1..] == tail;
      SplitWhole(tail, sep);
    } else {
      SplitEnds(s[1..], sep, tail);
      assert all[0] == s[0] && all[1..] == s[1..] + [sep] + tail;
    }
  }
}
