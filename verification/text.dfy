/**
 * `Text`: the few string operations the glove SDK relies on: decimal
 * rendering of an int (`int.ToString`), ASCII digit tests, substring search
 * (`string.Contains`) and replacement of every occurrence (`string.Replace`).
 */
module Text {

  predicate IsDigit(c: char)
  {
    '0' <= c <= '9'
  }

  function DigitChar(d: nat): (c: char)
    requires d < 10
    ensures IsDigit(c) && DigitValue(c) == d
  {
    ['0', '1', '2', '3', '4', '5', '6', '7', '8', '9'][d]
  }

  function DigitValue(c: char): nat
    requires IsDigit(c)
  {
    c as int - '0' as int
  }

  /** The decimal digits of `n`, most significant first, without leading zeros. */
  function Digits(n: nat): (s: string)
    ensures |s| > 0 && forall k :: 0 <= k < |s| ==> IsDigit(s[k])
    ensures |s| > 1 ==> s[0] != '0'
    decreases n
  {
    if n < 10 then [DigitChar(n)] else Digits(n / 10) + [DigitChar(n % 10)]
  }

  /** The value of a string of decimal digits. */
  function DigitsValue(s: string): nat
    requires forall k :: 0 <= k < |s| ==> IsDigit(s[k])
    decreases |s|
  {
    if |s| == 0 then 0 else DigitsValue(s[..|s| - 1]) * 10 + DigitValue(s[|s| - 1])
  }

  /** Reading the digits back gives the number. */
  lemma {:induction false} DigitsRoundTrip(n: nat)
    ensures DigitsValue(Digits(n)) == n
    decreases n
  {
    if n >= 10 {
      DigitsRoundTrip(n / 10);
      var s := Digits(n);
      assert s[..|s| - 1] == Digits(n / 10);
    }
  }

  /** `int.ToString()`: a minus sign for negative values, then the digits of the magnitude. */
  function Decimal(n: int): (s: string)
    ensures |s| > 0 && IsDigit(s[|s| - 1])
    ensures forall k :: 0 <= k < |s| ==> IsDigit(s[k]) || (k == 0 && s[k] == '-')
    ensures (n < 0) == (s[0] == '-')
  {
    if n < 0 then "-" + Digits(-n) else Digits(n)
  }

  /** Reading a rendered int back gives the int. */
  lemma DecimalRoundTrip(n: int)
    ensures var s := Decimal(n);
            if s[0] == '-' then n == -(DigitsValue(s[1..]) as int) else n == DigitsValue(s)
  {
    DigitsRoundTrip(if n < 0 then -n else n);
    if n < 0 {
      assert Decimal(n)[1..] == Digits(-n);
    }
  }

  predicate OccursAt(s: string, pat: string, i: nat)
  {
    i + |pat| <= |s| && s[i..i + |pat|] == pat
  }

  /** `s.Contains(pat)`. */
  predicate Contains(s: string, pat: string)
  {
    exists i: nat :: i <= |s| && OccursAt(s, pat, i)
  }

  predicate Avoids(s: string, c: char)
  {
    c !in s
  }

  /**
   * `s.Replace(pat, rep)`: every occurrence of `pat`, scanning left to right
   * and resuming after each replaced one, is replaced by `rep`.
   */
  function ReplaceAll(s: string, pat: string, rep: string): (r: string)
    requires |pat| > 0
    ensures Avoids(s, pat[0]) ==> r == s
    decreases |s|
  {
    if |s| < |pat| then s
    else if s[..|pat|] == pat then rep + ReplaceAll(s[|pat|..], pat, rep)
    else [s[0]] + ReplaceAll(s[1..], pat, rep)
  }

  /** A prefix holding no first character of the pattern passes through untouched. */
  lemma {:induction false} ReplaceSkips(a: string, b: string, pat: string, rep: string)
    requires |pat| > 0 && Avoids(a, pat[0])
    ensures ReplaceAll(a + b, pat, rep) == a + ReplaceAll(b, pat, rep)
    decreases |a|
  {
    if |a| > 0 {
      var s := a + b;
      if |s| >= |pat| {
        assert s[..|pat|][0] == a[0] != pat[0];
        assert ReplaceAll(s, pat, rep) == [s[0]] + ReplaceAll(s[1..], pat, rep);
        assert s[1..] == a[1..] + b;
        ReplaceSkips(a[1..], b, pat, rep);
        assert a == [a[0]] + a[1..];
      } else {
        assert ReplaceAll(s, pat, rep) == s;
        assert ReplaceAll(b, pat, rep) == b;
      }
    } else {
      assert a + b == b;
    }
  }

  /** An occurrence at the front is replaced, and the scan resumes after it. */
  lemma ReplaceFront(b: string, pat: string, rep: string)
    requires |pat| > 0
    ensures ReplaceAll(pat + b, pat, rep) == rep + ReplaceAll(b, pat, rep)
  {
    assert (pat + b)[..|pat|] == pat;
    assert (pat + b)[|pat|..] == b;
  }

  /** Replacing the single occurrence of `pat` in `a + pat + b`, where neither part can start one. */
  lemma ReplaceOnce(a: string, b: string, pat: string, rep: string)
    requires |pat| > 0 && Avoids(a, pat[0]) && Avoids(b, pat[0])
    ensures ReplaceAll(a + pat + b, pat, rep) == a + rep + b
  {
    Regroup3(a, pat, b);
    ReplaceSkips(a, pat + b, pat, rep);
    ReplaceFront(b, pat, rep);
    Regroup3(a, rep, b);
  }

  lemma Regroup3(a: string, b: string, c: string)
    ensures a + b + c == a + (b + c)
  {
  }

  /** A different pattern of the same length and first character is not replaced. */
  lemma ReplaceOther(p1: string, p2: string, tail: string, v1: string)
    requires |p1| > 0 && |p2| == |p1| && p1[0] == p2[0] && p1 != p2
    requires Avoids(p2[1..], p1[0]) && Avoids(tail, p1[0])
    ensures ReplaceAll(p2 + tail, p1, v1) == p2 + tail
  {
    var tagged := p2 + tail;
    assert tagged[..|p1|] == p2;
    assert tagged[1..] == p2[1..] + tail;
    assert Avoids(tagged[1..], p1[0]);
    assert tagged == [tagged[0]] + tagged[1..];
  }

  /** The first occurrence, behind a prefix that cannot start one, is replaced. */
  lemma ReplaceFirst(lead: string, rest: string, p1: string, v1: string)
    requires |p1| > 0 && Avoids(lead, p1[0])
    ensures ReplaceAll(lead + (p1 + rest), p1, v1) == lead + (v1 + ReplaceAll(rest, p1, v1))
  {
    ReplaceSkips(lead, p1 + rest, p1, v1);
    ReplaceFront(rest, p1, v1);
  }

  /** Filling the first placeholder leaves the second alone. */
  lemma FillFirst(lead: string, mid: string, tail: string, p1: string, p2: string, v1: string)
    requires |p1| > 0 && |p2| == |p1| && p1[0] == p2[0] && p1 != p2
    requires Avoids(lead, p1[0]) && Avoids(mid, p1[0]) && Avoids(tail, p1[0]) && Avoids(p2[1..], p1[0])
    ensures ReplaceAll(lead + p1 + mid + p2 + tail, p1, v1) == (lead + v1 + mid) + p2 + tail
  {
    Regroup(lead, p1, mid, p2, tail);
    ReplaceFirst(lead, mid + (p2 + tail), p1, v1);
    KeepsOther(mid, tail, p1, p2, v1);
    Regroup(lead, v1, mid, p2, tail);
  }

  lemma Regroup(a: string, b: string, c: string, d: string, e: string)
    ensures a + b + c + d + e == a + (b + (c + (d + e)))
  {
  }

  /** The text after the first placeholder comes through unchanged. */
  lemma KeepsOther(mid: string, tail: string, p1: string, p2: string, v1: string)
    requires |p1| > 0 && |p2| == |p1| && p1[0] == p2[0] && p1 != p2
    requires Avoids(mid, p1[0]) && Avoids(tail, p1[0]) && Avoids(p2[1..], p1[0])
    ensures ReplaceAll(mid + (p2 + tail), p1, v1) == mid + (p2 + tail)
  {
    ReplaceSkips(mid, p2 + tail, p1, v1);
    ReplaceOther(p1, p2, tail, v1);
  }

  /**
   * Filling two placeholders of the same opening character in turn, where
   * neither the fixed parts nor the fillers hold that character.
   */
  lemma {:induction false} FillTwo(lead: string, mid: string, tail: string, p1: string, p2: string, v1: string, v2: string)
    requires |p1| > 0 && |p2| == |p1| && p1[0] == p2[0] && p1 != p2
    requires Avoids(lead, p1[0]) && Avoids(mid, p1[0]) && Avoids(tail, p1[0])
    requires Avoids(v1, p1[0]) && Avoids(p2[1..], p1[0])
    ensures ReplaceAll(ReplaceAll(lead + p1 + mid + p2 + tail, p1, v1), p2, v2) == lead + v1 + mid + v2 + tail
  {
    FillFirst(lead, mid, tail, p1, p2, v1);
    assert Avoids(lead + v1 + mid, p2[0]);
    ReplaceOnce(lead + v1 + mid, tail, p2, v2);
  }
}
