/** String helpers behind the bot's text handling: Python's `str.startswith`,
    `str.replace`, `str.ljust`/`str.rjust` style padding from format specs,
    and `str(int)` together with a reader that inverts it. */
module Text {
  import opened Wrappers

  /** `s.startswith(prefix)`: an exact, case-sensitive prefix test. */
  predicate StartsWith(s: string, prefix: string) {
    |prefix| <= |s| && s[..|prefix|] == prefix
  }

  lemma AppendAssoc<T>(a: seq<T>, b: seq<T>, c: seq<T>)
    ensures a + b + c == a + (b + c)
  {
  }

  lemma PrefixOf<T>(a: seq<T>, b: seq<T>)
    ensures (a + b)[..|a|] == a && (a + b)[|a|..] == b
  {
  }

  /** `c * n` for a one-character string `c`. */
  function Repeat(c: char, n: nat): (r: string)
    ensures |r| == n
    ensures forall i :: 0 <= i < n ==> r[i] == c
  {
    seq(n, _ => c)
  }

  function Spaces(n: nat): string {
    Repeat(' ', n)
  }

  /** The text of the format spec `{s:<width}`: `s` followed by spaces up to `width`;
      a longer `s` is kept whole. */
  function LeftJustify(s: string, width: nat): (r: string)
    ensures |r| == if |s| < width then width else |s|
    ensures r[..|s|] == s
    ensures forall i :: |s| <= i < |r| ==> r[i] == ' '
  {
    s + Spaces(PadWidth(s, width))
  }

  /** The text of the format spec `{s:>width}`: spaces up to `width`, then `s`;
      a longer `s` is kept whole. */
  function RightJustify(s: string, width: nat): (r: string)
    ensures |r| == if |s| < width then width else |s|
    ensures r[|r| - |s|..] == s
    ensures forall i :: 0 <= i < |r| - |s| ==> r[i] == ' '
  {
    Spaces(PadWidth(s, width)) + s
  }

  /** How many spaces padding `s` to `width` takes. */
  function PadWidth(s: string, width: nat): nat {
    if |s| < width then width - |s| else 0
  }

  // ---------------------------------------------------------------------------
  // Decimal numerals

  predicate IsDigit(c: char) {
    '0' <= c <= '9'
  }

  predicate IsNumeral(s: string) {
    |s| > 0 && forall i :: 0 <= i < |s| ==> IsDigit(s[i])
  }

  /** A numeral as `str(n)` prints it: no sign and no leading zero unless it is "0". */
  predicate IsCanonicalNumeral(s: string) {
    IsNumeral(s) && (|s| == 1 || s[0] != '0')
  }

  function DigitChar(d: nat): (c: char)
    requires d < 10
    ensures IsDigit(c) && c as int - '0' as int == d
  {
    "0123456789"[d]
  }

  /** `str(n)` for a non-negative integer. */
  function NatToString(n: nat): (r: string)
    ensures IsCanonicalNumeral(r)
  {
    if n < 10 then [DigitChar(n)]
    else NatToString(n / 10) + [DigitChar(n % 10)]
  }

  /** `str(i)` for any integer: a minus sign before the magnitude when negative. */
  function IntToString(i: int): (r: string)
    ensures |r| > 0
    ensures i < 0 <==> r[0] == '-'
  {
    if i < 0 then "-" + NatToString(-i) else NatToString(i)
  }

  /** The value of a numeral, most significant digit first. */
  function DigitsValue(s: string): nat
    requires forall i :: 0 <= i < |s| ==> IsDigit(s[i])
  {
    if |s| == 0 then 0
    else DigitsValue(s[..|s| - 1]) * 10 + DigitValue(s[|s| - 1])
  }

  function DigitValue(c: char): nat
    requires IsDigit(c)
  {
    c as int - '0' as int
  }

  /** `int(s)` restricted to unsigned numerals; anything else is rejected. */
  function ParseNat(s: string): Option<nat> {
    if IsNumeral(s) then Some(DigitsValue(s)) else None
  }

  /** `int(s)` for an optional minus sign followed by a numeral. */
  function ParseInt(s: string): Option<int> {
    if |s| > 0 && s[0] == '-' then
      match ParseNat(s[1..])
      case Some(n) => Some(-(n as int))
      case None => None
    else
      match ParseNat(s)
      case Some(n) => Some(n)
      case None => None
  }

  lemma {:induction false} NatToStringRoundTrip(n: nat)
    ensures ParseNat(NatToString(n)) == Some(n)
  {
    var s := NatToString(n);
    if n < 10 {
      assert s[..0] == [];
      assert DigitsValue(s) == DigitValue(s[0]);
    } else {
      NatToStringRoundTrip(n / 10);
      assert s[..|s| - 1] == NatToString(n / 10);
    }
  }

  lemma {:induction false} CanonicalPositive(s: string)
    requires IsNumeral(s) && s[0] != '0'
    ensures DigitsValue(s) >= 1
  {
    if |s| > 1 {
      CanonicalPositive(s[..|s| - 1]);
    } else {
      assert s[..0] == [];
    }
  }

  /** The other direction: every canonical numeral is what `str` prints for its value. */
  lemma {:induction false} ParseNatRoundTrip(s: string)
    requires IsCanonicalNumeral(s)
    ensures NatToString(DigitsValue(s)) == s
  {
    var p, d := s[..|s| - 1], DigitValue(s[|s| - 1]);
    if |s| == 1 {
      assert p == [];
      assert NatToString(d) == [DigitChar(d)];
    } else {
      assert IsCanonicalNumeral(p);
      CanonicalPositive(p);
      ParseNatRoundTrip(p);
      var n := DigitsValue(s);
      assert n == DigitsValue(p) * 10 + d;
      assert n / 10 == DigitsValue(p) && n % 10 == d;
      assert s == p + [s[|s| - 1]];
    }
  }

  lemma IntToStringRoundTrip(i: int)
    ensures ParseInt(IntToString(i)) == Some(i)
  {
    if i < 0 {
      NatToStringRoundTrip(-i);
      assert IntToString(i)[1..] == NatToString(-i);
    } else {
      NatToStringRoundTrip(i);
    }
  }

  function Pow10(k: nat): (r: nat)
    ensures r >= 1
  {
    if k == 0 then 1 else 10 * Pow10(k - 1)
  }

  /** `str(n)` has at most `k` characters exactly when `n < 10^k`. */
  lemma {:induction false} NatToStringWidth(n: nat, k: nat)
    requires k >= 1
    ensures |NatToString(n)| <= k <==> n < Pow10(k)
  {
    if n >= 10 {
      if k == 1 {
        assert |NatToString(n)| >= 2;
      } else {
        NatToStringWidth(n / 10, k - 1);
      }
    } else if k > 1 {
      PowAtLeastTen(k);
    }
  }

  lemma {:induction false} PowAtLeastTen(k: nat)
    requires k >= 1
    ensures Pow10(k) >= 10
  {
    if k > 1 {
      PowAtLeastTen(k - 1);
    }
  }

  // ---------------------------------------------------------------------------
  // str.replace

  /** `s.replace(pat, rep)`: every non-overlapping occurrence of `pat`, scanning
      left to right, is replaced by `rep`. */
  function ReplaceAll(s: string, pat: string, rep: string): string
    requires |pat| > 0
    decreases |s|
  {
    if |s| < |pat| then s
    else if s[..|pat|] == pat then rep + ReplaceAll(s[|pat|..], pat, rep)
    else [s[0]] + ReplaceAll(s[1..], pat, rep)
  }

  predicate OccursAt(pat: string, s: string, i: int) {
    0 <= i && i + |pat| <= |s| && s[i..i + |pat|] == pat
  }

  predicate Occurs(pat: string, s: string) {
    exists i | 0 <= i <= |s| :: OccursAt(pat, s, i)
  }

  lemma {:induction false} ReplaceAbsent(s: string, pat: string, rep: string)
    requires |pat| > 0 && !Occurs(pat, s)
    ensures ReplaceAll(s, pat, rep) == s
    decreases |s|
  {
    if |s| >= |pat| {
      assert !OccursAt(pat, s, 0);
      assert !Occurs(pat, s[1..]) by {
        forall i | OccursAt(pat, s[1..], i)
          ensures false
        {
          assert s[1..][i..i + |pat|] == s[i + 1..i + 1 + |pat|];
          assert OccursAt(pat, s, i + 1);
        }
      }
      ReplaceAbsent(s[1..], pat, rep);
    }
  }

  /** Replacement distributes over a concatenation whose right part starts with a
      character that `pat` does not contain: no occurrence can straddle the seam. */
  lemma {:induction false} ReplaceSplit(a: string, b: string, pat: string, rep: string)
    requires |pat| > 0 && |b| > 0
    requires forall k :: 0 <= k < |pat| ==> pat[k] != b[0]
    ensures ReplaceAll(a + b, pat, rep) == ReplaceAll(a, pat, rep) + ReplaceAll(b, pat, rep)
    decreases |a|
  {
    var s := a + b;
    if |a| < |pat| <= |s| {
      NoStraddle(a, b, pat);
    }
    if |a| == 0 {
      assert s == b;
    } else if |s| < |pat| {
    } else if s[..|pat|] == pat {
      assert a[..|pat|] == pat;
      assert s[|pat|..] == a[|pat|..] + b;
      ReplaceSplit(a[|pat|..], b, pat, rep);
    } else {
      assert s[1..] == a[1..] + b;
      ReplaceSplit(a[1..], b, pat, rep);
      if |a| >= |pat| {
        assert a[..|pat|] == s[..|pat|];
      } else {
        ReplaceAbsentShort(a[1..], pat, rep);
      }
    }
  }

  lemma NoStraddle(a: string, b: string, pat: string)
    requires |a| < |pat| <= |a + b|
    requires forall k :: 0 <= k < |pat| ==> pat[k] != b[0]
    ensures (a + b)[..|pat|] != pat
  {
    assert (a + b)[..|pat|][|a|] == b[0];
  }

  lemma ReplaceAbsentShort(s: string, pat: string, rep: string)
    requires 0 < |pat| && |s| < |pat|
    ensures ReplaceAll(s, pat, rep) == s
  {
  }
}
