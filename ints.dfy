/** Python's `int(x)` on a string, restricted to base 10 and ASCII: surrounding
    whitespace is stripped, then an optional sign and one or more decimal
    digits must remain. `FormatInt` is `str(n)`, its canonical inverse. */
module Ints {
  import opened Wrappers

  /** The characters `int()` skips around an ASCII literal: space, `\t`,
      `\n`, `\v`, `\f` and `\r`. (The separators 0x1C to 0x1F, which
      `str.strip()` removes, are not among them.) */
  predicate IsWhitespace(c: char) {
    c == ' ' || '\t' <= c <= '\r'
  }

  predicate AllWhitespace(s: string) {
    forall i :: 0 <= i < |s| ==> IsWhitespace(s[i])
  }

  predicate IsDigit(c: char) {
    '0' <= c <= '9'
  }

  predicate AllDigits(s: string) {
    forall i :: 0 <= i < |s| ==> IsDigit(s[i])
  }

  /** One or more decimal digits. */
  predicate IsDigits(s: string) {
    |s| > 0 && AllDigits(s)
  }

  function DigitValue(c: char): nat
    requires IsDigit(c)
  {
    c as int - '0' as int
  }

  function DigitChar(d: nat): char
    requires d < 10
  {
    ('0' as int + d) as char
  }

  /** The first index at or after `i` whose character is not whitespace,
      or `|s|` if there is none. */
  function SpaceEnd(s: string, i: nat): (n: nat)
    requires i <= |s|
    ensures i <= n <= |s|
    ensures forall k :: i <= k < n ==> IsWhitespace(s[k])
    ensures n == |s| || !IsWhitespace(s[n])
    decreases |s| - i
  {
    if i < |s| && IsWhitespace(s[i]) then SpaceEnd(s, i + 1) else i
  }

  /** Leading whitespace removed: what is left is a suffix of `s` that does
      not start with whitespace, and what was removed is all whitespace. */
  function StripLeft(s: string): (r: string)
    ensures |r| <= |s|
    ensures forall i :: 0 <= i < |s| - |r| ==> IsWhitespace(s[i])
    ensures forall i :: |s| - |r| <= i < |s| ==> r[i - (|s| - |r|)] == s[i]
    ensures r == [] || !IsWhitespace(r[0])
  {
    s[SpaceEnd(s, 0)..]
  }

  /** Trailing whitespace removed: what is left is a prefix of `s` that does
      not end with whitespace, and what was removed is all whitespace. */
  function StripRight(s: string): (r: string)
    ensures |r| <= |s|
    ensures forall i :: 0 <= i < |r| ==> r[i] == s[i]
    ensures forall i :: |r| <= i < |s| ==> IsWhitespace(s[i])
    ensures r == [] || !IsWhitespace(r[|r| - 1])
  {
    if |s| > 0 && IsWhitespace(s[|s| - 1]) then StripRight(s[..|s| - 1]) else s
  }

  /** `s.strip()`: leading and trailing whitespace removed; what is left
      neither starts nor ends with whitespace. */
  function Strip(s: string): (r: string)
    ensures r == [] || (!IsWhitespace(r[0]) && !IsWhitespace(r[|r| - 1]))
  {
    StripRight(StripLeft(s))
  }

  /** Value of a digit string, most significant digit first; 0 for "". */
  function DigitsValue(s: string): nat
    requires AllDigits(s)
    decreases |s|
  {
    if s == [] then 0 else DigitsValue(s[..|s| - 1]) * 10 + DigitValue(s[|s| - 1])
  }

  /** Decimal digits of `n` without leading zeros. */
  function NatDigits(n: nat): (r: string)
    ensures IsDigits(r)
    ensures |r| == 1 || r[0] != '0'
    ensures (r == "0") <==> (n == 0)
  {
    if n < 10 then [DigitChar(n)] else NatDigits(n / 10) + [DigitChar(n % 10)]
  }

  /** `str(n)`: a `-` for negative numbers, then the digits of `|n|`. */
  function FormatInt(n: int): (r: string)
    ensures |r| > 0 && IsDigit(r[|r| - 1])
    ensures (r[0] == '-') == (n < 0)
    ensures forall i :: 0 <= i < |r| ==> IsDigit(r[i]) || (i == 0 && r[i] == '-')
  {
    if n < 0 then "-" + NatDigits(-n) else NatDigits(n)
  }

  /** A character `int()` can accept somewhere in its argument. */
  predicate IsIntChar(c: char) {
    IsWhitespace(c) || IsDigit(c) || c == '-' || c == '+'
  }

  /** A signed decimal literal with no whitespace around it: an optional
      `+` or `-`, then one or more digits. */
  function ParseDecimal(t: string): (r: Option<int>)
    ensures r.Some? <==> IsDigits(t) || (|t| > 0 && (t[0] == '-' || t[0] == '+') && IsDigits(t[1..]))
    ensures r.Some? ==> |t| > 0 && forall i :: 0 <= i < |t| ==> IsDigit(t[i]) || (i == 0 && (t[i] == '-' || t[i] == '+'))
    ensures IsDigits(t) ==> r == Some(DigitsValue(t))
    ensures |t| > 0 && t[0] == '+' && IsDigits(t[1..]) ==> r == Some(DigitsValue(t[1..]))
    ensures |t| > 0 && t[0] == '-' && IsDigits(t[1..]) ==> r == Some(0 - DigitsValue(t[1..]))
  {
    if |t| > 0 && (t[0] == '-' || t[0] == '+') then
      var digits := t[1..];
      if IsDigits(digits) then
        var v: int := DigitsValue(digits);
        Some(if t[0] == '-' then -v else v)
      else None
    else if IsDigits(t) then Some(DigitsValue(t))
    else None
  }

  /** `int(f)`: `None` where Python raises `ValueError`. A blank field is
      rejected, and an accepted field holds only whitespace, digits and
      signs (`ParseIntForm` and `ParseIntAccepts` say which fields are
      accepted and with what value). */
  function ParseInt(f: string): (r: Option<int>)
    ensures AllWhitespace(f) ==> r.None?
    ensures r.Some? ==> forall i :: 0 <= i < |f| ==> IsIntChar(f[i])
  {
    StripBlank(f);
    StripKeeps(f);
    ParseDecimal(Strip(f))
  }

  /** The canonical decimal form `str` produces: an optional `-`, then
      digits with no leading zero, and no `-0`. */
  predicate IsCanonical(t: string) {
    if |t| > 0 && t[0] == '-' then IsDigits(t[1..]) && t[1] != '0'
    else IsDigits(t) && (|t| == 1 || t[0] != '0')
  }

  /** The digits of `n` read back as `n`. */
  lemma {:induction false} DigitsRoundTrip(n: nat)
    ensures DigitsValue(NatDigits(n)) == n
  {
    var s := NatDigits(n);
    if n < 10 {
      assert s[..|s| - 1] == [];
    } else {
      DigitsRoundTrip(n / 10);
      assert s[..|s| - 1] == NatDigits(n / 10);
    }
  }

  lemma {:induction false} LeadingDigitPositive(s: string)
    requires IsDigits(s) && s[0] != '0'
    ensures DigitsValue(s) > 0
    decreases |s|
  {
    if |s| > 1 {
      LeadingDigitPositive(s[..|s| - 1]);
    }
  }

  /** A digit string without leading zeros is the digits of its value. */
  lemma {:induction false} CanonicalDigits(s: string)
    requires IsDigits(s) && (|s| == 1 || s[0] != '0')
    ensures NatDigits(DigitsValue(s)) == s
    decreases |s|
  {
    var p := s[..|s| - 1];
    var n := DigitsValue(s);
    if |s| == 1 {
      assert DigitChar(DigitValue(s[0])) == s[0];
    } else {
      LeadingDigitPositive(p);
      CanonicalDigits(p);
      assert n / 10 == DigitsValue(p);
      assert n % 10 == DigitValue(s[|s| - 1]);
      assert DigitChar(n % 10) == s[|s| - 1];
      assert s == p + [s[|s| - 1]];
    }
  }

  lemma StripLeftPadded(w: string, u: string)
    requires AllWhitespace(w) && (u == [] || !IsWhitespace(u[0]))
    ensures StripLeft(w + u) == u
  {
    var s := w + u;
    var n := SpaceEnd(s, 0);
    if |w| < |s| {
      assert s[|w|] == u[0];
    }
    assert forall k :: 0 <= k < |w| ==> s[k] == w[k];
    assert n == |w|;
    assert s[n..] == u;
  }

  lemma {:induction false} StripRightPadded(u: string, w: string)
    requires AllWhitespace(w) && (u == [] || !IsWhitespace(u[|u| - 1]))
    ensures StripRight(u + w) == u
    decreases |w|
  {
    if |w| > 0 {
      assert (u + w)[..|u + w| - 1] == u + w[..|w| - 1];
      StripRightPadded(u, w[..|w| - 1]);
    } else {
      assert u + w == u;
    }
  }

  /** Stripping a string that neither starts nor ends with whitespace, with
      whitespace around it, gives back that string. */
  lemma StripPadded(w1: string, t: string, w2: string)
    requires AllWhitespace(w1) && AllWhitespace(w2)
    requires |t| > 0 && !IsWhitespace(t[0]) && !IsWhitespace(t[|t| - 1])
    ensures Strip(w1 + t + w2) == t
  {
    assert w1 + t + w2 == w1 + (t + w2);
    StripLeftPadded(w1, t + w2);
    StripRightPadded(t, w2);
  }

  /** What `Strip` removes is whitespace: `s` is whitespace up to `n`, then
      the stripped string, then whitespace. */
  lemma StripParts(s: string)
    ensures var r := Strip(s); var n := |s| - |StripLeft(s)|;
      && n + |r| <= |s|
      && (forall i :: 0 <= i < n ==> IsWhitespace(s[i]))
      && (forall i :: n <= i < n + |r| ==> s[i] == r[i - n])
      && (forall i :: n + |r| <= i < |s| ==> IsWhitespace(s[i]))
  {
    var l := StripLeft(s);
    var r := Strip(s);
    var n := |s| - |l|;
    forall i | n + |r| <= i < |s|
      ensures IsWhitespace(s[i])
    {
      assert IsWhitespace(l[i - n]);
    }
  }

  /** A string that is whitespace up to `n`, then `t`, then whitespace,
      reads as the literal `t` between its padding. */
  lemma PaddedLiteral(s: string, n: nat, t: string)
    requires n + |t| <= |s|
    requires forall k :: 0 <= k < n ==> IsWhitespace(s[k])
    requires forall k :: n <= k < n + |t| ==> s[k] == t[k - n]
    requires forall k :: n + |t| <= k < |s| ==> IsWhitespace(s[k])
    ensures exists i, j :: 0 <= i <= j <= |s| && AllWhitespace(s[..i]) && AllWhitespace(s[j..]) && ParseDecimal(s[i..j]) == ParseDecimal(t)
  {
    var j := n + |t|;
    var head, mid, tail := s[..n], s[n..j], s[j..];
    forall k | 0 <= k < |head|
      ensures IsWhitespace(head[k])
    {
      assert head[k] == s[k];
    }
    forall k | 0 <= k < |tail|
      ensures IsWhitespace(tail[k])
    {
      assert tail[k] == s[j + k];
    }
    forall k | 0 <= k < |t|
      ensures mid[k] == t[k]
    {
      assert mid[k] == s[n + k];
    }
    assert mid == t;
    assert 0 <= n <= j <= |s| && AllWhitespace(head) && AllWhitespace(tail) && ParseDecimal(mid) == ParseDecimal(t);
  }

  /** Nothing is left after stripping exactly when `s` is all whitespace. */
  lemma StripBlank(s: string)
    ensures Strip(s) == [] <==> AllWhitespace(s)
  {
    var n := |s| - |StripLeft(s)|;
    StripParts(s);
    if Strip(s) != [] {
      assert s[n] == Strip(s)[0];
    }
  }

  /** Every character of `s` is whitespace or kept by stripping. */
  lemma StripKeeps(s: string)
    ensures forall i :: 0 <= i < |s| ==> IsWhitespace(s[i]) || s[i] in Strip(s)
  {
    var r := Strip(s);
    var n := |s| - |StripLeft(s)|;
    StripParts(s);
    forall i | 0 <= i < |s| && !IsWhitespace(s[i])
      ensures s[i] in r
    {
      assert s[i] == r[i - n];
    }
  }

  /** The literal `str(n)` reads back as `n`. */
  lemma DecimalRoundTrip(n: int)
    ensures ParseDecimal(FormatInt(n)) == Some(n)
  {
    var t := FormatInt(n);
    if n < 0 {
      DigitsRoundTrip(-n);
      assert t[1..] == NatDigits(-n);
    } else {
      DigitsRoundTrip(n);
    }
  }

  /** `int(str(n))` is `n`, also with whitespace around it (as `readline`
      leaves a trailing newline). */
  lemma ParsePadded(n: int, w1: string, w2: string)
    requires AllWhitespace(w1) && AllWhitespace(w2)
    ensures ParseInt(w1 + FormatInt(n) + w2) == Some(n)
  {
    StripPadded(w1, FormatInt(n), w2);
    DecimalRoundTrip(n);
  }

  /** `int(str(n) + w)` is `n` for trailing whitespace `w`. */
  lemma ParseTrailing(n: int, w: string)
    requires AllWhitespace(w)
    ensures ParseInt(FormatInt(n) + w) == Some(n)
  {
    var t := FormatInt(n);
    ParsePadded(n, "", w);
    assert "" + t == t;
  }

  lemma DecimalAccepts(sign: string, d: string)
    requires sign == "" || sign == "+" || sign == "-"
    requires IsDigits(d)
    ensures ParseDecimal(sign + d) == Some(if sign == "-" then 0 - DigitsValue(d) else DigitsValue(d))
  {
    var t := sign + d;
    if sign == "" {
      assert t == d;
    } else {
      assert t[0] == sign[0];
      assert t[1..] == d;
    }
  }

  /** `int()` accepts every decimal literal with an optional sign and
      whitespace around it, and reads the value of its digits, negated
      after a `-`. */
  lemma ParseIntAccepts(w1: string, sign: string, d: string, w2: string)
    requires AllWhitespace(w1) && AllWhitespace(w2)
    requires sign == "" || sign == "+" || sign == "-"
    requires IsDigits(d)
    ensures ParseInt(w1 + sign + d + w2) == Some(if sign == "-" then 0 - DigitsValue(d) else DigitsValue(d))
  {
    var t := sign + d;
    LiteralEnds(sign, d);
    assert w1 + sign + d + w2 == w1 + t + w2;
    StripPadded(w1, t, w2);
    assert ParseInt(w1 + t + w2) == ParseDecimal(t);
    DecimalAccepts(sign, d);
  }

  /** A field `int()` accepts is whitespace, then a decimal literal that
      gives its value, then whitespace. */
  lemma ParseIntForm(f: string)
    requires ParseInt(f).Some?
    ensures exists i, j :: 0 <= i <= j <= |f| && AllWhitespace(f[..i]) && AllWhitespace(f[j..]) && ParseDecimal(f[i..j]) == ParseInt(f)
  {
    StripParts(f);
    PaddedLiteral(f, |f| - |StripLeft(f)|, Strip(f));
    assert ParseInt(f) == ParseDecimal(Strip(f));
  }

  lemma LiteralEnds(sign: string, d: string)
    requires sign == "" || sign == "+" || sign == "-"
    requires IsDigits(d)
    ensures var t := sign + d; |t| > 0 && !IsWhitespace(t[0]) && !IsWhitespace(t[|t| - 1])
  {
    var t := sign + d;
    assert t[|t| - 1] == d[|d| - 1];
    assert t[0] == if sign == "" then d[0] else sign[0];
  }

  /** Every string `str` produces is canonical. */
  lemma FormatCanonical(n: int)
    ensures IsCanonical(FormatInt(n))
  {
    if n < 0 {
      assert FormatInt(n)[1..] == NatDigits(-n);
    }
  }

  lemma CanonicalDecimal(t: string)
    requires IsCanonical(t)
    ensures ParseDecimal(t).Some? && FormatInt(ParseDecimal(t).value) == t
  {
    if t[0] == '-' {
      var digits := t[1..];
      CanonicalDigits(digits);
      LeadingDigitPositive(digits);
      assert ParseDecimal(t) == Some(0 - DigitsValue(digits));
      assert t == "-" + digits;
    } else {
      CanonicalDigits(t);
      assert ParseDecimal(t) == Some(DigitsValue(t));
    }
  }

  /** Every canonical string is `str` of the integer `int()` reads from it,
      so canonical strings and integers correspond one to one. */
  lemma CanonicalFormat(t: string)
    requires IsCanonical(t)
    ensures ParseInt(t).Some? && FormatInt(ParseInt(t).value) == t
  {
    assert !IsWhitespace(t[0]) && !IsWhitespace(t[|t| - 1]);
    StripPadded("", t, "");
    assert "" + t + "" == t;
    CanonicalDecimal(t);
  }
}
