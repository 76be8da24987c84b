/** Character and string primitives the application and the scan gate rely on:
    Python's notion of whitespace, `str.split()[0]`, `int(str)` and
    `str(int)` for decimal integers, and the ASCII case-folding substring test
    that SQLite applies to `lower(x) LIKE lower('%q%')`. */
module Text {
  import opened Wrappers

  /** Python's `str.isspace`, the separators of `str.split()`: tab, line feed,
      vertical tab, form feed, carriage return, the separator controls
      0x1C-0x1F, space, and the non-ASCII whitespace of the Unicode database
      (next line, no-break space, ogham space, the en quad to hair space
      block, line and paragraph separators, narrow no-break space, medium
      mathematical space, ideographic space). */
  predicate IsSpace(c: char) {
    || (9 <= c as int <= 13) || (28 <= c as int <= 32)
    || c as int == 0x85 || c as int == 0xA0 || c as int == 0x1680
    || (0x2000 <= c as int <= 0x200A) || c as int == 0x2028 || c as int == 0x2029
    || c as int == 0x202F || c as int == 0x205F || c as int == 0x3000
  }

  /** The padding `int()` skips around its digits. CPython rewrites every
      non-ASCII whitespace character to a space and then skips only tab
      through carriage return and space, so the separator controls
      0x1C-0x1F are whitespace to `split()` but not padding to `int()`. */
  predicate IsPad(c: char) {
    IsSpace(c) && !(28 <= c as int <= 31)
  }

  predicate IsDigit(c: char) {
    '0' <= c <= '9'
  }

  predicate AllSpace(s: string) {
    forall i :: 0 <= i < |s| ==> IsSpace(s[i])
  }

  predicate AllPad(s: string) {
    forall i :: 0 <= i < |s| ==> IsPad(s[i])
  }

  predicate NoSpace(s: string) {
    forall i :: 0 <= i < |s| ==> !IsSpace(s[i])
  }

  predicate AllDigits(s: string) {
    forall i :: 0 <= i < |s| ==> IsDigit(s[i])
  }

  // ---------------------------------------------------------------------------
  // Stripping and the first whitespace-separated token
  // ---------------------------------------------------------------------------

  /** Length of the run of whitespace at the start of `s`. */
  function LeadingSpace(s: string): (n: nat)
    ensures n <= |s|
    ensures forall i :: 0 <= i < n ==> IsSpace(s[i])
    ensures n < |s| ==> !IsSpace(s[n])
  {
    if |s| > 0 && IsSpace(s[0]) then 1 + LeadingSpace(s[1..]) else 0
  }

  /** Length of the run of `int()` padding at the start of `s`. */
  function LeadingPad(s: string): (n: nat)
    ensures n <= |s|
    ensures forall i :: 0 <= i < n ==> IsPad(s[i])
    ensures n < |s| ==> !IsPad(s[n])
  {
    if |s| > 0 && IsPad(s[0]) then 1 + LeadingPad(s[1..]) else 0
  }

  /** Length of the run of `int()` padding at the end of `s`. */
  function TrailingPad(s: string): (n: nat)
    ensures n <= |s|
    ensures forall i :: |s| - n <= i < |s| ==> IsPad(s[i])
    ensures n < |s| ==> !IsPad(s[|s| - n - 1])
  {
    if |s| > 0 && IsPad(s[|s| - 1]) then 1 + TrailingPad(s[..|s| - 1]) else 0
  }

  /** Length of the run of non-whitespace at the start of `s`. */
  function TokenLength(s: string): (n: nat)
    ensures n <= |s|
    ensures forall i :: 0 <= i < n ==> !IsSpace(s[i])
    ensures n < |s| ==> IsSpace(s[n])
  {
    if |s| > 0 && !IsSpace(s[0]) then 1 + TokenLength(s[1..]) else 0
  }

  /** The text `int()` reads the number from: `s` without its padding. */
  function Trim(s: string): string {
    var a := LeadingPad(s);
    if a == |s| then [] else s[a..|s| - TrailingPad(s)]
  }

  /** `s` is `pre + t + post` with `pre` and `post` all padding and `t`
      neither starting nor ending with padding. */
  ghost predicate PaddedAt(s: string, a: int, b: int) {
    && 0 <= a < b <= |s|
    && (forall i :: 0 <= i < a ==> IsPad(s[i]))
    && (forall i :: b <= i < |s| ==> IsPad(s[i]))
    && !IsPad(s[a]) && !IsPad(s[b - 1])
  }

  /** Trimming a padded string removes exactly the padding. */
  lemma TrimPadded(s: string, a: int, b: int)
    requires PaddedAt(s, a, b)
    ensures Trim(s) == s[a..b]
  {
  }

  /** `tok` is the first element of Python's `s.split()`: whitespace, then
      `tok`, then either the end of `s` or more whitespace. */
  ghost predicate FirstTokenAt(s: string, tok: string, a: int) {
    && 0 <= a && a + |tok| <= |s|
    && |tok| > 0 && NoSpace(tok)
    && (forall i :: 0 <= i < a ==> IsSpace(s[i]))
    && s[a..a + |tok|] == tok
    && (a + |tok| == |s| || IsSpace(s[a + |tok|]))
  }

  /** `s.split()[0]`, or None where Python raises IndexError because the
      split is empty (the string is empty or all whitespace). */
  function FirstToken(s: string): (r: Option<string>)
    ensures r.None? <==> AllSpace(s)
    ensures r.Some? ==> exists a :: FirstTokenAt(s, r.value, a)
  {
    var n := LeadingSpace(s);
    var rest := s[n..];
    if rest == [] then
      assert s[..n] == s;
      None
    else
      var tok := rest[..TokenLength(rest)];
      assert !AllSpace(s) by { assert !IsSpace(s[n]); }
      assert FirstTokenAt(s, tok, n);
      Some(tok)
  }

  /** The first token is uniquely determined: any decomposition of `s` as
      whitespace, a token, then the end or whitespace yields that token. */
  lemma FirstTokenUnique(s: string, tok: string, a: int)
    requires FirstTokenAt(s, tok, a)
    ensures FirstToken(s) == Some(tok)
  {
    var n := LeadingSpace(s);
    assert !IsSpace(s[a]) by { assert s[a..a + |tok|][0] == s[a]; }
    assert n == a;
    var rest := s[a..];
    var m := TokenLength(rest);
    assert m == |tok| by {
      assert forall i :: 0 <= i < |tok| ==> rest[i] == tok[i];
      assert |tok| < |rest| ==> IsSpace(rest[|tok|]);
    }
    assert rest[..m] == tok;
  }

  // ---------------------------------------------------------------------------
  // Decimal integers: Python's int(str) and str(int)
  // ---------------------------------------------------------------------------

  function DigitValue(c: char): nat
    requires IsDigit(c)
  {
    c as int - '0' as int
  }

  function DigitChar(d: nat): (c: char)
    requires d < 10
    ensures IsDigit(c) && DigitValue(c) == d
  {
    ('0' as int + d) as char
  }

  /** The value of a decimal digit string, most significant digit first. */
  function DigitsValue(ds: string): nat
    requires AllDigits(ds)
  {
    if |ds| == 0 then 0
    else DigitsValue(ds[..|ds| - 1]) * 10 + DigitValue(ds[|ds| - 1])
  }

  /** An optionally signed, non-empty run of decimal digits. */
  predicate SignedDigits(t: string) {
    if |t| > 0 && (t[0] == '+' || t[0] == '-') then |t| > 1 && AllDigits(t[1..])
    else |t| > 0 && AllDigits(t)
  }

  /** The number of digits in a signed digit string. */
  function DigitCount(t: string): nat
    requires SignedDigits(t)
  {
    if t[0] == '+' || t[0] == '-' then |t| - 1 else |t|
  }

  /** CPython's default limit on the digits `int()` converts from a decimal
      string (`sys.get_int_max_str_digits()`); longer strings raise ValueError. */
  const MaxIntDigits: nat := 4300

  function SignedValue(t: string): int
    requires SignedDigits(t)
  {
    if t[0] == '-' then -(DigitsValue(t[1..]) as int)
    else if t[0] == '+' then DigitsValue(t[1..])
    else DigitsValue(t)
  }

  /** The strings `int()` accepts in this model: optional padding, an
      optional sign, one to `MaxIntDigits` ASCII digits, optional padding. */
  ghost predicate IntLiteral(s: string) {
    exists a, b :: PaddedAt(s, a, b) && SignedDigits(s[a..b]) && DigitCount(s[a..b]) <= MaxIntDigits
  }

  /** Unless `s` is all padding, the trimmed text lies between the padding
      trimming removes. */
  lemma {:induction false} TrimBounds(s: string)
    requires LeadingPad(s) < |s|
    ensures PaddedAt(s, LeadingPad(s), |s| - TrailingPad(s))
    ensures Trim(s) == s[LeadingPad(s)..|s| - TrailingPad(s)]
  {
    PadRunsMeet(s);
  }

  /** The leading and trailing padding of a string that is not all padding
      are separated by at least one character. */
  lemma PadRunsMeet(s: string)
    requires LeadingPad(s) < |s|
    ensures LeadingPad(s) + TrailingPad(s) < |s|
  {
    assert !IsPad(s[LeadingPad(s)]);
  }

  /** Every string `int()` accepts trims to a signed digit string within the limit. */
  lemma LiteralTrims(s: string)
    requires IntLiteral(s)
    ensures SignedDigits(Trim(s)) && DigitCount(Trim(s)) <= MaxIntDigits
  {
    var a, b :| PaddedAt(s, a, b) && SignedDigits(s[a..b]) && DigitCount(s[a..b]) <= MaxIntDigits;
    TrimPadded(s, a, b);
  }

  /** Python's `int(s)` for a string argument; None where Python raises ValueError. */
  function ParseInt(s: string): (r: Option<int>)
    ensures r.Some? <==> IntLiteral(s)
  {
    var t := Trim(s);
    if SignedDigits(t) && DigitCount(t) <= MaxIntDigits then
      TrimBounds(s);
      var a, b := LeadingPad(s), |s| - TrailingPad(s);
      assert PaddedAt(s, a, b) && SignedDigits(s[a..b]) && DigitCount(s[a..b]) <= MaxIntDigits;
      Some(SignedValue(t))
    else
      assert !IntLiteral(s) by {
        if IntLiteral(s) { LiteralTrims(s); }
      }
      None
  }

  /** The decimal digits of `n`, most significant first, without leading zeros. */
  function NatToDigits(n: nat): (ds: string)
    ensures |ds| > 0 && AllDigits(ds)
  {
    if n < 10 then [DigitChar(n)] else NatToDigits(n / 10) + [DigitChar(n % 10)]
  }

  /** Python's `str(n)` for an integer. */
  function IntToString(n: int): (s: string)
    ensures SignedDigits(s)
  {
    if n < 0 then "-" + NatToDigits(-n) else NatToDigits(n)
  }

  lemma {:induction false} DigitsRoundTrip(n: nat)
    ensures DigitsValue(NatToDigits(n)) == n
  {
    if n >= 10 {
      var ds := NatToDigits(n);
      assert ds[..|ds| - 1] == NatToDigits(n / 10);
      DigitsRoundTrip(n / 10);
    }
  }

  /** A run of `z` zero digits. */
  function Zeros(z: nat): (ds: string)
    ensures |ds| == z && AllDigits(ds)
  {
    if z == 0 then "" else Zeros(z - 1) + "0"
  }

  lemma {:induction false} ZerosValue(z: nat)
    ensures DigitsValue(Zeros(z)) == 0
  {
    if z > 0 {
      assert Zeros(z)[..z - 1] == Zeros(z - 1);
      ZerosValue(z - 1);
    }
  }

  /** Leading zeros do not change the value of a digit string. */
  lemma {:induction false} LeadingZeros(z: nat, ds: string)
    requires AllDigits(ds)
    ensures DigitsValue(Zeros(z) + ds) == DigitsValue(ds)
    decreases |ds|
  {
    var p := Zeros(z) + ds;
    if ds == [] {
      assert p == Zeros(z);
      ZerosValue(z);
    } else {
      assert p[..|p| - 1] == Zeros(z) + ds[..|ds| - 1];
      assert p[|p| - 1] == ds[|ds| - 1];
      LeadingZeros(z, ds[..|ds| - 1]);
    }
  }

  /** Padding around a text that neither starts nor ends with padding is
      exactly what trimming removes. */
  lemma TrimAround(pre: string, t: string, post: string)
    requires AllPad(pre) && AllPad(post)
    requires |t| > 0 && !IsPad(t[0]) && !IsPad(t[|t| - 1])
    ensures Trim(pre + t + post) == t
  {
    var s := pre + t + post;
    var a, b := |pre|, |pre| + |t|;
    assert s[..a] == pre && s[b..] == post && s[a..b] == t;
    assert s[a] == t[0] && s[b - 1] == t[|t| - 1];
    TrimPadded(s, a, b);
  }

  /** A sign followed by digits is a signed digit string with that many
      digits and the signed value of the digits; it neither starts nor ends
      with padding. */
  lemma SignedValueOf(sign: string, ds: string)
    requires sign == "" || sign == "+" || sign == "-"
    requires |ds| > 0 && AllDigits(ds)
    ensures SignedDigits(sign + ds) && DigitCount(sign + ds) == |ds|
    ensures SignedValue(sign + ds) == if sign == "-" then -(DigitsValue(ds) as int) else DigitsValue(ds)
    ensures !IsPad((sign + ds)[0]) && !IsPad((sign + ds)[|sign + ds| - 1])
  {
    var t := sign + ds;
    assert t[|t| - 1] == ds[|ds| - 1];
    if sign != "" {
      assert t[1..] == ds;
    } else {
      assert t == ds;
    }
  }

  /** `int()` reads a padded signed digit string within the limit as its value. */
  lemma ParsePadded(pre: string, t: string, post: string)
    requires AllPad(pre) && AllPad(post)
    requires SignedDigits(t) && DigitCount(t) <= MaxIntDigits
    requires !IsPad(t[0]) && !IsPad(t[|t| - 1])
    ensures ParseInt(pre + t + post) == Some(SignedValue(t))
  {
    TrimAround(pre, t, post);
  }

  /** `int()` reads a padded sign-and-digits string within the limit as its
      signed value `v`. */
  lemma ParseSigned(pre: string, sign: string, ds: string, post: string, v: int)
    requires AllPad(pre) && AllPad(post)
    requires sign == "" || sign == "+" || sign == "-"
    requires 0 < |ds| <= MaxIntDigits && AllDigits(ds)
    requires v == if sign == "-" then -(DigitsValue(ds) as int) else DigitsValue(ds)
    ensures ParseInt(pre + (sign + ds) + post) == Some(v)
  {
    var t := sign + ds;
    SignedValueOf(sign, ds);
    ParsePadded(pre, t, post);
  }

  /** `int()` reads back the decimal digits of `m`, written with an optional
      sign and any number of leading zeros and surrounded by padding, as `m`
      or `-m`, provided the digits stay within the conversion limit. */
  lemma ParseIntRoundTrip(pre: string, sign: string, z: nat, m: nat, post: string)
    requires AllPad(pre) && AllPad(post)
    requires sign == "" || sign == "+" || sign == "-"
    requires z + |NatToDigits(m)| <= MaxIntDigits
    ensures ParseInt(pre + sign + Zeros(z) + NatToDigits(m) + post) == Some(if sign == "-" then -(m as int) else m)
  {
    var ds := Zeros(z) + NatToDigits(m);
    assert DigitsValue(ds) == m by {
      DigitsRoundTrip(m);
      LeadingZeros(z, NatToDigits(m));
    }
    Regroup(pre, sign, Zeros(z), NatToDigits(m));
    ParseSigned(pre, sign, ds, post, if sign == "-" then -(m as int) else m);
  }

  lemma Regroup(a: string, b: string, c: string, d: string)
    ensures a + b + c + d == a + (b + (c + d))
  {
  }

  /** `str(n)` is the sign of `n`, then the digits of its magnitude. */
  lemma IntToStringShape(n: int)
    ensures IntToString(n) == "" + (if n < 0 then "-" else "") + Zeros(0) + NatToDigits(if n < 0 then -n else n) + ""
  {
    assert Zeros(0) == "";
  }

  /** `int(str(n)) == n` within the conversion limit. */
  lemma ParseIntToString(n: int)
    requires |NatToDigits(if n < 0 then -n else n)| <= MaxIntDigits
    ensures ParseInt(IntToString(n)) == Some(n)
  {
    IntToStringShape(n);
    ParseIntRoundTrip("", if n < 0 then "-" else "", 0, if n < 0 then -n else n, "");
  }

  /** Numbers below 1000 have at most three digits. */
  lemma SmallDigits(n: nat)
    requires n < 1000
    ensures |NatToDigits(n)| <= 3
  {
    if n >= 100 {
      assert |NatToDigits(n / 10 / 10)| == 1;
      assert |NatToDigits(n / 10)| == 2;
    } else if n >= 10 {
      assert |NatToDigits(n / 10)| == 1;
    }
  }



  // ---------------------------------------------------------------------------
  // ASCII case folding and substring search
  // ---------------------------------------------------------------------------

  /** SQLite's built-in `lower()` on one character: ASCII letters only. */
  function Fold(c: char): char {
    if 'A' <= c <= 'Z' then (c as int - 'A' as int + 'a' as int) as char else c
  }

  function Lower(s: string): string {
    seq(|s|, i requires 0 <= i < |s| => Fold(s[i]))
  }

  /** `needle` occurs in `hay`, checked offset by offset as a scan of `hay` would. */
  predicate HasSubstring(hay: string, needle: string)
    decreases |hay|
  {
    |needle| <= |hay| && (hay[..|needle|] == needle || HasSubstring(hay[1..], needle))
  }

  /** `lower(hay) LIKE lower('%' || q || '%')` for a `q` without wildcards. */
  predicate ContainsIgnoringCase(hay: string, q: string) {
    HasSubstring(Lower(hay), Lower(q))
  }

  ghost predicate SliceAt(hay: string, needle: string, i: int) {
    0 <= i && i + |needle| <= |hay| && hay[i..i + |needle|] == needle
  }

  /** Reference definition: some window of `hay` equals `q` character by
      character once both are case-folded. */
  ghost predicate FoldedMatchAt(hay: string, q: string, i: int) {
    0 <= i && i + |q| <= |hay| && forall k :: 0 <= k < |q| ==> Fold(hay[i + k]) == Fold(q[k])
  }

  ghost predicate OccursIgnoringCase(hay: string, q: string) {
    exists i :: FoldedMatchAt(hay, q, i)
  }

  lemma {:induction false} HasSubstringIff(hay: string, needle: string)
    ensures HasSubstring(hay, needle) <==> exists i :: SliceAt(hay, needle, i)
    decreases |hay|
  {
    if |needle| <= |hay| {
      if hay[..|needle|] == needle {
        assert SliceAt(hay, needle, 0);
      } else {
        HasSubstringIff(hay[1..], needle);
        if i :| SliceAt(hay, needle, i) {
          assert i != 0;
          assert hay[1..][i - 1..i - 1 + |needle|] == hay[i..i + |needle|];
          assert SliceAt(hay[1..], needle, i - 1);
        }
        if i :| SliceAt(hay[1..], needle, i) {
          assert hay[1..][i..i + |needle|] == hay[i + 1..i + 1 + |needle|];
          assert SliceAt(hay, needle, i + 1);
        }
      }
    }
  }

  lemma FoldedMatchIsSlice(hay: string, q: string, i: int)
    ensures FoldedMatchAt(hay, q, i) <==> SliceAt(Lower(hay), Lower(q), i)
  {
    if 0 <= i && i + |q| <= |hay| {
      var w := Lower(hay)[i..i + |q|];
      if FoldedMatchAt(hay, q, i) {
        assert w == Lower(q);
      }
      if SliceAt(Lower(hay), Lower(q), i) {
        forall k | 0 <= k < |q|
          ensures Fold(hay[i + k]) == Fold(q[k])
        {
          assert w[k] == Lower(q)[k];
        }
      }
    }
  }

  /** The executable test agrees with the reference definition. */
  lemma ContainsIgnoringCaseCorrect(hay: string, q: string)
    ensures ContainsIgnoringCase(hay, q) <==> OccursIgnoringCase(hay, q)
  {
    HasSubstringIff(Lower(hay), Lower(q));
    if i :| FoldedMatchAt(hay, q, i) {
      FoldedMatchIsSlice(hay, q, i);
    }
    if i :| SliceAt(Lower(hay), Lower(q), i) {
      FoldedMatchIsSlice(hay, q, i);
    }
  }

  // ---------------------------------------------------------------------------
  // SQL `LIKE` as SQLite evaluates `ilike`
  // ---------------------------------------------------------------------------

  /** A query with no SQL `LIKE` wildcard characters in it. */
  predicate NoWildcards(q: string) {
    forall i :: 0 <= i < |q| ==> q[i] != '%' && q[i] != '_'
  }

  /** `s ILIKE pattern` with no escape character: `%` matches any run of
      characters, `_` matches exactly one, and every other character matches
      itself up to ASCII case. */
  predicate LikeMatch(s: string, pattern: string)
    decreases |s| + |pattern|
  {
    if pattern == [] then s == []
    else if pattern[0] == '%' then LikeMatch(s, pattern[1..]) || (s != [] && LikeMatch(s[1..], pattern))
    else s != [] && (pattern[0] == '_' || Fold(s[0]) == Fold(pattern[0])) && LikeMatch(s[1..], pattern[1..])
  }

  lemma {:induction false} TrailingPercentMatchesAll(s: string)
    ensures LikeMatch(s, "%")
    decreases |s|
  {
    assert "%"[1..] == [];
    if s != [] {
      TrailingPercentMatchesAll(s[1..]);
    }
  }

  /** For a wildcard-free `q`, `s LIKE q || '%'` holds exactly when `q` is a
      case-folded prefix of `s`. */
  lemma {:induction false} LikePrefix(s: string, q: string)
    requires NoWildcards(q)
    ensures LikeMatch(s, q + "%") <==> FoldedMatchAt(s, q, 0)
    decreases |q|
  {
    if q == [] {
      assert q + "%" == "%";
      TrailingPercentMatchesAll(s);
    } else {
      assert (q + "%")[0] == q[0];
      assert (q + "%")[1..] == q[1..] + "%";
      if s != [] {
        LikePrefix(s[1..], q[1..]);
        if FoldedMatchAt(s[1..], q[1..], 0) && Fold(s[0]) == Fold(q[0]) {
          forall k | 0 <= k < |q|
            ensures Fold(s[k]) == Fold(q[k])
          {
            if k > 0 {
              assert s[1..][k - 1] == s[k] && q[1..][k - 1] == q[k];
            }
          }
        }
        if FoldedMatchAt(s, q, 0) {
          forall k | 0 <= k < |q[1..]|
            ensures Fold(s[1..][k]) == Fold(q[1..][k])
          {
            assert s[1..][k] == s[k + 1] && q[1..][k] == q[k + 1];
          }
        }
      }
    }
  }

  /** `s LIKE '%' || r` holds exactly when some suffix of `s` matches `r`. */
  lemma {:induction false} LikeLeadingPercent(s: string, r: string)
    ensures LikeMatch(s, "%" + r) <==> exists i :: 0 <= i <= |s| && LikeMatch(s[i..], r)
    decreases |s|
  {
    assert ("%" + r)[0] == '%' && ("%" + r)[1..] == r;
    assert s[0..] == s;
    if s != [] {
      LikeLeadingPercent(s[1..], r);
      if i :| 1 <= i <= |s| && LikeMatch(s[i..], r) {
        assert s[1..][i - 1..] == s[i..];
      }
      if i :| 0 <= i <= |s[1..]| && LikeMatch(s[1..][i..], r) {
        assert s[1..][i..] == s[i + 1..];
      }
    }
  }

  /** For a query without wildcards, the pattern `'%' || q || '%'` the search
      builds matches exactly the fields that contain `q` up to ASCII case. */
  lemma LikeContainsIsSubstring(hay: string, q: string)
    requires NoWildcards(q)
    ensures LikeMatch(hay, "%" + q + "%") <==> OccursIgnoringCase(hay, q)
  {
    assert "%" + q + "%" == "%" + (q + "%");
    LikeLeadingPercent(hay, q + "%");
    if i :| 0 <= i <= |hay| && LikeMatch(hay[i..], q + "%") {
      LikePrefix(hay[i..], q);
      forall k | 0 <= k < |q|
        ensures Fold(hay[i + k]) == Fold(q[k])
      {
        assert hay[i..][k] == hay[i + k];
      }
      assert FoldedMatchAt(hay, q, i);
    }
    if i :| FoldedMatchAt(hay, q, i) {
      LikePrefix(hay[i..], q);
      forall k | 0 <= k < |q|
        ensures Fold(hay[i..][k]) == Fold(q[k])
      {
        assert hay[i..][k] == hay[i + k];
      }
      assert LikeMatch(hay[i..], q + "%");
    }
  }
}
