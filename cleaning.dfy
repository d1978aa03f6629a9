/**
  Cleaning and parse-or-null conversion of the text cells of the metro table:
  the population column has its thousands separators removed and its ends
  stripped before conversion, and every conversion yields None instead of
  failing (pandas `to_numeric(errors='coerce')`).
 */
module Cleaning {
  import opened Wrappers

  /** The characters Python's `str.strip()` removes (those for which `str.isspace()` holds). */
  predicate IsSpace(c: char)
  {
    || c == ' '
    || ('\t' <= c <= '\r')
    || ('\U{1c}' <= c <= '\U{1f}')
    || c == '\U{85}' || c == '\U{a0}' || c == '\U{1680}'
    || ('\U{2000}' <= c <= '\U{200a}')
    || c == '\U{2028}' || c == '\U{2029}' || c == '\U{202f}' || c == '\U{205f}' || c == '\U{3000}'
  }

  predicate AllSpace(s: string)
  {
    forall i :: 0 <= i < |s| ==> IsSpace(s[i])
  }

  /** `str.replace(',', '')`: every comma goes, every other character stays, in order. */
  function RemoveCommas(s: string): (r: string)
    ensures ',' !in r
  {
    if s == [] then []
    else if s[0] == ',' then RemoveCommas(s[1..])
    else [s[0]] + RemoveCommas(s[1..])
  }

  /** Nothing but the commas is removed. */
  lemma {:induction false} RemoveCommasContents(s: string)
    ensures multiset(RemoveCommas(s)) == multiset(s)[',' := 0]
  {
    if s != [] {
      assert s == [s[0]] + s[1..];
      RemoveCommasContents(s[1..]);
    }
  }

  /** Removing commas keeps the order of what remains: it distributes over concatenation. */
  lemma {:induction false} RemoveCommasAppend(a: string, b: string)
    ensures RemoveCommas(a + b) == RemoveCommas(a) + RemoveCommas(b)
  {
    if a != [] {
      assert (a + b)[1..] == a[1..] + b;
      RemoveCommasAppend(a[1..], b);
    } else {
      assert a + b == b;
    }
  }

  /** A text without commas is left as it is. */
  lemma {:induction false} RemoveCommasNoop(s: string)
    requires ',' !in s
    ensures RemoveCommas(s) == s
  {
    if s != [] {
      assert ',' !in s[1..];
      RemoveCommasNoop(s[1..]);
    }
  }

  /** Number of whitespace characters at the start of `s`. */
  function LeadingSpaces(s: string): (k: nat)
    ensures k <= |s|
    ensures AllSpace(s[..k])
    ensures k < |s| ==> !IsSpace(s[k])
  {
    if s != [] && IsSpace(s[0]) then 1 + LeadingSpaces(s[1..]) else 0
  }

  /** Number of whitespace characters at the end of `s`. */
  function TrailingSpaces(s: string): (k: nat)
    ensures k <= |s|
    ensures AllSpace(s[|s| - k..])
    ensures k < |s| ==> !IsSpace(s[|s| - 1 - k])
  {
    if s != [] && IsSpace(s[|s| - 1]) then
      var k := TrailingSpaces(s[..|s| - 1]);
      assert s[|s| - 1 - k..] == s[..|s| - 1][|s| - 1 - k..] + [s[|s| - 1]];
      1 + k
    else 0
  }

  /**
    `str.strip()`: the result is the piece of `s` left once the whitespace at both ends
    is removed; it neither starts nor ends with whitespace.
   */
  function Strip(s: string): (r: string)
    ensures r == [] || (!IsSpace(r[0]) && !IsSpace(r[|r| - 1]))
    ensures LeadingSpaces(s) + |r| <= |s|
    ensures r == s[LeadingSpaces(s)..LeadingSpaces(s) + |r|]
    ensures AllSpace(s[LeadingSpaces(s) + |r|..])
  {
    var k := LeadingSpaces(s);
    var t := s[k..];
    var j := TrailingSpaces(t);
    var r := t[..|t| - j];
    assert r == s[k..k + |r|];
    assert s[k + |r|..] == t[|t| - j..];
    assert r != [] ==> r[0] == s[k] && r[|r| - 1] == t[|t| - 1 - j];
    r
  }

  /** Whitespace padding on both sides of a text with non-blank ends is exactly what Strip removes. */
  lemma {:induction false} StripPadded(pre: string, m: string, post: string)
    requires AllSpace(pre) && AllSpace(post)
    requires m != [] && !IsSpace(m[0]) && !IsSpace(m[|m| - 1])
    ensures Strip(pre + m + post) == m
  {
    var s := pre + m + post;
    assert s == pre + (m + post);
    LeadingOfPadded(pre, m + post);
    var t := s[|pre|..];
    assert t == m + post;
    TrailingOfPadded(m, post);
  }

  lemma {:induction false} LeadingOfPadded(pre: string, rest: string)
    requires AllSpace(pre)
    requires rest != [] && !IsSpace(rest[0])
    ensures LeadingSpaces(pre + rest) == |pre|
  {
    if pre != [] {
      assert (pre + rest)[1..] == pre[1..] + rest;
      LeadingOfPadded(pre[1..], rest);
    }
  }

  lemma {:induction false} TrailingOfPadded(rest: string, post: string)
    requires AllSpace(post)
    requires rest != [] && !IsSpace(rest[|rest| - 1])
    ensures TrailingSpaces(rest + post) == |post|
  {
    if post != [] {
      var s := rest + post;
      assert s[..|s| - 1] == rest + post[..|post| - 1];
      TrailingOfPadded(rest, post[..|post| - 1]);
    } else {
      assert rest + post == rest;
    }
  }

  /**
    The population cleaning step: drop the commas, then strip the ends.  The result
    is a contiguous piece of the comma-free text with only whitespace cut off on
    either side (`RemoveCommasContents` says the commas are all that the first step removes).
   */
  function CleanPopulation(s: string): (r: string)
    ensures ',' !in r
    ensures r == [] || (!IsSpace(r[0]) && !IsSpace(r[|r| - 1]))
    ensures Trimmed(RemoveCommas(s), r)
  {
    var t := RemoveCommas(s);
    StripTrims(t);
    Strip(t)
  }

  /** `r` is a contiguous piece of `t`, and everything of `t` around it is whitespace. */
  predicate Trimmed(t: string, r: string)
  {
    exists a: nat :: a + |r| <= |t| && r == t[a..a + |r|] && AllSpace(t[..a]) && AllSpace(t[a + |r|..])
  }

  /** Stripping cuts only whitespace off the ends, so it brings in no comma. */
  lemma {:induction false} StripTrims(t: string)
    ensures Trimmed(t, Strip(t))
    ensures ',' !in t ==> ',' !in Strip(t)
  {
    var r, a := Strip(t), LeadingSpaces(t);
    assert forall i :: 0 <= i < |r| ==> r[i] == t[a + i];
    assert a + |r| <= |t| && r == t[a..a + |r|] && AllSpace(t[..a]) && AllSpace(t[a + |r|..]);
  }

  /** Cleaning an already clean text changes nothing. */
  lemma {:induction false} CleanPopulationIdempotent(s: string)
    ensures CleanPopulation(CleanPopulation(s)) == CleanPopulation(s)
  {
    var c := CleanPopulation(s);
    RemoveCommasNoop(c);
    if c == [] {
    } else {
      StripPadded([], c, []);
      assert [] + c + [] == c;
    }
  }

  // ---------------------------------------------------------------- numbers

  predicate IsDigit(c: char)
  {
    '0' <= c <= '9'
  }

  predicate AllDigits(s: string)
  {
    forall i :: 0 <= i < |s| ==> IsDigit(s[i])
  }

  function DigitValue(c: char): nat
    requires IsDigit(c)
  {
    c as int - '0' as int
  }

  function DigitChar(d: nat): (c: char)
    requires d < 10
    ensures IsDigit(c) && DigitValue(c) == d
  {
    ('0' as int + d) as char
  }

  /** The value of a decimal digit string, most significant digit first. */
  function DigitsValue(s: string): nat
    requires AllDigits(s)
  {
    if s == [] then 0 else DigitsValue(s[..|s| - 1]) * 10 + DigitValue(s[|s| - 1])
  }

  function Pow10(n: nat): (p: nat)
    ensures p >= 1
  {
    if n == 0 then 1 else 10 * Pow10(n - 1)
  }

  predicate IsSign(c: char)
  {
    c == '-' || c == '+'
  }

  /**
    Parse-or-null conversion of a population text to an integer: an optional sign
    followed by at least one decimal digit, and nothing else.
   */
  function ParseInt(s: string): (r: Option<int>)
    ensures r.Some? <==> (s != [] && AllDigits(s)) || (|s| >= 2 && IsSign(s[0]) && AllDigits(s[1..]))
    ensures r.Some? && AllDigits(s) ==> r.value == DigitsValue(s)
    ensures r.Some? && r.value < 0 ==> s[0] == '-'
    ensures r.Some? && |s| >= 2 && IsSign(s[0]) ==>
              r.value == (if s[0] == '-' then -(DigitsValue(s[1..]) as int) else DigitsValue(s[1..]))
  {
    if |s| >= 2 && IsSign(s[0]) && AllDigits(s[1..]) then
      Some(if s[0] == '-' then -(DigitsValue(s[1..]) as int) else DigitsValue(s[1..]))
    else if s != [] && AllDigits(s) then Some(DigitsValue(s))
    else None
  }

  /** Decimal text of a natural number, without leading zeros. */
  function ShowNat(n: nat): (s: string)
    ensures s != [] && AllDigits(s)
  {
    if n < 10 then [DigitChar(n)] else ShowNat(n / 10) + [DigitChar(n % 10)]
  }

  /** Decimal text of an integer, with a leading '-' when negative. */
  function ShowInt(n: int): string
  {
    if n < 0 then "-" + ShowNat(-n) else ShowNat(n)
  }

  lemma {:induction false} DigitsValueShowNat(n: nat)
    ensures DigitsValue(ShowNat(n)) == n
  {
    if n >= 10 {
      var s := ShowNat(n);
      assert s[..|s| - 1] == ShowNat(n / 10);
      DigitsValueShowNat(n / 10);
    }
  }

  /** Parsing inverts printing: every integer survives the round trip. */
  lemma {:induction false} ParseIntShowInt(n: int)
    ensures ParseInt(ShowInt(n)) == Some(n)
  {
    if n < 0 {
      var s := ShowInt(n);
      assert s[1..] == ShowNat(-n);
      DigitsValueShowNat(-n);
    } else {
      DigitsValueShowNat(n);
    }
  }

  /** The last three digits of a number below 1000, zero-padded, as a thousands group is written. */
  function Pad3(m: nat): (s: string)
    requires m < 1000
    ensures |s| == 3 && AllDigits(s)
  {
    [DigitChar(m / 100), DigitChar(m / 10 % 10), DigitChar(m % 10)]
  }

  /** A natural number written with a comma between thousands groups, as the population column holds it. */
  function Grouped(n: nat): string
  {
    if n < 1000 then ShowNat(n) else Grouped(n / 1000) + "," + Pad3(n % 1000)
  }

  lemma {:induction false} ShowNatSplit(n: nat)
    requires n >= 1000
    ensures ShowNat(n) == ShowNat(n / 1000) + Pad3(n % 1000)
  {
    var a, b, c := n / 10, n / 100, n / 1000;
    ThousandsDigits(n);
    assert ShowNat(n) == ShowNat(a) + [DigitChar(n % 10)];
    assert ShowNat(a) == ShowNat(b) + [DigitChar(a % 10)];
    assert ShowNat(b) == ShowNat(c) + [DigitChar(b % 10)];
  }

  /** The three low digits of n, read off n % 1000 or off n / 10 and n / 100. */
  lemma {:induction false} ThousandsDigits(n: nat)
    ensures n / 100 == n / 10 / 10 && n / 1000 == n / 100 / 10
    ensures n % 1000 / 100 == n / 100 % 10
    ensures n % 1000 / 10 % 10 == n / 10 % 10
    ensures n % 1000 % 10 == n % 10
  {
    var q, r := n / 1000, n % 1000;
    assert n == 1000 * q + r;
    assert n / 10 == 100 * q + r / 10;
    assert n / 100 == 10 * q + r / 100;
  }

  lemma {:induction false} DigitsHaveNoComma(s: string)
    requires AllDigits(s)
    ensures ',' !in s
  {
  }

  lemma {:induction false} RemoveCommasGrouped(n: nat)
    ensures RemoveCommas(Grouped(n)) == ShowNat(n)
  {
    if n < 1000 {
      DigitsHaveNoComma(ShowNat(n));
      RemoveCommasNoop(ShowNat(n));
    } else {
      var g, p := Grouped(n / 1000), Pad3(n % 1000);
      assert Grouped(n) == g + ("," + p);
      RemoveCommasGrouped(n / 1000);
      DigitsHaveNoComma(p);
      RemoveCommasNoop(p);
      assert RemoveCommas("," + p) == RemoveCommas(p);
      RemoveCommasAppend(g, "," + p);
      ShowNatSplit(n);
    }
  }

  /**
    The point of the cleaning step: a population written with thousands separators
    and padded with whitespace parses back to the number it shows.
   */
  lemma {:induction false} PopulationRoundTrip(pre: string, n: nat, post: string)
    requires AllSpace(pre) && AllSpace(post)
    ensures ParseInt(CleanPopulation(pre + Grouped(n) + post)) == Some(n)
  {
    NoCommaInSpaces(pre);
    NoCommaInSpaces(post);
    RemoveCommasAppend(pre + Grouped(n), post);
    RemoveCommasAppend(pre, Grouped(n));
    RemoveCommasNoop(pre);
    RemoveCommasNoop(post);
    RemoveCommasGrouped(n);
    var d := ShowNat(n);
    assert IsDigit(d[0]) && IsDigit(d[|d| - 1]);
    StripPadded(pre, d, post);
    DigitsValueShowNat(n);
  }

  lemma {:induction false} NoCommaInSpaces(s: string)
    requires AllSpace(s)
    ensures ',' !in s
  {
  }

  /** Position of the first '.', or |s| when there is none. */
  function FirstDot(s: string): (k: nat)
    ensures k <= |s|
    ensures k < |s| ==> s[k] == '.'
    ensures forall i :: 0 <= i < k ==> s[i] != '.'
  {
    if s == [] then 0 else if s[0] == '.' then 0 else 1 + FirstDot(s[1..])
  }

  /** The number of '.' characters in the text. */
  function DotCount(s: string): nat
  {
    if s == [] then 0 else (if s[0] == '.' then 1 else 0) + DotCount(s[1..])
  }

  /**
    The text an unsigned decimal literal is made of: only digits and dots, at most
    one dot, and at least one digit (more characters than dots).
   */
  predicate UnsignedLiteral(s: string)
  {
    && (forall i :: 0 <= i < |s| ==> IsDigit(s[i]) || s[i] == '.')
    && DotCount(s) <= 1
    && DotCount(s) < |s|
  }

  /** A decimal literal: an unsigned one, with an optional sign in front. */
  predicate DecimalLiteral(s: string)
  {
    UnsignedLiteral(s) || (s != [] && IsSign(s[0]) && UnsignedLiteral(s[1..]))
  }

  /** The text with every '.' taken out. */
  function RemoveDots(s: string): string
  {
    if s == [] then [] else (if s[0] == '.' then [] else [s[0]]) + RemoveDots(s[1..])
  }

  /** How many characters follow the decimal point (0 when there is none). */
  function Places(s: string): nat
  {
    if FirstDot(s) < |s| then |s| - FirstDot(s) - 1 else 0
  }

  /**
    The value a literal denotes: all its digits read as one whole number, scaled down
    by ten for every digit after the point.
   */
  function LiteralValue(s: string): (v: real)
    requires UnsignedLiteral(s)
    ensures v >= 0.0
  {
    RemoveDotsDigits(s);
    DigitsValue(RemoveDots(s)) as real / Pow10(Places(s)) as real
  }

  /** Unsigned decimal literal: digits with at most one '.', and at least one digit. */
  function ParseUnsigned(s: string): (r: Option<real>)
    ensures r.Some? <==> UnsignedLiteral(s)
    ensures r.Some? ==> r.value == LiteralValue(s)
    ensures AllDigits(s) ==> r == (if s == [] then None else Some(DigitsValue(s) as real))
  {
    var k := FirstDot(s);
    UnsignedLiteralSplit(s);
    if k == |s| then
      if s != [] && AllDigits(s) then
        RemoveDotsNoop(s);
        Some(DigitsValue(s) as real)
      else None
    else
      var whole, frac := s[..k], s[k + 1..];
      if |s| >= 2 && AllDigits(whole) && AllDigits(frac) then
        assert s == whole + "." + frac;
        DottedDigits(whole, frac);
        JoinedValue(whole, frac);
        Some(DigitsValue(whole) as real + DigitsValue(frac) as real / Pow10(|frac|) as real)
      else None
  }

  /**
    Parse-or-null conversion of a GDP text to a number: an optional sign, digits and
    at most one decimal point.  A '-' negates the unsigned value and a '+' keeps it.
   */
  function ParseDecimal(s: string): (r: Option<real>)
    ensures r.Some? <==> DecimalLiteral(s)
    ensures s != [] && !IsSign(s[0]) ==> r == ParseUnsigned(s)
    ensures s != [] && s[0] == '-' && r.Some? ==> r == Some(-LiteralValue(s[1..]))
    ensures s != [] && s[0] == '+' && r.Some? ==> r == Some(LiteralValue(s[1..]))
    ensures s == [] || (|s| == 1 && IsSign(s[0])) ==> r.None?
  {
    SignedNotUnsigned(s);
    if s != [] && IsSign(s[0]) then
      match ParseUnsigned(s[1..])
      case Some(v) => Some(if s[0] == '-' then -v else v)
      case None => None
    else ParseUnsigned(s)
  }

  /** A text that starts with a sign is not an unsigned literal. */
  lemma {:induction false} SignedNotUnsigned(s: string)
    ensures s != [] && IsSign(s[0]) ==> !UnsignedLiteral(s)
  {
  }

  /** The grammar read off the first '.': digits before it and after it, or digits only. */
  lemma {:induction false} UnsignedLiteralSplit(s: string)
    ensures var k := FirstDot(s);
            UnsignedLiteral(s) <==>
              if k == |s| then s != [] && AllDigits(s)
              else |s| >= 2 && AllDigits(s[..k]) && AllDigits(s[k + 1..])
  {
    var k := FirstDot(s);
    if k == |s| {
      UndottedLiteral(s);
    } else {
      assert s == s[..k] + "." + s[k + 1..];
      DottedLiteral(s, s[..k], s[k + 1..]);
    }
  }

  /** Without a dot, the literal is a non-empty digit string. */
  lemma {:induction false} UndottedLiteral(s: string)
    requires forall i :: 0 <= i < |s| ==> s[i] != '.'
    ensures UnsignedLiteral(s) <==> s != [] && AllDigits(s)
  {
    DotCountZero(s);
  }

  /** Around the first dot, the literal is digits on both sides and at least one digit. */
  lemma {:induction false} DottedLiteral(s: string, before: string, after: string)
    requires s == before + "." + after
    requires forall i :: 0 <= i < |before| ==> before[i] != '.'
    ensures UnsignedLiteral(s) <==> |s| >= 2 && AllDigits(before) && AllDigits(after)
  {
    DotCountAppend(before + ".", after);
    DotCountAppend(before, ".");
    DotCountZero(before);
    DotCountZero(after);
    assert DotCount(s) == 1 + DotCount(after);
    DottedChars(s, before, after);
  }

  /** The characters of `before . after` are digits or dots exactly when both sides' are. */
  lemma {:induction false} DottedChars(s: string, before: string, after: string)
    requires s == before + "." + after
    ensures (forall i :: 0 <= i < |s| ==> IsDigit(s[i]) || s[i] == '.') <==>
            (forall i :: 0 <= i < |before| ==> IsDigit(before[i]) || before[i] == '.') &&
            (forall j :: 0 <= j < |after| ==> IsDigit(after[j]) || after[j] == '.')
  {
    assert forall i :: 0 <= i < |before| ==> s[i] == before[i];
    assert forall j :: 0 <= j < |after| ==> s[|before| + 1 + j] == after[j];
  }

  lemma {:induction false} DotCountAppend(a: string, b: string)
    ensures DotCount(a + b) == DotCount(a) + DotCount(b)
  {
    if a != [] {
      assert (a + b)[1..] == a[1..] + b;
      DotCountAppend(a[1..], b);
    } else {
      assert a + b == b;
    }
  }

  /** A text has no dot exactly when its dot count is zero. */
  lemma {:induction false} DotCountZero(s: string)
    ensures DotCount(s) == 0 <==> forall i :: 0 <= i < |s| ==> s[i] != '.'
  {
    if s != [] {
      DotCountZero(s[1..]);
      assert forall i :: 1 <= i < |s| ==> s[i] == s[1..][i - 1];
    }
  }

  /** Taking the dots out of a text of digits and dots leaves only digits. */
  lemma {:induction false} RemoveDotsDigits(s: string)
    requires forall i :: 0 <= i < |s| ==> IsDigit(s[i]) || s[i] == '.'
    ensures AllDigits(RemoveDots(s))
  {
    if s != [] {
      RemoveDotsDigits(s[1..]);
    }
  }

  lemma {:induction false} RemoveDotsNoop(s: string)
    requires AllDigits(s)
    ensures RemoveDots(s) == s
  {
    if s != [] {
      RemoveDotsNoop(s[1..]);
      assert s == [s[0]] + s[1..];
    }
  }

  lemma {:induction false} RemoveDotsAppend(a: string, b: string)
    ensures RemoveDots(a + b) == RemoveDots(a) + RemoveDots(b)
  {
    if a != [] {
      assert (a + b)[1..] == a[1..] + b;
      RemoveDotsAppend(a[1..], b);
    } else {
      assert a + b == b;
    }
  }

  /** Appending digits shifts the value of the digits before them. */
  lemma {:induction false} DigitsValueAppend(a: string, b: string)
    requires AllDigits(a) && AllDigits(b)
    ensures AllDigits(a + b)
    ensures DigitsValue(a + b) == DigitsValue(a) * Pow10(|b|) + DigitsValue(b)
  {
    assert forall i :: 0 <= i < |b| ==> (a + b)[|a| + i] == b[i];
    if b == [] {
      assert a + b == a;
    } else {
      var init := b[..|b| - 1];
      DigitsValueAppend(a, init);
      LastDigit(a, b);
      assert DigitsValue(b) == DigitsValue(init) * 10 + DigitValue(b[|b| - 1]);
      ShiftDigit(DigitsValue(a), DigitsValue(init), Pow10(|init|), DigitValue(b[|b| - 1]));
    }
  }

  /** Peeling the last digit of `a + b` off its `b` part. */
  lemma {:induction false} LastDigit(a: string, b: string)
    requires AllDigits(a) && AllDigits(b) && b != []
    requires AllDigits(a + b[..|b| - 1])
    requires AllDigits(a + b)
    ensures DigitsValue(a + b) == DigitsValue(a + b[..|b| - 1]) * 10 + DigitValue(b[|b| - 1])
  {
    var c := a + b;
    assert c[..|c| - 1] == a + b[..|b| - 1];
  }

  lemma {:induction false} ShiftDigit(w: nat, v: nat, p: nat, d: nat)
    ensures (w * p + v) * 10 + d == w * (10 * p) + (v * 10 + d)
  {
  }

  lemma {:induction false} ScaledSum(w: nat, f: nat, p: nat)
    requires p >= 1
    ensures (w * p + f) as real / p as real == w as real + f as real / p as real
  {
    assert (w * p + f) as real == w as real * p as real + f as real;
  }

  /** Two digit strings read as one number, scaled down by the second's length, are the first plus the scaled second. */
  lemma {:induction false} JoinedValue(whole: string, frac: string)
    requires AllDigits(whole) && AllDigits(frac)
    ensures AllDigits(whole + frac)
    ensures DigitsValue(whole + frac) as real / Pow10(|frac|) as real
         == DigitsValue(whole) as real + DigitsValue(frac) as real / Pow10(|frac|) as real
  {
    DigitsValueAppend(whole, frac);
    ScaledSum(DigitsValue(whole), DigitsValue(frac), Pow10(|frac|));
  }

  /** Taking the point out of a dotted literal joins its two digit strings. */
  lemma {:induction false} DottedDigits(whole: string, frac: string)
    requires AllDigits(whole) && AllDigits(frac)
    ensures var s := whole + "." + frac;
            RemoveDots(s) == whole + frac && FirstDot(s) == |whole| && Places(s) == |frac|
  {
    var s := whole + "." + frac;
    FirstDotAt(s, |whole|);
    RemoveDotsAppend(whole + ".", frac);
    RemoveDotsAppend(whole, ".");
    RemoveDotsNoop(whole);
    RemoveDotsNoop(frac);
    assert RemoveDots(".") == [];
  }

  /** Text outside the decimal grammar is NaN. */
  lemma {:induction false} ParseDecimalRejects()
    ensures ParseDecimal("abc").None? && ParseDecimal("1.2.3").None? && ParseDecimal("-x").None?
    ensures ParseDecimal(".").None? && ParseDecimal("-").None? && ParseDecimal(" 5").None?
  {
    assert !UnsignedLiteral("abc") by { assert !IsDigit('a'); }
    assert DotCount("1.2.3") == 2;
    assert !UnsignedLiteral("x") by { assert !IsDigit('x'); }
    assert !UnsignedLiteral(" 5") by { assert !IsDigit(' '); }
  }

  /** A minus sign negates a fractional value. */
  lemma {:induction false} ParseDecimalNegative()
    ensures ParseDecimal("-2.5") == Some(-2.5)
  {
    assert "-2.5"[1..] == "2" + "." + "5";
    DottedText("2", "5");
  }

  /** A plus sign keeps the value, and the whole part may be empty. */
  lemma {:induction false} ParseDecimalPlusFraction()
    ensures ParseDecimal("+.5") == Some(0.5)
  {
    assert "+.5"[1..] == ".5";
    assert UnsignedLiteral(".5") by { assert DotCount(".5") == 1; }
    assert LiteralValue(".5") == 0.5 by {
      DottedDigits("", "5");
      assert "" + "." + "5" == ".5";
    }
    ParseLiteral(".5", 0.5);
  }

  /** Every text ParseInt accepts is read by ParseDecimal as the same number. */
  lemma {:induction false} ParseDecimalExtendsParseInt(s: string)
    requires ParseInt(s).Some?
    ensures ParseDecimal(s) == Some(ParseInt(s).value as real)
  {
  }

  /** A text with a fraction part reads as whole part plus the fraction scaled by its length. */
  lemma {:induction false} ParseDecimalFraction(w: string, frac: string)
    requires w != [] && AllDigits(w) && AllDigits(frac)
    ensures ParseDecimal(w + "." + frac)
         == Some(DigitsValue(w) as real + DigitsValue(frac) as real / Pow10(|frac|) as real)
  {
    DottedText(w, frac);
    LiteralIsDecimal(w + "." + frac);
  }

  /** `w.frac` is an unsigned literal starting with a digit, worth `w + frac / 10^|frac|`. */
  lemma {:induction false} DottedText(w: string, frac: string)
    requires w != [] && AllDigits(w) && AllDigits(frac)
    ensures var s := w + "." + frac;
            && s != [] && IsDigit(s[0]) && UnsignedLiteral(s)
            && LiteralValue(s) == DigitsValue(w) as real + DigitsValue(frac) as real / Pow10(|frac|) as real
  {
    var s := w + "." + frac;
    assert s[0] == w[0];
    DottedIsLiteral(s, w, frac);
    DottedLiteralValue(s, w, frac);
  }

  /** An unsigned literal that starts with a digit reads as the value it denotes. */
  lemma {:induction false} LiteralIsDecimal(s: string)
    requires s != [] && IsDigit(s[0]) && UnsignedLiteral(s)
    ensures ParseDecimal(s) == Some(LiteralValue(s))
  {
    ParseLiteral(s, LiteralValue(s));
    UnsignedIsDecimal(s, LiteralValue(s));
  }

  /** Text that does not start with a sign reads as the unsigned literal it is. */
  lemma {:induction false} UnsignedIsDecimal(s: string, x: real)
    requires s != [] && IsDigit(s[0]) && ParseUnsigned(s) == Some(x)
    ensures ParseDecimal(s) == Some(x)
  {
  }

  /** A literal parses to the value it denotes. */
  lemma {:induction false} ParseLiteral(s: string, x: real)
    requires UnsignedLiteral(s) && LiteralValue(s) == x
    ensures ParseUnsigned(s) == Some(x)
  {
  }

  lemma {:induction false} DottedIsLiteral(s: string, w: string, frac: string)
    requires s == w + "." + frac
    requires w != [] && AllDigits(w) && AllDigits(frac)
    ensures UnsignedLiteral(s)
  {
    SplitAtDot(w, frac);
    UnsignedLiteralSplit(s);
  }

  lemma {:induction false} DottedLiteralValue(s: string, w: string, frac: string)
    requires s == w + "." + frac
    requires AllDigits(w) && AllDigits(frac) && UnsignedLiteral(s)
    ensures LiteralValue(s) == DigitsValue(w) as real + DigitsValue(frac) as real / Pow10(|frac|) as real
  {
    DottedDigits(w, frac);
    JoinedValue(w, frac);
  }

  /** In `w + "." + frac` with `w` all digits, the first dot follows `w`. */
  lemma {:induction false} SplitAtDot(w: string, frac: string)
    requires w != [] && AllDigits(w)
    ensures var s := w + "." + frac;
            && s[0] == w[0] && !IsSign(s[0])
            && FirstDot(s) == |w| && s[..|w|] == w && s[|w| + 1..] == frac
  {
    var s := w + "." + frac;
    FirstDotAt(s, |w|);
    assert s[..|w|] == w;
  }

  lemma {:induction false} FirstDotAt(s: string, k: nat)
    requires k < |s| && s[k] == '.'
    requires forall i :: 0 <= i < k ==> s[i] != '.'
    ensures FirstDot(s) == k
  {
    if k > 0 {
      FirstDotAt(s[1..], k - 1);
    }
  }
}
