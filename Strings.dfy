/**
 * Text helpers shared by the handlers: the decimal and hexadecimal rendering Rust's
 * `{}` and `{:x}` produce for integers, together with parsers that invert them;
 * `join` and `split` on one separator character; and `str::contains`.
 */
module Strings {
  import opened Wrappers

  // ---------------------------------------------------------------- digits

  /** The digit character for `d`, lower-case beyond 9 as Rust writes hexadecimal. */
  function DigitChar(d: nat): (c: char)
    requires d < 16
  {
    if d < 10 then ('0' as int + d) as char else ('a' as int + d - 10) as char
  }

  /** The value of a digit character, if it is one (0-9, a-f). */
  function DigitValue(c: char): (r: Option<nat>)
    ensures r.Some? ==> r.value < 16 && DigitChar(r.value) == c
  {
    if '0' <= c <= '9' then Some(c as int - '0' as int)
    else if 'a' <= c <= 'f' then Some(c as int - 'a' as int + 10)
    else None
  }

  predicate IsDigitIn(c: char, base: nat)
  {
    DigitValue(c).Some? && DigitValue(c).value < base
  }

  lemma DivModFacts(n: nat, base: nat)
    requires 2 <= base <= n
    ensures 1 <= n / base < n && n % base < base && n == n / base * base + n % base
  {
  }

  /** `n` written in `base` without leading zeros, as Rust's `{}` (base 10) or `{:x}` (base 16). */
  function NatToDigits(n: nat, base: nat): (s: string)
    requires 2 <= base <= 16
    ensures |s| > 0
    decreases n
  {
    if n < base then [DigitChar(n)]
    else
      DivModFacts(n, base);
      NatToDigits(n / base, base) + [DigitChar(n % base)]
  }

  /** Every character `NatToDigits` writes is a digit of the base. */
  lemma {:induction false} NatToDigitsAreDigits(n: nat, base: nat)
    requires 2 <= base <= 16
    ensures forall k :: 0 <= k < |NatToDigits(n, base)| ==> IsDigitIn(NatToDigits(n, base)[k], base)
    decreases n
  {
    if n < base {
      DigitRoundTrip(n);
    } else {
      DivModFacts(n, base);
      NatToDigitsAreDigits(n / base, base);
      DigitRoundTrip(n % base);
      var front := NatToDigits(n / base, base);
      var s := NatToDigits(n, base);
      assert s == front + [DigitChar(n % base)];
      forall k | 0 <= k < |s| ensures IsDigitIn(s[k], base) {
        if k < |front| {
          assert s[k] == front[k];
          assert IsDigitIn(front[k], base);
        } else {
          assert s[k] == DigitChar(n % base);
          assert DigitValue(s[k]) == Some(n % base);
          assert IsDigitIn(s[k], base);
        }
      }
    }
  }

  /** Reads a non-empty string of digits in `base`; `None` for anything else. */
  function ParseDigits(s: string, base: nat): (r: Option<nat>)
    requires 2 <= base <= 16
    decreases |s|
  {
    if |s| == 0 then None
    else
      var d := DigitValue(s[|s| - 1]);
      if d.None? || d.value >= base then None
      else if |s| == 1 then Some(d.value)
      else match ParseDigits(s[..|s| - 1], base)
        case None => None
        case Some(v) => Some(v * base + d.value)
  }

  lemma DigitRoundTrip(d: nat)
    requires d < 16
    ensures DigitValue(DigitChar(d)) == Some(d)
  {
  }

  /** Reading back what `NatToDigits` wrote gives the number. */
  lemma {:induction false} ParseNatToDigits(n: nat, base: nat)
    requires 2 <= base <= 16
    ensures ParseDigits(NatToDigits(n, base), base) == Some(n)
    decreases n
  {
    var s := NatToDigits(n, base);
    if n < base {
      DigitRoundTrip(n);
    } else {
      DivModFacts(n, base);
      var front := NatToDigits(n / base, base);
      assert s[..|s| - 1] == front;
      DigitRoundTrip(n % base);
      ParseNatToDigits(n / base, base);
    }
  }

  /** Rust's `{}` for an unsigned integer. */
  function NatToString(n: nat): (s: string)
    ensures |s| > 0
  {
    NatToDigits(n, 10)
  }

  /** Decimal text holds nothing but the digits 0-9. */
  lemma NatToStringOnlyDigits(n: nat, c: char)
    requires !('0' <= c <= '9')
    ensures c !in NatToString(n)
  {
    var s := NatToString(n);
    assert s == NatToDigits(n, 10);
    NatToDigitsAreDigits(n, 10);
  }

  /** The first digit `NatToDigits` writes is '0' only for zero itself, which is written as one digit. */
  lemma {:induction false} NatToDigitsLeading(n: nat, base: nat)
    requires 2 <= base <= 16
    ensures NatToDigits(n, base)[0] == '0' ==> n == 0 && |NatToDigits(n, base)| == 1
    decreases n
  {
    if n >= base {
      DivModFacts(n, base);
      NatToDigitsLeading(n / base, base);
      assert NatToDigits(n, base)[0] == NatToDigits(n / base, base)[0];
    }
  }

  /** Digits that do not start with '0' have a positive value. */
  lemma {:induction false} ParseDigitsPositive(s: string, base: nat)
    requires 2 <= base <= 16 && |s| > 0 && s[0] != '0'
    requires ParseDigits(s, base).Some?
    ensures ParseDigits(s, base).value >= 1
    decreases |s|
  {
    if |s| > 1 {
      ParseDigitsPositive(s[..|s| - 1], base);
    } else {
      assert DigitChar(0) == '0';
    }
  }

  /** Writing `v * base + d` for positive `v` writes `v`, then the digit `d`. */
  lemma AppendDigit(v: nat, d: nat, base: nat)
    requires 2 <= base <= 16 && 1 <= v && d < base
    ensures NatToDigits(v * base + d, base) == NatToDigits(v, base) + [DigitChar(d)]
  {
    var n := v * base + d;
    assert v * base >= base;
    assert n / base == v && n % base == d by {
      assert n == v * base + d;
    }
  }

  /** The only digits that read as `n` without a leading zero are the ones `NatToDigits` writes. */
  lemma {:induction false} ParseDigitsCanonical(s: string, base: nat)
    requires 2 <= base <= 16 && |s| > 0 && (|s| > 1 ==> s[0] != '0')
    requires ParseDigits(s, base).Some?
    ensures s == NatToDigits(ParseDigits(s, base).value, base)
    decreases |s|
  {
    var d := DigitValue(s[|s| - 1]).value;
    if |s| > 1 {
      var front := s[..|s| - 1];
      var v := ParseDigits(front, base).value;
      ParseDigitsPositive(front, base);
      ParseDigitsCanonical(front, base);
      AppendDigit(v, d, base);
      assert s == front + [s[|s| - 1]];
    }
  }

  /** Rust's `u64::from_str` restricted to canonical text: digits 0-9, no leading zero. */
  function ParseNat(s: string): Option<nat>
  {
    if |s| > 1 && s[0] == '0' then None else ParseDigits(s, 10)
  }

  lemma ParseNatToString(n: nat)
    ensures ParseNat(NatToString(n)) == Some(n)
  {
    NatToDigitsLeading(n, 10);
    ParseNatToDigits(n, 10);
  }

  /** Decimal text that reads as `n` is exactly the text `{}` writes for `n`. */
  lemma ParseNatCanonical(s: string)
    requires ParseNat(s).Some?
    ensures s == NatToString(ParseNat(s).value)
  {
    ParseDigitsCanonical(s, 10);
  }

  /** Rust's `{}` for a signed integer: a minus sign, then the magnitude in decimal. */
  function IntToString(i: int): (s: string)
    ensures |s| > 0
  {
    if i < 0 then "-" + NatToString(-i) else NatToString(i)
  }

  /** Reads canonical signed decimal text: an optional minus sign before a non-zero magnitude. */
  function ParseInt(s: string): Option<int>
  {
    if |s| > 0 && s[0] == '-' then
      match ParseNat(s[1..])
      case None => None
      case Some(v) => if v == 0 then None else var magnitude: int := v; Some(-magnitude)
    else
      match ParseNat(s)
      case None => None
      case Some(v) => var value: int := v; Some(value)
  }

  /** Decimal text determines the integer it was written from. */
  lemma ParseIntToString(i: int)
    ensures ParseInt(IntToString(i)) == Some(i)
  {
    if i < 0 {
      assert IntToString(i)[1..] == NatToString(-i);
      ParseNatToString(-i);
    } else {
      NatToStringOnlyDigits(i, '-');
      assert IntToString(i)[0] in NatToString(i);
      ParseNatToString(i);
    }
  }

  /** Decimal text that reads as `i` is exactly the text `{}` writes for `i`: no leading zero, no "-0". */
  lemma ParseIntCanonical(s: string)
    requires ParseInt(s).Some?
    ensures s == IntToString(ParseInt(s).value)
  {
    if |s| > 0 && s[0] == '-' {
      ParseNatCanonical(s[1..]);
      assert s == "-" + s[1..];
    } else {
      ParseNatCanonical(s);
    }
  }

  lemma IntToStringInjective(i: int, j: int)
    requires IntToString(i) == IntToString(j)
    ensures i == j
  {
    ParseIntToString(i);
    ParseIntToString(j);
  }

  // ---------------------------------------------------------- concatenation

  /**
   * Regrouping a concatenation. These are hints for the solver, stated over plain strings
   * so that callers need not unfold the pieces.
   */
  lemma ConcatAssoc(a: string, b: string, c: string)
    ensures a + b + c == a + (b + c)
  {
  }

  lemma ConcatNested(a: string, b: string, c: string, d: string, e: string)
    ensures a + b + c + d + e == a + (b + (c + (d + e)))
  {
  }

  // ---------------------------------------------------------- join / split

  /** Rust's `[String]::join` with a one-character separator. */
  function Join(parts: seq<string>, sep: char): string
  {
    if |parts| == 0 then ""
    else if |parts| == 1 then parts[0]
    else parts[0] + [sep] + Join(parts[1..], sep)
  }

  /** Rust's `str::split` on one character: the pieces between separators; "" gives [""]. */
  function Split(s: string, sep: char): (parts: seq<string>)
    ensures |parts| > 0
  {
    if |s| == 0 then [""]
    else
      var rest := Split(s[1..], sep);
      if s[0] == sep then [""] + rest else [[s[0]] + rest[0]] + rest[1..]
  }

  lemma {:induction false} SplitNoSeparator(a: string, sep: char)
    requires sep !in a
    ensures Split(a, sep) == [a]
  {
    if |a| > 0 {
      SplitNoSeparator(a[1..], sep);
      assert [a[0]] + a[1..] == a;
    }
  }

  lemma {:induction false} SplitAfterPiece(a: string, sep: char, b: string)
    requires sep !in a
    ensures Split(a + [sep] + b, sep) == [a] + Split(b, sep)
  {
    var s := a + [sep] + b;
    if |a| == 0 {
      assert s[1..] == b;
    } else {
      assert s[1..] == a[1..] + [sep] + b;
      SplitAfterPiece(a[1..], sep, b);
      assert [a[0]] + a[1..] == a;
    }
  }

  lemma SplitPair(a: string, sep: char, b: string)
    requires sep !in a && sep !in b
    ensures Split(a + [sep] + b, sep) == [a, b]
  {
    SplitAfterPiece(a, sep, b);
    SplitNoSeparator(b, sep);
  }

  /** Splitting a join on a separator that no part contains gives the parts back. */
  lemma {:induction false} SplitJoin(parts: seq<string>, sep: char)
    requires |parts| > 0
    requires forall k :: 0 <= k < |parts| ==> sep !in parts[k]
    ensures Split(Join(parts, sep), sep) == parts
  {
    if |parts| == 1 {
      SplitNoSeparator(parts[0], sep);
    } else {
      SplitAfterPiece(parts[0], sep, Join(parts[1..], sep));
      SplitJoin(parts[1..], sep);
      assert [parts[0]] + parts[1..] == parts;
    }
  }

  // --------------------------------------------------------------- contains

  /** The index of the first `c` in `s`, or `|s|` when there is none. */
  function IndexOf(s: string, c: char): (i: nat)
    ensures i <= |s| && (i < |s| ==> s[i] == c)
    ensures forall k :: 0 <= k < i ==> s[k] != c
  {
    if |s| == 0 then 0 else if s[0] == c then 0 else 1 + IndexOf(s[1..], c)
  }

  lemma {:induction false} IndexOfAfterPiece(a: string, c: char, b: string)
    requires c !in a
    ensures IndexOf(a + [c] + b, c) == |a|
  {
    if |a| > 0 {
      assert (a + [c] + b)[1..] == a[1..] + [c] + b;
      IndexOfAfterPiece(a[1..], c, b);
    }
  }

  /** `p` occurs in `s` starting at index `i`. */
  predicate OccursAt(s: string, p: string, i: int)
  {
    0 <= i && i + |p| <= |s| && s[i..i + |p|] == p
  }

  /** Rust's `str::contains` for a string pattern, scanning from the left. */
  predicate Contains(s: string, p: string)
    decreases |s|
  {
    if |p| > |s| then false
    else if s[..|p|] == p then true
    else Contains(s[1..], p)
  }

  lemma {:induction false} ContainsIffOccurs(s: string, p: string)
    ensures Contains(s, p) <==> exists i :: OccursAt(s, p, i)
    decreases |s|
  {
    if |p| > |s| {
    } else if s[..|p|] == p {
      assert OccursAt(s, p, 0);
    } else {
      ContainsIffOccurs(s[1..], p);
      if Contains(s[1..], p) {
        var i :| OccursAt(s[1..], p, i);
        assert s[i + 1..i + 1 + |p|] == s[1..][i..i + |p|];
        assert OccursAt(s, p, i + 1);
      }
      if i :| OccursAt(s, p, i) {
        assert i != 0;
        assert s[1..][i - 1..i - 1 + |p|] == s[i..i + |p|];
        assert OccursAt(s[1..], p, i - 1);
      }
    }
  }

  /** A two-character pattern occurs exactly where its two characters stand side by side. */
  lemma ContainsPair(s: string, a: char, b: char)
    ensures Contains(s, [a, b]) <==> exists i :: 0 <= i && i + 1 < |s| && s[i] == a && s[i + 1] == b
  {
    ContainsIffOccurs(s, [a, b]);
    if i :| OccursAt(s, [a, b], i) {
      assert s[i..i + 2][0] == s[i] && s[i..i + 2][1] == s[i + 1];
    }
    if i :| 0 <= i && i + 1 < |s| && s[i] == a && s[i + 1] == b {
      assert s[i..i + 2] == [a, b];
      assert OccursAt(s, [a, b], i);
    }
  }
}
