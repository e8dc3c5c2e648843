/**
 The string built-ins the duration formatter relies on: `String(n)` on a
 non-negative integer, `padStart` with a one-character fill, and `join` on an
 array of strings.  `String(n)` and `join` come with inverses (decimal
 parsing, `split`), and zero padding is shown to keep a numeral's value, so
 that the formatter's output can be read back.
 */
module Strings {

  predicate IsDigit(c: char) {
    '0' <= c <= '9'
  }

  /** Every character is a decimal digit (the empty string included). */
  predicate IsDecimal(s: string) {
    forall i | 0 <= i < |s| :: IsDigit(s[i])
  }

  /** A non-empty run of decimal digits. */
  predicate IsNumeral(s: string) {
    s != [] && IsDecimal(s)
  }

  lemma DecimalExcludes(s: string, c: char)
    requires IsDecimal(s) && !IsDigit(c)
    ensures c !in s
  {
  }

  function DigitChar(d: nat): (c: char)
    requires d < 10
    ensures IsDigit(c)
  {
    (d + '0' as int) as char
  }

  function DigitValue(c: char): (d: nat)
    requires IsDigit(c)
    ensures d < 10
  {
    c as int - '0' as int
  }

  lemma DigitRoundTrip(d: nat)
    requires d < 10
    ensures DigitValue(DigitChar(d)) == d
  {
  }

  /**
   `String(n)` for a non-negative integer: its shortest decimal numeral.
   The numeral has at least one digit, all digits, and starts with '0'
   exactly when it is the numeral of zero (no leading zeros).
   */
  function ToDecimal(n: nat): (r: string)
    ensures IsNumeral(r)
    ensures (r[0] == '0') == (n == 0)
    decreases n
  {
    if n < 10 then [DigitChar(n)] else ToDecimal(n / 10) + [DigitChar(n % 10)]
  }

  /** The value of a string of decimal digits, most significant digit first. */
  function DecimalValue(s: string): nat
    requires IsDecimal(s)
    decreases |s|
  {
    if s == [] then 0 else DecimalValue(s[..|s| - 1]) * 10 + DigitValue(s[|s| - 1])
  }

  /** Reading back the numeral `String(n)` gives `n`. */
  lemma {:induction false} DecimalRoundTrip(n: nat)
    ensures DecimalValue(ToDecimal(n)) == n
    decreases n
  {
    if n >= 10 {
      var s := ToDecimal(n / 10);
      var c := DigitChar(n % 10);
      assert (s + [c])[..|s|] == s;
      DecimalRoundTrip(n / 10);
      DigitRoundTrip(n % 10);
    } else {
      DigitRoundTrip(n);
    }
  }

  /**
   The other direction: a numeral without leading zeros is `String` of its
   value, so `ToDecimal` is the one canonical decimal representation.
   */
  lemma {:induction false} CanonicalNumeral(s: string)
    requires IsNumeral(s)
    requires s[0] == '0' ==> |s| == 1
    ensures ToDecimal(DecimalValue(s)) == s
    decreases |s|
  {
    if |s| == 1 {
      assert s == [s[0]];
      OneDigit(s[0]);
    } else {
      var init, last := s[..|s| - 1], s[|s| - 1];
      assert s == init + [last];
      assert init[0] == s[0];
      NonZeroLead(init);
      CanonicalNumeral(init);
      AppendDigit(init, last);
    }
  }

  /** A one-digit numeral is `String` of its value. */
  lemma OneDigit(c: char)
    requires IsDigit(c)
    ensures ToDecimal(DecimalValue([c])) == [c]
  {
    assert [c][..0] == [];
    assert DecimalValue([c]) == DigitValue(c);
  }

  /** A numeral that does not start with '0' has a positive value. */
  lemma NonZeroLead(s: string)
    requires IsNumeral(s) && s[0] != '0'
    ensures DecimalValue(s) >= 1
  {
    if DecimalValue(s) == 0 {
      ZeroValueAllZeros(s);
      assert false;
    }
  }

  /** Appending a digit to the numeral `String(v)` of some `v >= 1` gives `String` of the new value. */
  lemma AppendDigit(init: string, last: char)
    requires IsDecimal(init) && DecimalValue(init) >= 1 && ToDecimal(DecimalValue(init)) == init
    requires IsDigit(last)
    ensures IsDecimal(init + [last])
    ensures ToDecimal(DecimalValue(init + [last])) == init + [last]
  {
    var s := init + [last];
    assert s[..|s| - 1] == init;
    var n := DecimalValue(s);
    assert n == DecimalValue(init) * 10 + DigitValue(last);
    assert n / 10 == DecimalValue(init) && n % 10 == DigitValue(last);
    assert DigitChar(DigitValue(last)) == last;
  }

  /** A digit string of value zero consists of zeros only. */
  lemma {:induction false} ZeroValueAllZeros(s: string)
    requires IsDecimal(s) && DecimalValue(s) == 0
    ensures forall i | 0 <= i < |s| :: s[i] == '0'
    decreases |s|
  {
    if s != [] {
      var init := s[..|s| - 1];
      assert IsDecimal(init);
      ZeroValueAllZeros(init);
      forall i | 0 <= i < |s| ensures s[i] == '0' {
        if i < |s| - 1 { assert s[i] == init[i]; }
      }
    }
  }

  /** How many characters `String(n)` has, at the boundaries the formatter cares about. */
  lemma {:induction false} DecimalLength(n: nat)
    ensures n < 10 ==> |ToDecimal(n)| == 1
    ensures 10 <= n < 100 ==> |ToDecimal(n)| == 2
    ensures 100 <= n ==> |ToDecimal(n)| >= 3
    decreases n
  {
    if n >= 10 {
      DecimalLength(n / 10);
    }
  }

  /** A string of `k` copies of `c`. */
  function Repeat(c: char, k: nat): (r: string)
    ensures |r| == k
  {
    seq(k, _ => c)
  }

  /**
   `s.padStart(width, fill)` with a one-character fill: `s` is prefixed with
   as many `fill` characters as it takes to reach `width`, and is never cut
   when it is already at least `width` long.
   */
  function PadStart(s: string, width: nat, fill: char): (r: string)
    ensures |r| == if |s| < width then width else |s|
    ensures r[|r| - |s|..] == s
    ensures forall i | 0 <= i < |r| - |s| :: r[i] == fill
  {
    if |s| < width then Repeat(fill, width - |s|) + s else s
  }

  /** Leading zeros do not change the value of a digit string. */
  lemma {:induction false} LeadingZeros(z: string, s: string)
    requires forall i | 0 <= i < |z| :: z[i] == '0'
    requires IsDecimal(s)
    ensures IsDecimal(z + s)
    ensures DecimalValue(z + s) == DecimalValue(s)
    decreases |s|
  {
    assert IsDecimal(z + s) by {
      forall i | 0 <= i < |z + s| ensures IsDigit((z + s)[i]) {
        if i < |z| { assert (z + s)[i] == z[i]; } else { assert (z + s)[i] == s[i - |z|]; }
      }
    }
    if s == [] {
      assert z + s == z;
      AllZerosValue(z);
    } else {
      var init := s[..|s| - 1];
      assert (z + s)[..|z + s| - 1] == z + init;
      assert (z + s)[|z + s| - 1] == s[|s| - 1];
      LeadingZeros(z, init);
    }
  }

  lemma {:induction false} AllZerosValue(z: string)
    requires forall i | 0 <= i < |z| :: z[i] == '0'
    ensures IsDecimal(z) && DecimalValue(z) == 0
    decreases |z|
  {
    if z != [] {
      AllZerosValue(z[..|z| - 1]);
    }
  }

  /** Padding a numeral with zeros keeps it a numeral of the same value. */
  lemma ZeroPaddedValue(s: string, width: nat)
    requires IsNumeral(s)
    ensures IsNumeral(PadStart(s, width, '0'))
    ensures DecimalValue(PadStart(s, width, '0')) == DecimalValue(s)
  {
    if |s| < width {
      LeadingZeros(Repeat('0', width - |s|), s);
    }
  }

  /** `parts.join(sep)`: the parts in order with `sep` between neighbours; no parts give "". */
  function Join(parts: seq<string>, sep: string): (r: string)
    ensures |parts| == 0 ==> r == ""
    decreases |parts|
  {
    if |parts| == 0 then ""
    else if |parts| == 1 then parts[0]
    else parts[0] + sep + Join(parts[1..], sep)
  }

  /** A join starts with its first part and ends with its last one. */
  lemma {:induction false} JoinEnds(parts: seq<string>, sep: string)
    requires |parts| > 0
    ensures parts[0] <= Join(parts, sep)
    ensures var r, last := Join(parts, sep), parts[|parts| - 1];
      |last| <= |r| && r[|r| - |last|..] == last
    decreases |parts|
  {
    if |parts| > 1 {
      var tail := parts[1..];
      JoinEnds(tail, sep);
      assert tail[|tail| - 1] == parts[|parts| - 1];
      var r, rest := Join(parts, sep), Join(tail, sep);
      assert r == parts[0] + sep + rest;
      assert r[..|parts[0]|] == parts[0];
      assert r[|r| - |rest|..] == rest;
    }
  }

  lemma JoinThree(a: string, b: string, c: string, sep: string)
    ensures Join([a, b, c], sep) == a + sep + b + sep + c
  {
    assert [b, c][1..] == [c];
    assert Join([b, c], sep) == b + sep + c;
    assert [a, b, c][1..] == [b, c];
  }

  /**
   `s.split(sep)` for a one-character separator: the maximal runs between
   separators, so always at least one part and no part holds `sep`.
   */
  function Split(s: string, sep: char): (parts: seq<string>)
    ensures |parts| >= 1
    ensures forall i | 0 <= i < |parts| :: sep !in parts[i]
    decreases |s|
  {
    if s == [] then [""]
    else
      var rest := Split(s[1..], sep);
      if s[0] == sep then [""] + rest
      else [[s[0]] + rest[0]] + rest[1..]
  }

  lemma {:induction false} SplitWithoutSeparator(a: string, sep: char)
    requires sep !in a
    ensures Split(a, sep) == [a]
    decreases |a|
  {
    if a != [] {
      SplitWithoutSeparator(a[1..], sep);
      assert [a[0]] + a[1..] == a;
    }
  }

  lemma {:induction false} SplitAfterPart(a: string, sep: char, b: string)
    requires sep !in a
    ensures Split(a + [sep] + b, sep) == [a] + Split(b, sep)
    decreases |a|
  {
    var s := a + [sep] + b;
    if a == [] {
      assert s[1..] == b;
    } else {
      assert s[1..] == a[1..] + [sep] + b;
      SplitAfterPart(a[1..], sep, b);
      assert [a[0]] + a[1..] == a;
    }
  }

  /** Splitting a join of separator-free parts gives the parts back. */
  lemma {:induction false} SplitJoin(parts: seq<string>, sep: char)
    requires |parts| >= 1
    requires forall i | 0 <= i < |parts| :: sep !in parts[i]
    ensures Split(Join(parts, [sep]), sep) == parts
    decreases |parts|
  {
    if |parts| == 1 {
      SplitWithoutSeparator(parts[0], sep);
    } else {
      var tail := parts[1..];
      assert forall i | 0 <= i < |tail| :: sep !in tail[i] by {
        forall i | 0 <= i < |tail| ensures sep !in tail[i] { assert tail[i] == parts[i + 1]; }
      }
      SplitJoin(tail, sep);
      SplitAfterPart(parts[0], sep, Join(tail, [sep]));
      assert [parts[0]] + tail == parts;
    }
  }

  /** Joining what `split` returns, with the same separator, rebuilds the string. */
  lemma {:induction false} JoinSplit(s: string, sep: char)
    ensures Join(Split(s, sep), [sep]) == s
    decreases |s|
  {
    if s != [] {
      var rest := Split(s[1..], sep);
      JoinSplit(s[1..], sep);
      if s[0] == sep {
        assert ([""] + rest)[1..] == rest;
      } else {
        var parts := [[s[0]] + rest[0]] + rest[1..];
        if |rest| == 1 {
          assert Join(parts, [sep]) == [s[0]] + rest[0];
        } else {
          assert parts[1..] == rest[1..];
          assert Join(rest, [sep]) == rest[0] + [sep] + Join(rest[1..], [sep]);
        }
        assert [s[0]] + s[1..] == s;
      }
    }
  }
}
