/**
 The duration formatter: a number of seconds shown as `HH:MM:SS`.  Hours,
 minutes within the hour and seconds within the minute are each rendered in
 decimal, left-padded with '0' to two characters, and joined with ':'.
 Durations are non-negative integers here.
 */
module DurationFormat {
  import opened Strings
  import opened Wrappers

  /** `Math.floor(duration / 3600)`: the number of whole hours. */
  function Hours(duration: nat): (h: nat)
    ensures h * 3600 <= duration < h * 3600 + 3600
  {
    duration / 3600
  }

  /** `Math.floor((duration % 3600) / 60)`: the whole minutes within the last hour. */
  function Minutes(duration: nat): (m: nat)
    ensures m < 60
    ensures m * 60 <= duration % 3600 < m * 60 + 60
  {
    (duration % 3600) / 60
  }

  /** `duration % 60`: the seconds left over after whole minutes. */
  function Seconds(duration: nat): (s: nat)
    ensures s < 60 && s <= duration
    ensures (duration - s) % 60 == 0
  {
    duration % 60
  }

  /** The three units put back together give the duration, and minutes and seconds are below 60. */
  lemma DurationDecomposition(duration: nat)
    ensures TotalSeconds(Hours(duration), Minutes(duration), Seconds(duration)) == duration
    ensures Minutes(duration) < 60 && Seconds(duration) < 60
  {
    var q, r := duration / 3600, duration % 3600;
    var m, sec := r / 60, r % 60;
    assert duration == (q * 60 + m) * 60 + sec;
    DivMod60(duration, q * 60 + m, sec);
  }

  /** Division by 60 of `k * 60 + rest`, for a remainder below 60. */
  lemma DivMod60(n: nat, k: nat, rest: nat)
    requires rest < 60 && n == k * 60 + rest
    ensures n / 60 == k && n % 60 == rest
  {
  }

  /** Division by 3600 of `k * 3600 + rest`, for a remainder below 3600. */
  lemma DivMod3600(n: nat, k: nat, rest: nat)
    requires rest < 3600 && n == k * 3600 + rest
    ensures n / 3600 == k && n % 3600 == rest
  {
  }

  /** Conversely, any split with minutes and seconds below 60 is the one the formatter computes. */
  lemma DecompositionUnique(duration: nat, h: nat, m: nat, s: nat)
    requires m < 60 && s < 60
    requires TotalSeconds(h, m, s) == duration
    ensures h == Hours(duration) && m == Minutes(duration) && s == Seconds(duration)
  {
    DivMod3600(duration, h, m * 60 + s);
    DivMod60(m * 60 + s, m, s);
    DivMod60(duration, h * 60 + m, s);
  }

  /** One unit as shown: `String(unit).padStart(2, '0')`, never shorter than two characters. */
  function Field(unit: nat): (f: string)
    ensures |f| >= 2
  {
    PadStart(ToDecimal(unit), 2, '0')
  }

  /** `units.map(unit => String(unit).padStart(2, '0'))`: one field per unit, in order. */
  function FieldsOf(units: seq<nat>): (fields: seq<string>)
    ensures |fields| == |units|
    ensures forall i | 0 <= i < |units| :: fields[i] == Field(units[i])
  {
    seq(|units|, i requires 0 <= i < |units| => Field(units[i]))
  }

  /** Mapping a three-element array gives the three fields in order. */
  lemma FieldsOfThree(a: nat, b: nat, c: nat)
    ensures FieldsOf([a, b, c]) == [Field(a), Field(b), Field(c)]
  {
    var f := FieldsOf([a, b, c]);
    assert f[0] == Field(a) && f[1] == Field(b) && f[2] == Field(c);
  }

  /** Three fields joined with ':', the last two of two characters each, end in `:MM:SS`. */
  lemma JoinedClockShape(h: string, m: string, s: string)
    requires |h| >= 2 && |m| == 2 && |s| == 2
    ensures var r := Join([h, m, s], ":");
      |r| >= 8 && r[|r| - 6] == ':' && r[|r| - 3] == ':'
  {
    JoinThree(h, m, s, ":");
    var r := h + ":" + m + ":" + s;
    assert r == h + [':', m[0], m[1], ':', s[0], s[1]];
  }

  /** Two-digit fields joined with ':' make the eight characters `HH:MM:SS`. */
  lemma EightCharacterClock(h: string, m: string, s: string)
    requires |h| == 2 && |m| == 2 && |s| == 2
    requires IsDecimal(h) && IsDecimal(m) && IsDecimal(s)
    ensures var t := h + ":" + m + ":" + s;
      |t| == 8 && t[2] == ':' && t[5] == ':' &&
      forall i | 0 <= i < 8 && i != 2 && i != 5 :: IsDigit(t[i])
  {
    var t := h + ":" + m + ":" + s;
    assert t == [h[0], h[1], ':', m[0], m[1], ':', s[0], s[1]];
  }

  /**
   The formatter itself: map each unit to its field, then join with ':'.
   The result is at least `HH:MM:SS` long, and ends with the two-digit
   minutes and seconds fields, each after a ':'.
   */
  function ConvertDurationToTimeString(duration: nat): (r: string)
    ensures |r| >= 8
    ensures r[|r| - 6] == ':' && r[|r| - 3] == ':'
  {
    var units := [Hours(duration), Minutes(duration), Seconds(duration)];
    ClockShape(units[0], units[1], units[2]);
    Join(FieldsOf(units), ":")
  }

  /** The fields of three units, the last two below 100, joined with ':' end in `:MM:SS`. */
  lemma ClockShape(h: nat, m: nat, s: nat)
    requires m < 100 && s < 100
    ensures var r := Join(FieldsOf([h, m, s]), ":");
      |r| >= 8 && r[|r| - 6] == ':' && r[|r| - 3] == ':'
  {
    FieldsOfThree(h, m, s);
    FieldLength(h);
    FieldLength(m);
    FieldLength(s);
    JoinedClockShape(Field(h), Field(m), Field(s));
  }

  /**
   A field is a numeral of its unit, at least two characters long; below 100
   it is exactly two digits, and from 100 on it is the full numeral, uncut.
   */
  lemma FieldShape(unit: nat)
    ensures IsNumeral(Field(unit)) && DecimalValue(Field(unit)) == unit
    ensures |Field(unit)| >= 2
    ensures unit < 100 ==> |Field(unit)| == 2
    ensures unit >= 100 ==> Field(unit) == ToDecimal(unit) && |Field(unit)| >= 3
  {
    ZeroPaddedValue(ToDecimal(unit), 2);
    DecimalRoundTrip(unit);
    DecimalLength(unit);
  }

  /**
   The length and digits of a field: a narrowed copy of `FieldShape`, kept so
   that callers carry a smaller proof context.
   */
  lemma FieldLength(unit: nat)
    ensures IsDecimal(Field(unit))
    ensures unit < 100 ==> |Field(unit)| == 2
    ensures unit >= 100 ==> |Field(unit)| >= 3
  {
    FieldShape(unit);
  }

  /**
   A field reads back as its unit: a narrowed copy of `FieldShape`, kept so
   that callers carry a smaller proof context.
   */
  lemma FieldValue(unit: nat)
    ensures IsNumeral(Field(unit)) && DecimalValue(Field(unit)) == unit
  {
    FieldShape(unit);
  }

  /** The output is the hours, minutes and seconds fields, in that order, separated by two ':'. */
  lemma TimeStringLayout(duration: nat)
    ensures ConvertDurationToTimeString(duration)
         == Field(Hours(duration)) + ":" + Field(Minutes(duration)) + ":" + Field(Seconds(duration))
  {
    FieldsOfThree(Hours(duration), Minutes(duration), Seconds(duration));
    JoinThree(Field(Hours(duration)), Field(Minutes(duration)), Field(Seconds(duration)), ":");
  }

  /** Splitting the output at ':' gives exactly the three fields back. */
  lemma TimeStringFields(duration: nat)
    ensures Split(ConvertDurationToTimeString(duration), ':')
         == [Field(Hours(duration)), Field(Minutes(duration)), Field(Seconds(duration))]
  {
    var units := [Hours(duration), Minutes(duration), Seconds(duration)];
    var fields := [Field(units[0]), Field(units[1]), Field(units[2])];
    FieldsOfThree(units[0], units[1], units[2]);
    forall i | 0 <= i < 3 ensures ':' !in fields[i] {
      FieldLength(units[i]);
      DecimalExcludes(fields[i], ':');
    }
    SplitJoin(fields, ':');
  }

  /**
   Below 100 hours (360000 seconds) the output is exactly `HH:MM:SS`: eight
   characters, ':' at positions 2 and 5, digits elsewhere.  From 100 hours on
   it is longer, because the hours field keeps all its digits.
   */
  lemma ShortDurationShape(duration: nat)
    ensures var t := ConvertDurationToTimeString(duration);
      (|t| == 8) == (duration < 360000)
    ensures var t := ConvertDurationToTimeString(duration);
      duration < 360000 ==>
        t[2] == ':' && t[5] == ':' &&
        forall i | 0 <= i < 8 && i != 2 && i != 5 :: IsDigit(t[i])
  {
    TimeStringLayout(duration);
    FieldLength(Hours(duration));
    FieldLength(Minutes(duration));
    FieldLength(Seconds(duration));
    if duration < 360000 {
      assert Hours(duration) < 100;
      EightCharacterClock(Field(Hours(duration)), Field(Minutes(duration)), Field(Seconds(duration)));
    } else {
      assert Hours(duration) >= 100;
    }
  }

  /**
   Reading a time string back: exactly three ':'-separated numerals, combined
   as hours, minutes and seconds.
   */
  function ParseTimeString(t: string): Option<nat> {
    ParseFieldList(Split(t, ':'))
  }

  /** Hours, minutes and seconds counted back into seconds. */
  function TotalSeconds(h: nat, m: nat, s: nat): nat {
    h * 3600 + m * 60 + s
  }

  /** Exactly three numerals, read as hours, minutes and seconds. */
  function ParseFieldList(f: seq<string>): Option<nat> {
    if |f| == 3 && IsNumeral(f[0]) && IsNumeral(f[1]) && IsNumeral(f[2]) then
      Some(TotalSeconds(DecimalValue(f[0]), DecimalValue(f[1]), DecimalValue(f[2])))
    else
      None
  }

  /** Parsing the formatter's output gives back the duration it formatted. */
  lemma TimeStringRoundTrip(duration: nat)
    ensures ParseTimeString(ConvertDurationToTimeString(duration)) == Some(duration)
  {
    ParseOutput(duration);
    DurationDecomposition(duration);
  }

  /** Parsing the output reads each field back as its unit. */
  lemma ParseOutput(duration: nat)
    ensures ParseTimeString(ConvertDurationToTimeString(duration))
         == Some(TotalSeconds(Hours(duration), Minutes(duration), Seconds(duration)))
  {
    var h, m, s := Hours(duration), Minutes(duration), Seconds(duration);
    TimeStringFields(duration);
    FieldValue(h);
    FieldValue(m);
    FieldValue(s);
    ParseFields(ConvertDurationToTimeString(duration), Field(h), Field(m), Field(s), h, m, s);
  }

  /** A string that splits into three numerals of the given values parses as their combination. */
  lemma ParseFields(t: string, a: string, b: string, c: string, h: nat, m: nat, s: nat)
    requires Split(t, ':') == [a, b, c]
    requires IsNumeral(a) && IsNumeral(b) && IsNumeral(c)
    requires DecimalValue(a) == h && DecimalValue(b) == m && DecimalValue(c) == s
    ensures ParseTimeString(t) == Some(TotalSeconds(h, m, s))
  {
    var f := Split(t, ':');
    assert f[0] == a && f[1] == b && f[2] == c;
    assert ParseTimeString(t) == ParseFieldList(f);
  }
}
