/** Timestamp strings and integer milliseconds.

    `convert_timestamp_to_ms` (src/ytsum/utils.py, duplicated verbatim in
    src/ytsum/alignment.py) reads "HH:MM:SS.mmm", "HH:MM:SS:mmm" or
    "HH_MM_SS_mmm" by turning every '.' and '_' into ':' and splitting into
    four integer fields; `_format_time` (src/ytsum/scene_detection/ssim.py)
    writes milliseconds back as zero-padded "HH:MM:SS.mmm".
 */
module Timestamps {
  import opened Wrappers
  import opened Text

  predicate IsSeparator(c: char) {
    c == '.' || c == ':' || c == '_'
  }

  /** Number of characters that become field separators. */
  function Separators(s: string): nat {
    if |s| == 0 then 0 else (if IsSeparator(s[0]) then 1 else 0) + Separators(s[1..])
  }

  /** `timestamp.replace(".", ":").replace("_", ":")` */
  function Normalize(s: string): (r: string)
    ensures |r| == |s|
  {
    if |s| == 0 then ""
    else [if s[0] == '.' || s[0] == '_' then ':' else s[0]] + Normalize(s[1..])
  }

  function IntField(field: string): Result<int> {
    match ParseInt(field)
    case Some(v) => Ok(v)
    case None => Err(InvalidLiteral(field))
  }

  /** `convert_timestamp_to_ms`: the four fields h, m, s, ms (each read by
      `int()`, in that order) combine to h·3600000 + m·60000 + s·1000 + ms;
      a split into any other number of fields fails the unpacking. */
  function ConvertTimestampToMs(timestamp: string): Result<int> {
    var parts := Split(Normalize(timestamp), ':');
    if |parts| != 4 then Err(UnpackMismatch(4, |parts|))
    else CombineFields(IntField(parts[0]), IntField(parts[1]), IntField(parts[2]), IntField(parts[3]))
  }

  /** h·3600000 + m·60000 + s·1000 + ms, failing with the first field that
      failed to read. */
  function CombineFields(h: Result<int>, m: Result<int>, s: Result<int>, ms: Result<int>): Result<int> {
    var h :- h;
    var m :- m;
    var s :- s;
    var ms :- ms;
    Ok(Milliseconds(h, m, s, ms))
  }

  function Milliseconds(h: int, m: int, s: int, ms: int): int {
    h * 3600000 + m * 60000 + s * 1000 + ms
  }

  lemma {:induction false} NormalizeCount(s: string)
    ensures Count(Normalize(s), ':') == Separators(s)
  {
    if |s| > 0 {
      NormalizeCount(s[1..]);
      assert Normalize(s)[1..] == Normalize(s[1..]);
    }
  }

  /** Conversion succeeds only when the timestamp has exactly three
      separator characters, i.e. splits into exactly four fields. */
  lemma FourFieldsNeeded(timestamp: string)
    ensures ConvertTimestampToMs(timestamp).Ok? ==> Separators(timestamp) == 3
    ensures Separators(timestamp) != 3 ==>
              ConvertTimestampToMs(timestamp) == Err(UnpackMismatch(4, Separators(timestamp) + 1))
  {
    SplitJoin(Normalize(timestamp), ':');
    NormalizeCount(timestamp);
  }

  lemma {:induction false} NormalizeConcat(a: string, b: string)
    ensures Normalize(a + b) == Normalize(a) + Normalize(b)
  {
    if |a| > 0 {
      assert (a + b)[1..] == a[1..] + b;
      NormalizeConcat(a[1..], b);
    } else {
      assert a + b == b;
    }
  }

  /** A field with no separator character in it. */
  predicate Plain(f: string) {
    forall i :: 0 <= i < |f| ==> !IsSeparator(f[i])
  }

  lemma {:induction false} NormalizePlain(a: string)
    requires Plain(a)
    ensures Normalize(a) == a
  {
    if |a| > 0 {
      NormalizePlain(a[1..]);
      assert [a[0]] + a[1..] == a;
    }
  }

  lemma NormalizeSeparator(c: char)
    requires IsSeparator(c)
    ensures Normalize([c]) == ":"
  {
    assert [c][1..] == [];
  }

  /** Four fields joined by three separator characters. */
  function Fields(h: string, m: string, s: string, ms: string, c1: char, c2: char, c3: char): string {
    h + ([c1] + (m + ([c2] + (s + ([c3] + ms)))))
  }

  lemma NormalizeFields(h: string, m: string, s: string, ms: string, c1: char, c2: char, c3: char)
    requires Plain(h) && Plain(m) && Plain(s) && Plain(ms)
    requires IsSeparator(c1) && IsSeparator(c2) && IsSeparator(c3)
    ensures Normalize(Fields(h, m, s, ms, c1, c2, c3)) == Fields(h, m, s, ms, ':', ':', ':')
  {
    NormalizeConcat(s, [c3] + ms);
    NormalizeConcat([c3], ms);
    NormalizeConcat(m, [c2] + (s + ([c3] + ms)));
    NormalizeConcat([c2], s + ([c3] + ms));
    NormalizeConcat(h, [c1] + (m + ([c2] + (s + ([c3] + ms)))));
    NormalizeConcat([c1], m + ([c2] + (s + ([c3] + ms))));
    NormalizePlain(h);
    NormalizePlain(m);
    NormalizePlain(s);
    NormalizePlain(ms);
    NormalizeSeparator(c1);
    NormalizeSeparator(c2);
    NormalizeSeparator(c3);
  }

  /** Four fields without `sep`, joined by `sep`, split back into the four
      fields. */
  lemma SplitFields(h: string, m: string, s: string, ms: string, sep: char)
    requires sep !in h && sep !in m && sep !in s && sep !in ms
    ensures Split(Fields(h, m, s, ms, sep, sep, sep), sep) == [h, m, s, ms]
  {
    SplitCons2(s, sep, ms);
    SplitNone(ms, sep);
    SplitCons2(m, sep, s + ([sep] + ms));
    SplitCons2(h, sep, m + ([sep] + (s + ([sep] + ms))));
  }

  lemma ConvertSplit(ts: string, h: string, m: string, s: string, ms: string)
    requires Split(Normalize(ts), ':') == [h, m, s, ms]
    ensures ConvertTimestampToMs(ts) == CombineFields(IntField(h), IntField(m), IntField(s), IntField(ms))
  {
  }

  lemma CombineOk(a: int, b: int, c: int, d: int)
    ensures CombineFields(Ok(a), Ok(b), Ok(c), Ok(d)) == Ok(Milliseconds(a, b, c, d))
  {
  }

  /** Four fields free of separators, joined by any separators mixed
      freely, convert to h·3600000 + m·60000 + s·1000 + ms of the values
      `int()` reads from them. */
  lemma ConvertFields(h: string, m: string, s: string, ms: string, c1: char, c2: char, c3: char,
                      a: int, b: int, c: int, d: int)
    requires Plain(h) && Plain(m) && Plain(s) && Plain(ms)
    requires IsSeparator(c1) && IsSeparator(c2) && IsSeparator(c3)
    requires ParseInt(h) == Some(a) && ParseInt(m) == Some(b) && ParseInt(s) == Some(c) && ParseInt(ms) == Some(d)
    ensures ConvertTimestampToMs(Fields(h, m, s, ms, c1, c2, c3)) == Ok(Milliseconds(a, b, c, d))
  {
    var ts := Fields(h, m, s, ms, c1, c2, c3);
    NormalizeFields(h, m, s, ms, c1, c2, c3);
    SplitFields(h, m, s, ms, ':');
    ConvertSplit(ts, h, m, s, ms);
    CombineOk(a, b, c, d);
  }

  /** "h:m:s.ms" */
  function Clock(h: string, m: string, s: string, ms: string): string {
    Fields(h, m, s, ms, ':', ':', '.')
  }

  predicate DigitField(f: string) {
    |f| > 0 && AllDigits(f)
  }

  lemma DigitFieldValue(f: string) returns (v: nat)
    requires DigitField(f)
    ensures Plain(f) && ParseInt(f) == Some(v) && v == DigitsValue(f)
  {
    ParseDigits(f);
    v := DigitsValue(f);
  }

  /** Four digit-only fields, whatever the separators, always convert, and
      to a non-negative number of milliseconds. */
  lemma DigitFieldsConvert(h: string, m: string, s: string, ms: string, c1: char, c2: char, c3: char)
    requires DigitField(h) && DigitField(m) && DigitField(s) && DigitField(ms)
    requires IsSeparator(c1) && IsSeparator(c2) && IsSeparator(c3)
    ensures ConvertTimestampToMs(Fields(h, m, s, ms, c1, c2, c3)).Ok?
    ensures ConvertTimestampToMs(Fields(h, m, s, ms, c1, c2, c3)).value >= 0
  {
    var a := DigitFieldValue(h);
    var b := DigitFieldValue(m);
    var c := DigitFieldValue(s);
    var d := DigitFieldValue(ms);
    ConvertFields(h, m, s, ms, c1, c2, c3, a, b, c, d);
  }

  /** For digit-only fields the result never goes down when every field
      grows or stays, and goes strictly up when some field grows. */
  lemma FieldsMonotonic(h: string, m: string, s: string, ms: string,
                        h2: string, m2: string, s2: string, ms2: string, c1: char, c2: char, c3: char)
    requires DigitField(h) && DigitField(m) && DigitField(s) && DigitField(ms)
    requires DigitField(h2) && DigitField(m2) && DigitField(s2) && DigitField(ms2)
    requires IsSeparator(c1) && IsSeparator(c2) && IsSeparator(c3)
    requires DigitsValue(h) <= DigitsValue(h2) && DigitsValue(m) <= DigitsValue(m2)
    requires DigitsValue(s) <= DigitsValue(s2) && DigitsValue(ms) <= DigitsValue(ms2)
    ensures ConvertTimestampToMs(Fields(h, m, s, ms, c1, c2, c3)).Ok?
    ensures ConvertTimestampToMs(Fields(h2, m2, s2, ms2, c1, c2, c3)).Ok?
    ensures ConvertTimestampToMs(Fields(h, m, s, ms, c1, c2, c3)).value
              <= ConvertTimestampToMs(Fields(h2, m2, s2, ms2, c1, c2, c3)).value
    ensures DigitsValue(h) < DigitsValue(h2) || DigitsValue(m) < DigitsValue(m2)
            || DigitsValue(s) < DigitsValue(s2) || DigitsValue(ms) < DigitsValue(ms2)
            ==> ConvertTimestampToMs(Fields(h, m, s, ms, c1, c2, c3)).value
                < ConvertTimestampToMs(Fields(h2, m2, s2, ms2, c1, c2, c3)).value
  {
    var a := DigitFieldValue(h);
    var b := DigitFieldValue(m);
    var c := DigitFieldValue(s);
    var d := DigitFieldValue(ms);
    var a2 := DigitFieldValue(h2);
    var b2 := DigitFieldValue(m2);
    var c2' := DigitFieldValue(s2);
    var d2 := DigitFieldValue(ms2);
    ConvertFields(h, m, s, ms, c1, c2, c3, a, b, c, d);
    ConvertFields(h2, m2, s2, ms2, c1, c2, c3, a2, b2, c2', d2);
  }

  /** The three documented spellings of one instant agree, and so does a
      spelling that mixes the separators. */
  lemma DocumentedFormats(ts: string)
    requires ts == "01:02:03.456" || ts == "01:02:03:456" || ts == "01_02_03_456" || ts == "01.02_03:456"
    ensures ConvertTimestampToMs(ts) == Ok(3723456)
  {
    SamplePads();
    var c1, c2, c3 := ts[2], ts[5], ts[8];
    assert ts == Fields(ZeroPad(1, 2), ZeroPad(2, 2), ZeroPad(3, 2), ZeroPad(456, 3), c1, c2, c3);
    PaddedFields(1, 2, 3, 456, c1, c2, c3);
  }

  lemma SamplePads()
    ensures ZeroPad(1, 2) == "01" && ZeroPad(2, 2) == "02" && ZeroPad(3, 2) == "03" && ZeroPad(456, 3) == "456"
  {
    assert Decimal(456) == "456" by {
      assert Decimal(45) == "45";
    }
  }

  // ---------------------------------------------------------------- formatting

  /** The shape the caption pattern captures: "DD:DD:DD.DDD". */
  predicate IsStamp(s: string) {
    && |s| == 12
    && IsDigit(s[0]) && IsDigit(s[1]) && s[2] == ':'
    && IsDigit(s[3]) && IsDigit(s[4]) && s[5] == ':'
    && IsDigit(s[6]) && IsDigit(s[7]) && s[8] == '.'
    && IsDigit(s[9]) && IsDigit(s[10]) && IsDigit(s[11])
  }

  /** `_format_time` on whole milliseconds: hours, minutes and seconds padded
      to two digits and milliseconds to three. Hours are not wrapped, so
      100 hours or more take more than two digits. */
  function FormatTime(t: nat): string {
    var totalSeconds := t / 1000;
    var millis := t % 1000;
    var hours := totalSeconds / 3600;
    var rem := totalSeconds % 3600;
    Clock(ZeroPad(hours, 2), ZeroPad(rem / 60, 2), ZeroPad(rem % 60, 2), ZeroPad(millis, 3))
  }

  lemma ClockArithmetic(t: nat)
    ensures Milliseconds(t / 1000 / 3600, t / 1000 % 3600 / 60, t / 1000 % 3600 % 60, t % 1000) == t
  {
    var total := t / 1000;
    var rem := total % 3600;
    assert t == total * 1000 + t % 1000;
    assert total == (total / 3600) * 3600 + rem;
    assert rem == (rem / 60) * 60 + rem % 60;
    calc {
      (total / 3600) * 3600000 + (rem / 60) * 60000 + (rem % 60) * 1000 + t % 1000;
      ((total / 3600) * 3600 + (rem / 60) * 60 + rem % 60) * 1000 + t % 1000;
      total * 1000 + t % 1000;
    }
  }

  /** Formatting and then converting gives back the same milliseconds. */
  lemma FormatTimeRoundTrip(t: nat)
    ensures ConvertTimestampToMs(FormatTime(t)) == Ok(t)
  {
    var total := t / 1000;
    var rem := total % 3600;
    ClockArithmetic(t);
    PaddedFields(total / 3600, rem / 60, rem % 60, t % 1000, ':', ':', '.');
  }

  /** Zero-padded numbers joined by any separators read back as the
      numbers. */
  lemma PaddedFields(a: nat, b: nat, c: nat, d: nat, c1: char, c2: char, c3: char)
    requires IsSeparator(c1) && IsSeparator(c2) && IsSeparator(c3)
    ensures ConvertTimestampToMs(Fields(ZeroPad(a, 2), ZeroPad(b, 2), ZeroPad(c, 2), ZeroPad(d, 3), c1, c2, c3))
         == Ok(Milliseconds(a, b, c, d))
  {
    ZeroPadParses(a, 2);
    ZeroPadParses(b, 2);
    ZeroPadParses(c, 2);
    ZeroPadParses(d, 3);
    ZeroPadPlain(a, 2);
    ZeroPadPlain(b, 2);
    ZeroPadPlain(c, 2);
    ZeroPadPlain(d, 3);
    ConvertFields(ZeroPad(a, 2), ZeroPad(b, 2), ZeroPad(c, 2), ZeroPad(d, 3), c1, c2, c3, a, b, c, d);
  }

  lemma ZeroPadPlain(n: nat, width: nat)
    ensures Plain(ZeroPad(n, width))
  {
  }

  lemma {:induction false} DecimalLength(n: nat, k: nat)
    requires n < Pow10(k) && k > 0
    ensures |Decimal(n)| <= k
  {
    if n >= 10 {
      DecimalLength(n / 10, k - 1);
    }
  }

  function Pow10(k: nat): nat {
    if k == 0 then 1 else 10 * Pow10(k - 1)
  }

  lemma PadWidth(n: nat, width: nat)
    requires width > 0 && n < Pow10(width)
    ensures |ZeroPad(n, width)| == width
  {
    DecimalLength(n, width);
  }

  /** Below 100 hours the formatted time has exactly the "DD:DD:DD.DDD"
      shape the caption pattern accepts. */
  lemma FormatTimeIsStamp(t: nat)
    requires t < 100 * 3600000
    ensures IsStamp(FormatTime(t))
  {
    var total := t / 1000;
    var rem := total % 3600;
    assert Pow10(2) == 100 && Pow10(3) == 1000;
    PadWidth(total / 3600, 2);
    PadWidth(rem / 60, 2);
    PadWidth(rem % 60, 2);
    PadWidth(t % 1000, 3);
  }
}
