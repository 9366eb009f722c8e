/**
  The subtitle timestamp formatter `format_timestamp` of
  src/video_transcription/utils.py, over a non-negative whole number of
  milliseconds, together with decimal rendering and a parser that inverts it.
 */
module Timestamp {
  import opened Wrappers

  function Pow10(k: nat): (r: nat)
    ensures r >= 1
  {
    if k == 0 then 1 else 10 * Pow10(k - 1)
  }

  predicate IsDigit(c: char)
  {
    '0' <= c <= '9'
  }

  predicate AllDigits(s: string)
  {
    forall i :: 0 <= i < |s| ==> IsDigit(s[i])
  }

  function DigitChar(d: nat): (c: char)
    requires d < 10
    ensures IsDigit(c) && c as int - '0' as int == d
  {
    (d + '0' as int) as char
  }

  /** Python's `str(n)` / `f"{n}"` for a non-negative integer: no leading zeros. */
  function Digits(n: nat): (r: string)
    ensures r != [] && AllDigits(r)
    ensures r[0] == '0' ==> n == 0
    decreases n
  {
    if n < 10 then [DigitChar(n)] else Digits(n / 10) + [DigitChar(n % 10)]
  }

  /** The number a string of decimal digits denotes (leading zeros allowed). */
  function Value(s: string): nat
    requires AllDigits(s)
  {
    if s == [] then 0 else 10 * Value(s[..|s| - 1]) + (s[|s| - 1] as int - '0' as int)
  }

  /** Reading back the decimal rendering gives the number. */
  lemma {:induction false} ValueOfDigits(n: nat)
    ensures Value(Digits(n)) == n
    decreases n
  {
    if n >= 10 {
      ValueOfDigits(n / 10);
      var d := Digits(n);
      assert d[..|d| - 1] == Digits(n / 10);
    }
  }

  /** A rendering fits in w digits exactly when the number is below 10^w. */
  lemma {:induction false} DigitsLength(n: nat, w: nat)
    requires w >= 1
    ensures |Digits(n)| <= w <==> n < Pow10(w)
    decreases n
  {
    if n >= 10 {
      if w == 1 {
        assert |Digits(n / 10)| >= 1;
      } else {
        DigitsLength(n / 10, w - 1);
        assert n < Pow10(w) <==> n / 10 < Pow10(w - 1);
      }
    } else if w > 1 {
      assert Pow10(w) == 10 * Pow10(w - 1);
    }
  }

  function Zeros(k: nat): (r: string)
  {
    seq(k, _ => '0')
  }

  /** `f"{n:0{width}d}"`: pad with zeros on the left to at least `width`
      digits; a wider number is never truncated. */
  function ZeroPad(n: nat, width: nat): (r: string)
    ensures AllDigits(r)
    ensures |r| == if |Digits(n)| < width then width else |Digits(n)|
  {
    var d := Digits(n);
    (if |d| < width then Zeros(width - |d|) else []) + d
  }

  lemma {:induction false} ValueLeadingZeros(k: nat, s: string)
    requires AllDigits(s)
    ensures AllDigits(Zeros(k) + s) && Value(Zeros(k) + s) == Value(s)
    decreases |s|
  {
    var z := Zeros(k) + s;
    if s == [] {
      assert z == Zeros(k);
      ZerosValue(k);
    } else {
      assert z[..|z| - 1] == Zeros(k) + s[..|s| - 1];
      ValueLeadingZeros(k, s[..|s| - 1]);
    }
  }

  lemma {:induction false} ZerosValue(k: nat)
    ensures Value(Zeros(k)) == 0
  {
    if k > 0 {
      assert Zeros(k)[..k - 1] == Zeros(k - 1);
      ZerosValue(k - 1);
    }
  }

  /** Zero padding never changes the number a field denotes. */
  lemma ValueOfZeroPad(n: nat, width: nat)
    ensures Value(ZeroPad(n, width)) == n
  {
    var d := Digits(n);
    ValueOfDigits(n);
    if |d| < width {
      ValueLeadingZeros(width - |d|, d);
    } else {
      assert ZeroPad(n, width) == d;
    }
  }

  /** The four fields `format_timestamp` computes, in milliseconds. */
  function Hours(ms: nat): nat { ms / 3600000 }
  function Minutes(ms: nat): nat { (ms % 3600000) / 60000 }
  function Seconds(ms: nat): nat { (ms % 60000) / 1000 }
  function Millis(ms: nat): nat { ms % 1000 }

  /** The fields are in range and add back up to the input. */
  lemma FieldsDecompose(ms: nat)
    ensures Minutes(ms) < 60 && Seconds(ms) < 60 && Millis(ms) < 1000
    ensures Hours(ms) * 3600000 + Minutes(ms) * 60000
            + Seconds(ms) * 1000 + Millis(ms) == ms
  {
    var h, r1 := ms / 3600000, ms % 3600000;
    var m, r2 := r1 / 60000, r1 % 60000;
    var s, f := r2 / 1000, r2 % 1000;
    assert ms == (h * 60 + m) * 60000 + r2;
    DivModUnique(ms, h * 60 + m, r2, 60000);
    assert ms == ((h * 60 + m) * 60 + s) * 1000 + f;
    DivModUnique(ms, (h * 60 + m) * 60 + s, f, 1000);
  }

  /** `format_timestamp`: `HH:MM:SS,mmm`, hours at least two digits. */
  function Format(ms: nat): (r: string)
  {
    ZeroPad(Hours(ms), 2) + ":" + ZeroPad(Minutes(ms), 2) + ":"
      + ZeroPad(Seconds(ms), 2) + "," + ZeroPad(Millis(ms), 3)
  }

  /** How a string built from four fields and the three separators splits back. */
  lemma Assemble(h: string, m: string, s: string, f: string)
    requires |m| == 2 && |s| == 2 && |f| == 3
    ensures var r := h + ":" + m + ":" + s + "," + f; var n := |r|;
      n == |h| + 10 && r[n - 10] == ':' && r[n - 7] == ':' && r[n - 4] == ','
      && r[..n - 10] == h && r[n - 9..n - 7] == m && r[n - 6..n - 4] == s && r[n - 3..] == f
  {
    var r := h + ":" + m + ":" + s + "," + f;
    assert r == h + (":" + m + ":" + s + "," + f);
  }

  /** Where the fields of a formatted timestamp sit: the hours field is
      everything before the last ten characters, at least two digits wide,
      with no padding beyond two digits, and it denotes the full hour count;
      the minute, second and millisecond fields have fixed widths 2, 2 and 3
      and are in range; the separators are `:`, `:` and `,`, and no `.`
      appears. */
  lemma FormatLayout(ms: nat)
    ensures var r := Format(ms); var n := |r|;
      n >= 12 && r[n - 10] == ':' && r[n - 7] == ':' && r[n - 4] == ','
      && n - 10 == (if |Digits(Hours(ms))| < 2 then 2 else |Digits(Hours(ms))|)
      && AllDigits(r[..n - 10]) && Value(r[..n - 10]) == ms / 3600000
      && (n - 10 > 2 ==> r[0] != '0')
      && AllDigits(r[n - 9..n - 7]) && Value(r[n - 9..n - 7]) < 60
      && AllDigits(r[n - 6..n - 4]) && Value(r[n - 6..n - 4]) < 60
      && AllDigits(r[n - 3..])
      && Value(r[..n - 10]) * 3600000 + Value(r[n - 9..n - 7]) * 60000
         + Value(r[n - 6..n - 4]) * 1000 + Value(r[n - 3..]) == ms
      && '.' !in r
  {
    var h, m, s, f := ZeroPad(Hours(ms), 2), ZeroPad(Minutes(ms), 2),
                      ZeroPad(Seconds(ms), 2), ZeroPad(Millis(ms), 3);
    FieldsDecompose(ms);
    DigitsLength(Minutes(ms), 2);
    DigitsLength(Seconds(ms), 2);
    DigitsLength(Millis(ms), 3);
    ValueOfZeroPad(Hours(ms), 2);
    ValueOfZeroPad(Minutes(ms), 2);
    ValueOfZeroPad(Seconds(ms), 2);
    ValueOfZeroPad(Millis(ms), 3);
    Assemble(h, m, s, f);
    var r := Format(ms);
    if |h| > 2 {
      assert h == Digits(Hours(ms));
    }
    NoDot(h, m, s, f);
  }

  lemma NoDot(h: string, m: string, s: string, f: string)
    requires AllDigits(h) && AllDigits(m) && AllDigits(s) && AllDigits(f)
    ensures '.' !in h + ":" + m + ":" + s + "," + f
  {
    assert '.' !in h && '.' !in m && '.' !in s && '.' !in f;
  }

  /** Reads a timestamp in the canonical form `Format` produces: hours of two
      or more digits (no padding beyond two), `:`, two-digit minutes below 60,
      `:`, two-digit seconds below 60, `,`, three-digit milliseconds. */
  function Parse(s: string): (r: Option<nat>)
  {
    var n := |s|;
    if n < 12 || s[n - 10] != ':' || s[n - 7] != ':' || s[n - 4] != ',' then None
    else
      var h, m, sec, f := s[..n - 10], s[n - 9..n - 7], s[n - 6..n - 4], s[n - 3..];
      if !(AllDigits(h) && AllDigits(m) && AllDigits(sec) && AllDigits(f)) then None
      else if |h| > 2 && h[0] == '0' then None
      else if Value(m) >= 60 || Value(sec) >= 60 then None
      else Some(Value(h) * 3600000 + Value(m) * 60000 + Value(sec) * 1000 + Value(f))
  }

  /** Parsing a formatted timestamp gives back the millisecond count. */
  lemma ParseFormat(ms: nat)
    ensures Parse(Format(ms)) == Some(ms)
  {
    FormatLayout(ms);
    ParseFields(Format(ms), ms);
  }

  /** Parse accepts a string whose fields sit where `Format` puts them. */
  lemma ParseFields(r: string, ms: nat)
    requires var n := |r|;
      n >= 12 && r[n - 10] == ':' && r[n - 7] == ':' && r[n - 4] == ','
      && AllDigits(r[..n - 10]) && (n - 10 > 2 ==> r[0] != '0')
      && AllDigits(r[n - 9..n - 7]) && Value(r[n - 9..n - 7]) < 60
      && AllDigits(r[n - 6..n - 4]) && Value(r[n - 6..n - 4]) < 60
      && AllDigits(r[n - 3..])
      && Value(r[..n - 10]) * 3600000 + Value(r[n - 9..n - 7]) * 60000
         + Value(r[n - 6..n - 4]) * 1000 + Value(r[n - 3..]) == ms
    ensures Parse(r) == Some(ms)
  {
    var n := |r|;
    assert r[..n - 10][0] == r[0];
  }

  /** Every string `Parse` accepts is the formatting of what it reads, so the
      format is a bijection between millisecond counts and canonical strings. */
  lemma FormatParse(s: string, ms: nat)
    requires Parse(s) == Some(ms)
    ensures Format(ms) == s
  {
    var n := |s|;
    var h, m, sec, f := s[..n - 10], s[n - 9..n - 7], s[n - 6..n - 4], s[n - 3..];
    assert n >= 12 && s[n - 10] == ':' && s[n - 7] == ':' && s[n - 4] == ',';
    assert AllDigits(h) && AllDigits(m) && AllDigits(sec) && AllDigits(f);
    assert Value(m) < 60 && Value(sec) < 60 && (|h| > 2 ==> h[0] != '0');
    assert ms == Value(h) * 3600000 + Value(m) * 60000 + Value(sec) * 1000 + Value(f);
    FormatOfFields(ms, h, m, sec, f);
    Disassemble(s);
  }

  lemma FormatOfFields(ms: nat, h: string, m: string, sec: string, f: string)
    requires AllDigits(h) && AllDigits(m) && AllDigits(sec) && AllDigits(f)
    requires |h| >= 2 && |m| == 2 && |sec| == 2 && |f| == 3
    requires Value(m) < 60 && Value(sec) < 60 && (|h| > 2 ==> h[0] != '0')
    requires ms == Value(h) * 3600000 + Value(m) * 60000 + Value(sec) * 1000 + Value(f)
    ensures Format(ms) == h + ":" + m + ":" + sec + "," + f
  {
    assert Value(f) < 1000 by {
      ValueBound(f);
      assert Pow10(3) == 1000;
    }
    FieldsOfSum(ms, Value(h), Value(m), Value(sec), Value(f));
    FormatOfParts(ms, h, m, sec, f);
  }

  lemma FormatOfParts(ms: nat, h: string, m: string, sec: string, f: string)
    requires AllDigits(h) && AllDigits(m) && AllDigits(sec) && AllDigits(f)
    requires |h| >= 2 && |m| == 2 && |sec| == 2 && |f| == 3 && (|h| > 2 ==> h[0] != '0')
    requires Hours(ms) == Value(h) && Minutes(ms) == Value(m)
    requires Seconds(ms) == Value(sec) && Millis(ms) == Value(f)
    ensures Format(ms) == h + ":" + m + ":" + sec + "," + f
  {
    assert ZeroPad(Value(h), 2) == h by {
      if |h| == 2 {
        PadOfValue(h);
      } else {
        DigitsOfValue(h);
      }
    }
    PadOfValue(m);
    PadOfValue(sec);
    PadOfValue(f);
  }

  lemma Disassemble(s: string)
    requires |s| >= 12
    requires s[|s| - 10] == ':' && s[|s| - 7] == ':' && s[|s| - 4] == ','
    ensures var n := |s|;
      s == s[..n - 10] + ":" + s[n - 9..n - 7] + ":" + s[n - 6..n - 4] + "," + s[n - 3..]
  {
    var n := |s|;
    assert s == s[..n - 10] + [s[n - 10]] + s[n - 9..n - 7] + [s[n - 7]]
               + s[n - 6..n - 4] + [s[n - 4]] + s[n - 3..];
  }

  lemma FieldsOfSum(ms: nat, h: nat, m: nat, s: nat, f: nat)
    requires m < 60 && s < 60 && f < 1000
    requires ms == h * 3600000 + m * 60000 + s * 1000 + f
    ensures Hours(ms) == h && Minutes(ms) == m && Seconds(ms) == s && Millis(ms) == f
  {
    var inHour := m * 60000 + s * 1000 + f;
    var inMinute := s * 1000 + f;
    DivModUnique(ms, h, inHour, 3600000);
    DivModUnique(inHour, m, inMinute, 60000);
    DivModUnique(inMinute, s, f, 1000);
    assert ms % 60000 == inMinute by {
      DivModUnique(ms, h * 60 + m, inMinute, 60000);
    }
    assert ms % 1000 == f by {
      DivModUnique(ms, h * 3600 + m * 60 + s, f, 1000);
    }
  }

  /** Euclidean division is determined by quotient and remainder. */
  lemma DivModUnique(x: nat, q: nat, r: nat, d: nat)
    requires 0 < d && r < d && x == q * d + r
    ensures x / d == q && x % d == r
  {
    var q', r' := x / d, x % d;
    assert x == q' * d + r';
    if q' < q {
      MulGap(q', q, d);
    } else if q' > q {
      MulGap(q, q', d);
    }
  }

  lemma MulGap(a: nat, b: nat, d: nat)
    requires a < b
    ensures a * d + d <= b * d
  {
    var k := b - a;
    assert b * d == a * d + k * d;
    assert k * d == (k - 1) * d + d;
  }

  lemma {:induction false} ValueBound(s: string)
    requires AllDigits(s)
    ensures Value(s) < Pow10(|s|)
    decreases |s|
  {
    if s != [] {
      ValueBound(s[..|s| - 1]);
    }
  }

  lemma {:induction false} ValuePositive(s: string)
    requires AllDigits(s) && s != [] && s[0] != '0'
    ensures Value(s) >= 1
    decreases |s|
  {
    if |s| > 1 {
      ValuePositive(s[..|s| - 1]);
    }
  }

  /** A digit string without a leading zero is the rendering of its value. */
  lemma {:induction false} DigitsOfValue(s: string)
    requires AllDigits(s) && s != [] && (|s| == 1 || s[0] != '0')
    ensures Digits(Value(s)) == s
    decreases |s|
  {
    var v := Value(s);
    var p := s[..|s| - 1];
    if |s| == 1 {
      assert p == [] && Value(p) == 0 && IsDigit(s[0]);
      assert v < 10;
      assert Digits(v) == [DigitChar(v)];
    } else {
      DigitsOfValue(p);
      ValuePositive(p);
      assert v / 10 == Value(p) && v % 10 == s[|s| - 1] as int - '0' as int;
      assert s == p + [s[|s| - 1]];
    }
  }

  /** A digit string of length w is the w-wide zero padding of its value. */
  lemma {:induction false} PadOfValue(s: string)
    requires AllDigits(s) && s != []
    ensures ZeroPad(Value(s), |s|) == s
    decreases |s|
  {
    var v := Value(s);
    if |s| == 1 || s[0] != '0' {
      DigitsOfValue(s);
    } else {
      var t := s[1..];
      PadOfValue(t);
      LeadingZeroValue(t);
      assert s == [s[0]] + t;
      PadOneMore(v, t);
    }
  }

  /** Widening the padding by one puts one more zero in front. */
  lemma PadOneMore(v: nat, t: string)
    requires ZeroPad(v, |t|) == t
    ensures ZeroPad(v, |t| + 1) == ['0'] + t
  {
    var d := Digits(v);
    assert |d| <= |t|;
    assert Zeros(|t| + 1 - |d|) == ['0'] + Zeros(|t| - |d|);
  }

  lemma LeadingZeroValue(t: string)
    requires AllDigits(t)
    ensures AllDigits(['0'] + t) && Value(['0'] + t) == Value(t)
  {
    ValueLeadingZeros(1, t);
    assert Zeros(1) == ['0'];
  }

  /** `format_timestamp(0)`. */
  lemma FormatZero()
    ensures Format(0) == "00:00:00,000"
  {
    assert Hours(0) == 0 && Minutes(0) == 0 && Seconds(0) == 0 && Millis(0) == 0;
    PadZero();
  }

  /** `format_timestamp(3661.5)`: one hour, one minute, one and a half seconds. */
  lemma FormatOneHourOneMinute()
    ensures Format(3661500) == "01:01:01,500"
  {
    assert Hours(3661500) == 1 && Minutes(3661500) == 1;
    assert Seconds(3661500) == 1 && Millis(3661500) == 500;
    PadOne();
    PadFiveHundred();
  }

  /** Hours are not truncated at 99: 100 hours renders as three digits. */
  lemma FormatWideHours()
    ensures Format(360000000) == "100:00:00,000"
  {
    assert Hours(360000000) == 100 && Minutes(360000000) == 0;
    assert Seconds(360000000) == 0 && Millis(360000000) == 0;
    PadHundred();
    PadZero();
  }

  lemma PadZero()
    ensures ZeroPad(0, 2) == "00" && ZeroPad(0, 3) == "000"
  {
    assert Digits(0) == "0";
  }

  lemma PadOne()
    ensures ZeroPad(1, 2) == "01"
  {
    assert Digits(1) == "1";
  }

  lemma PadFiveHundred()
    ensures ZeroPad(500, 3) == "500"
  {
    assert Digits(5) == "5";
    assert Digits(50) == "50";
    assert Digits(500) == "500";
  }

  lemma PadHundred()
    ensures ZeroPad(100, 2) == "100"
  {
    assert Digits(1) == "1" && Digits(10) == "10";
    assert Digits(100) == "100";
  }
}
