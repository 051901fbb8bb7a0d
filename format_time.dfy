/**
 * The player's time formatter: a whole number of seconds rendered as
 * `M:SS`, minutes as a plain decimal number and seconds zero-padded to two
 * digits. The model works on naturals; `ParseTime` is an independent reader
 * of the same text, used to state what the rendering means.
 */
module TimeFormat {

  datatype Option<T> = None | Some(value: T)

  predicate IsDigit(c: char) {
    '0' <= c <= '9'
  }

  predicate AllDigits(s: string) {
    forall k :: 0 <= k < |s| ==> IsDigit(s[k])
  }

  /** A decimal numeral as a number's `toString` writes it: at least one
      digit, and no leading zero unless the numeral is "0" itself. */
  predicate Canonical(s: string) {
    |s| >= 1 && AllDigits(s) && (s[0] == '0' ==> |s| == 1)
  }

  function DigitChar(d: nat): (c: char)
    requires d < 10
    ensures IsDigit(c) && DigitValue(c) == d
  {
    (('0' as int) + d) as char
  }

  function DigitValue(c: char): (d: nat)
    requires IsDigit(c)
    ensures d < 10
  {
    (c as int) - ('0' as int)
  }

  /** The value of a string of digits, most significant digit first. */
  function ValueOf(s: string): nat
    requires AllDigits(s)
  {
    if s == [] then 0 else ValueOf(s[..|s| - 1]) * 10 + DigitValue(s[|s| - 1])
  }

  /** `n.toString()` for a non-negative integer `n`. */
  function Decimal(n: nat): (r: string)
    ensures Canonical(r)
    ensures (r[0] == '0') == (n == 0)
    ensures (|r| == 1) == (n < 10)
    ensures n < 100 ==> |r| <= 2
  {
    if n < 10 then [DigitChar(n)] else Decimal(n / 10) + [DigitChar(n % 10)]
  }

  /** `k` copies of the character `c`. */
  function Repeat(c: char, k: nat): (r: string)
    ensures |r| == k
    ensures forall i :: 0 <= i < k ==> r[i] == c
  {
    if k == 0 then [] else [c] + Repeat(c, k - 1)
  }

  /** `s.padStart(width, fill)` for a one-character fill string: `s` itself
      when it is already `width` long or longer, otherwise `s` preceded by
      as many copies of `fill` as it lacks. */
  function PadStart(s: string, width: nat, fill: char): (r: string)
    ensures |r| == if |s| >= width then |s| else width
    ensures r[|r| - |s|..] == s
    ensures forall k :: 0 <= k < |r| - |s| ==> r[k] == fill
  {
    if |s| >= width then s else Repeat(fill, width - |s|) + s
  }

  /** `formatTime(seconds)` for a whole, non-negative number of seconds:
      `Math.floor(seconds / 60)`, a colon, then `Math.floor(seconds % 60)`
      padded on the left with '0' to two characters. */
  function FormatTime(seconds: nat): (r: string)
    ensures |r| >= 4 && r[|r| - 3] == ':'
  {
    Decimal(seconds / 60) + ":" + PadStart(Decimal(seconds % 60), 2, '0')
  }

  /** The minutes field of an `M:SS` text: everything before the colon. */
  function MinutesField(t: string): string
    requires |t| >= 3
  {
    t[..|t| - 3]
  }

  /** The seconds field of an `M:SS` text: the last two characters. */
  function SecondsField(t: string): string
    requires |t| >= 2
  {
    t[|t| - 2..]
  }

  /** A well-formed time text: minutes as a canonical numeral, a colon, and
      exactly two digits naming a second below 60. */
  predicate IsTimeText(t: string) {
    |t| >= 4 && t[|t| - 3] == ':'
    && Canonical(MinutesField(t))
    && AllDigits(SecondsField(t)) && ValueOf(SecondsField(t)) < 60
  }

  /** Reads an `M:SS` text back as a number of seconds. Leading zeros in
      the minutes are accepted; anything else malformed is refused. */
  function ParseTime(t: string): Option<nat> {
    if |t| >= 4 && t[|t| - 3] == ':'
       && AllDigits(MinutesField(t)) && |MinutesField(t)| >= 1
       && AllDigits(SecondsField(t)) && ValueOf(SecondsField(t)) < 60
    then Some(ValueOf(MinutesField(t)) * 60 + ValueOf(SecondsField(t)))
    else None
  }

  lemma {:induction false} ValueOfDecimal(n: nat)
    ensures ValueOf(Decimal(n)) == n
  {
    if n >= 10 {
      var r := Decimal(n);
      assert r[..|r| - 1] == Decimal(n / 10);
      ValueOfDecimal(n / 10);
    }
  }

  lemma {:induction false} ValueOfLeadingNonZero(s: string)
    requires |s| >= 1 && AllDigits(s) && s[0] != '0'
    ensures ValueOf(s) >= 1
  {
    if |s| > 1 {
      ValueOfLeadingNonZero(s[..|s| - 1]);
    }
  }

  lemma {:induction false} DecimalOfValue(s: string)
    requires Canonical(s)
    ensures Decimal(ValueOf(s)) == s
  {
    if |s| > 1 {
      var p := s[..|s| - 1];
      assert Canonical(p);
      ValueOfLeadingNonZero(p);
      DecimalOfValue(p);
      var v := ValueOf(s);
      assert v / 10 == ValueOf(p) && v % 10 == DigitValue(s[|s| - 1]);
      assert s == p + [s[|s| - 1]];
    }
  }

  /** Cutting `m + ":" + sec` at its colon gives back the two fields. */
  lemma SplitTimeText(m: string, sec: string)
    requires |sec| == 2
    ensures MinutesField(m + ":" + sec) == m
    ensures SecondsField(m + ":" + sec) == sec
  {
    var t := m + ":" + sec;
    assert t[..|t| - 3] == m;
    assert t[|t| - 2..] == sec;
  }

  /** Padding the numeral of a second to two places keeps its value. */
  lemma PadSeconds(n: nat)
    requires n < 60
    ensures var p := PadStart(Decimal(n), 2, '0');
      |p| == 2 && AllDigits(p) && ValueOf(p) == n
  {
    var d := Decimal(n);
    var p := PadStart(d, 2, '0');
    ValueOfDecimal(n);
    if |d| == 1 {
      assert p == ['0'] + d;
      assert p[..1] == ['0'];
    } else {
      assert p == d;
    }
  }

  /** The two fields of `FormatTime(s)`: the minutes field is the numeral
      of floor(s / 60), the seconds field is exactly two digits with value
      s % 60. */
  lemma FormatTimeFields(s: nat)
    ensures var r := FormatTime(s);
      Canonical(MinutesField(r)) && ValueOf(MinutesField(r)) == s / 60
      && |SecondsField(r)| == 2 && AllDigits(SecondsField(r))
      && ValueOf(SecondsField(r)) == s % 60
  {
    var mins, secs := s / 60, s % 60;
    var m := Decimal(mins);
    var p := PadStart(Decimal(secs), 2, '0');
    PadSeconds(secs);
    ValueOfDecimal(mins);
    SplitTimeText(m, p);
  }

  /** A well-formed time text whose fields hold floor(n / 60) and n % 60
      reads as n. */
  lemma ParseTimeFields(t: string, n: nat)
    requires IsTimeText(t)
    requires ValueOf(MinutesField(t)) == n / 60 && ValueOf(SecondsField(t)) == n % 60
    ensures ParseTime(t) == Some(n)
  {
  }

  /** Reading the formatted text gives back the number of seconds. */
  lemma ParseFormatTime(s: nat)
    ensures IsTimeText(FormatTime(s))
    ensures ParseTime(FormatTime(s)) == Some(s)
  {
    FormatTimeFields(s);
    ParseTimeFields(FormatTime(s), s);
  }

  /** A two-digit seconds field is the padded numeral of its own value. */
  lemma PadSecondsField(sec: string)
    requires |sec| == 2 && AllDigits(sec)
    ensures PadStart(Decimal(ValueOf(sec)), 2, '0') == sec
  {
    var v := ValueOf(sec);
    assert sec[..1] == [sec[0]] && sec[..1][..0] == [];
    assert ValueOf(sec[..1]) == DigitValue(sec[0]);
    assert v == DigitValue(sec[0]) * 10 + DigitValue(sec[1]);
    if sec[0] == '0' {
      assert Decimal(v) == [sec[1]];
      assert PadStart(Decimal(v), 2, '0') == ['0'] + [sec[1]];
    } else {
      assert Canonical(sec);
      DecimalOfValue(sec);
    }
  }

  /** A text with a colon three places from its end is its two fields
      joined by that colon. */
  lemma JoinTimeText(t: string)
    requires |t| >= 4 && t[|t| - 3] == ':'
    ensures t == MinutesField(t) + ":" + SecondsField(t)
  {
  }

  /** Every well-formed time text is the rendering of the number it reads as. */
  lemma FormatParseTime(t: string)
    requires IsTimeText(t)
    ensures ParseTime(t).Some? && FormatTime(ParseTime(t).value) == t
  {
    var m, sec := MinutesField(t), SecondsField(t);
    var n := ValueOf(m) * 60 + ValueOf(sec);
    assert n / 60 == ValueOf(m) && n % 60 == ValueOf(sec);
    ParseTimeFields(t, n);
    DecimalOfValue(m);
    PadSecondsField(sec);
    JoinTimeText(t);
    assert FormatTime(n) == Decimal(n / 60) + ":" + PadStart(Decimal(n % 60), 2, '0');
  }

  /** Distinct numbers of seconds are never displayed alike. */
  lemma FormatTimeInjective(a: nat, b: nat)
    requires FormatTime(a) == FormatTime(b)
    ensures a == b
  {
    ParseFormatTime(a);
    ParseFormatTime(b);
  }

  /** A well-formed text whose fields hold floor(s / 60) and s % 60 is the
      rendering of s. */
  lemma FormatTimeIs(s: nat, t: string)
    requires IsTimeText(t)
    requires ValueOf(MinutesField(t)) == s / 60 && ValueOf(SecondsField(t)) == s % 60
    ensures FormatTime(s) == t
  {
    ParseTimeFields(t, s);
    FormatParseTime(t);
  }

  /** Sample renderings: 0, 59, 60, 61, 3599 and 3600 seconds. */
  lemma FormatTimeExamples(s: nat, t: string)
    requires (s, t) in [(0, "0:00"), (59, "0:59"), (60, "1:00"), (61, "1:01"), (3599, "59:59"), (3600, "60:00")]
    ensures FormatTime(s) == t
  {
    if s < 60 {
      UnderAMinute(s, t);
    } else if s < 3599 {
      AroundAMinute(s, t);
    } else {
      AroundAnHour(s, t);
    }
  }

  /** Less than a minute: a zero minutes field. */
  lemma UnderAMinute(s: nat, t: string)
    requires (s, t) in [(0, "0:00"), (59, "0:59")]
    ensures FormatTime(s) == t
  {
    FormatTimeIs(s, t);
  }

  /** One minute: the seconds field restarts from 00. */
  lemma AroundAMinute(s: nat, t: string)
    requires (s, t) in [(60, "1:00"), (61, "1:01")]
    ensures FormatTime(s) == t
  {
    FormatTimeIs(s, t);
  }

  /** An hour: minutes are not carried into hours. */
  lemma AroundAnHour(s: nat, t: string)
    requires (s, t) in [(3599, "59:59"), (3600, "60:00")]
    ensures FormatTime(s) == t
  {
    FormatTimeIs(s, t);
  }
}
