/** The two number conversions the background page relies on:
    `parseInt(text, 10)` and JavaScript's rendering of an integer number
    as decimal text (`'...' + n`). */
module Numbers {
  import opened Options
  import opened Chars

  /** The text with its leading `\s` white space removed. */
  function TrimStart(s: string): (r: string)
    ensures |r| <= |s| && r == s[|s| - |r|..]
  {
    if s != [] && IsSpace(s[0]) then TrimStart(s[1..]) else s
  }

  /** Number of leading decimal digits of `s`. */
  function DigitRun(s: string): (n: nat)
    ensures n <= |s|
  {
    if s != [] && IsDigit(s[0]) then DigitRun(s[1..]) + 1 else 0
  }

  function DigitValue(c: char): nat
    requires IsDigit(c)
  {
    c as int - '0' as int
  }

  predicate AllDigits(d: string) {
    forall k :: 0 <= k < |d| ==> IsDigit(d[k])
  }

  /** The value of a string of decimal digits, read most significant first. */
  function DigitsValue(d: string): nat
    requires AllDigits(d)
  {
    if d == [] then 0 else DigitsValue(d[..|d| - 1]) * 10 + DigitValue(d[|d| - 1])
  }

  /** The longest run of leading decimal digits, read as a number;
      `None` when there is none. */
  function ParseDigits(body: string): Option<nat> {
    var n := DigitRun(body);
    if n == 0 then None
    else
      assert AllDigits(body[..n]) by { DigitRunAllDigits(body); }
      Some(DigitsValue(body[..n]))
  }

  /** `parseInt(s, 10)`: skip leading white space, take an optional sign,
      then the longest run of decimal digits; `None` (NaN) when that run is
      empty. */
  function ParseInt(s: string): Option<int> {
    ParseSigned(TrimStart(s))
  }

  /** An optional sign followed by the longest run of decimal digits. */
  function ParseSigned(t: string): Option<int> {
    var signed := t != [] && (t[0] == '-' || t[0] == '+');
    var body := if signed then t[1..] else t;
    match ParseDigits(body)
    case None => None
    case Some(v) => Some(if signed && t[0] == '-' then -(v as int) else v as int)
  }

  lemma {:induction false} DigitRunAllDigits(s: string)
    ensures AllDigits(s[..DigitRun(s)])
    ensures DigitRun(s) < |s| ==> !IsDigit(s[DigitRun(s)])
  {
    if s != [] && IsDigit(s[0]) {
      DigitRunAllDigits(s[1..]);
      assert s[..DigitRun(s)] == [s[0]] + s[1..][..DigitRun(s[1..])];
    }
  }

  function DigitChar(d: nat): (c: char)
    requires d < 10
    ensures IsDigit(c) && DigitValue(c) == d
  {
    ('0' as int + d) as char
  }

  /** Decimal text of a natural number, without leading zeros. */
  function NatToDecimal(n: nat): (d: string)
    ensures d != [] && AllDigits(d)
  {
    if n < 10 then [DigitChar(n)] else NatToDecimal(n / 10) + [DigitChar(n % 10)]
  }

  /** Decimal text of an integer, as `String(n)` gives it for integers of
      magnitude below 10^21. */
  function IntToDecimal(n: int): string {
    if n < 0 then "-" + NatToDecimal(-n) else NatToDecimal(n)
  }

  /** Reading back the digits of a natural number gives the number. */
  lemma {:induction false} DigitsValueOfDecimal(n: nat)
    ensures DigitsValue(NatToDecimal(n)) == n
  {
    if n >= 10 {
      DigitsValueOfDecimal(n / 10);
      var d := NatToDecimal(n);
      assert d[..|d| - 1] == NatToDecimal(n / 10);
    }
  }

  /** A run of digits is measured exactly when what follows is no digit. */
  lemma {:induction false} DigitRunOf(a: string, b: string)
    requires AllDigits(a)
    requires b == [] || !IsDigit(b[0])
    ensures DigitRun(a + b) == |a|
    decreases |a|
  {
    if a != [] {
      assert (a + b)[1..] == a[1..] + b;
      DigitRunOf(a[1..], b);
    }
  }

  /** A run of digits, followed by anything that is not a digit, reads as
      its value. */
  lemma ParseDigitsOf(d: string, junk: string)
    requires d != [] && AllDigits(d)
    requires junk == [] || !IsDigit(junk[0])
    ensures ParseDigits(d + junk) == Some(DigitsValue(d))
  {
    DigitRunOf(d, junk);
    assert (d + junk)[..|d|] == d;
  }

  /** Text that starts with a digit or a sign has no white space to skip. */
  lemma TrimStartNone(s: string)
    requires s != [] && (IsDigit(s[0]) || s[0] == '-')
    ensures TrimStart(s) == s
  {
  }

  /** `parseInt` reads back the decimal text of any integer, whatever
      non-digit text follows it. */
  lemma ParseIntOfDecimal(n: int, junk: string)
    requires junk == [] || !IsDigit(junk[0])
    ensures ParseInt(IntToDecimal(n) + junk) == Some(n)
  {
    var d := NatToDecimal(if n < 0 then -n else n);
    var sign := if n < 0 then "-" else "";
    var s := sign + d + junk;
    assert IntToDecimal(n) + junk == s;
    assert s[0] == if n < 0 then '-' else d[0];
    TrimStartNone(s);
    ParseSignedOf(sign, d, junk);
    DigitsValueOfDecimal(if n < 0 then -n else n);
  }

  /** Text without any digit is NaN to `parseInt`. */
  lemma ParseIntNoDigits(s: string)
    requires forall k :: 0 <= k < |s| ==> !IsDigit(s[k])
    ensures ParseInt(s) == None
  {
    var t := TrimStart(s);
    var body := if t != [] && (t[0] == '-' || t[0] == '+') then t[1..] else t;
    if body != [] {
      assert body[0] == s[|s| - |body|];
    }
  }

  /** `s` is read by `parseInt` as white space `ws`, an optional sign, the
      digits `d` and ignored text `junk` that does not continue the digits. */
  predicate Numeral(s: string, ws: string, sign: string, d: string, junk: string) {
    AllSpace(ws) && (sign == "" || sign == "+" || sign == "-") &&
    d != [] && AllDigits(d) && (junk == [] || !IsDigit(junk[0])) &&
    s == ws + sign + d + junk
  }

  /** The value of digits `d` under `sign`. */
  function SignedValue(sign: string, d: string): int
    requires AllDigits(d)
  {
    if sign == "-" then -(DigitsValue(d) as int) else DigitsValue(d)
  }

  /** Leading white space is skipped up to the first other character. */
  lemma {:induction false} TrimStartOf(ws: string, t: string)
    requires AllSpace(ws) && (t == [] || !IsSpace(t[0]))
    ensures TrimStart(ws + t) == t
    decreases |ws|
  {
    if ws == [] {
      assert ws + t == t;
    } else {
      assert (ws + t)[0] == ws[0];
      assert (ws + t)[1..] == ws[1..] + t;
      TrimStartOf(ws[1..], t);
    }
  }

  /** What `TrimStart` removes is white space, and what it keeps does not
      start with white space. */
  lemma {:induction false} TrimStartSplit(s: string)
    ensures forall k :: 0 <= k < |s| - |TrimStart(s)| ==> IsSpace(s[k])
    ensures TrimStart(s) == [] || !IsSpace(TrimStart(s)[0])
  {
    if s != [] && IsSpace(s[0]) {
      TrimStartSplit(s[1..]);
      forall k | 1 <= k < |s| - |TrimStart(s)|
        ensures IsSpace(s[k])
      {
        assert s[k] == s[1..][k - 1];
      }
    }
  }

  /** A sign, digits and junk read as the signed value of the digits. */
  lemma ParseSignedOf(sign: string, d: string, junk: string)
    requires (sign == "" || sign == "+" || sign == "-") && d != [] && AllDigits(d)
    requires junk == [] || !IsDigit(junk[0])
    ensures ParseSigned(sign + d + junk) == Some(SignedValue(sign, d))
  {
    var t := sign + d + junk;
    ParseDigitsOf(d, junk);
    if sign == "" {
      assert t == d + junk;
      assert !(t[0] == '-' || t[0] == '+');
    } else {
      assert t[0] == sign[0];
      assert t[1..] == d + junk;
    }
  }

  /** Every reading of `s` as white space, sign, digits and junk gives the
      value `parseInt` returns: leading white space is skipped, a `+` is
      accepted, leading zeros are read, and the first non-digit ends the
      number. */
  lemma ParseIntOf(s: string, ws: string, sign: string, d: string, junk: string)
    requires Numeral(s, ws, sign, d, junk)
    ensures ParseInt(s) == Some(SignedValue(sign, d))
  {
    var t := sign + d + junk;
    assert s == ws + t;
    assert t[0] == if sign == "" then d[0] else sign[0];
    TrimStartOf(ws, t);
    ParseSignedOf(sign, d, junk);
  }

  /** Text that starts with a digit splits into its digit run and the
      rest. */
  lemma ReadDigits(body: string) returns (d: string, junk: string)
    requires body != [] && IsDigit(body[0])
    ensures d != [] && AllDigits(d) && (junk == [] || !IsDigit(junk[0]))
    ensures body == d + junk
  {
    var n := DigitRun(body);
    DigitRunAllDigits(body);
    d, junk := body[..n], body[n..];
  }

  /** Text that `ParseSigned` reads splits into sign, digits and junk. */
  lemma ReadSigned(t: string) returns (sign: string, d: string, junk: string)
    requires ParseSigned(t).Some?
    ensures (sign == "" || sign == "+" || sign == "-") && d != [] && AllDigits(d)
    ensures junk == [] || !IsDigit(junk[0])
    ensures t == sign + d + junk
  {
    if t != [] && (t[0] == '-' || t[0] == '+') {
      sign := [t[0]];
      d, junk := ReadDigits(t[1..]);
      assert t == sign + t[1..];
    } else {
      sign := "";
      d, junk := ReadDigits(t);
    }
  }

  /** A prefix of white-space characters is white space. */
  lemma AllSpacePrefix(s: string, n: nat)
    requires n <= |s| && forall k :: 0 <= k < n ==> IsSpace(s[k])
    ensures AllSpace(s[..n])
  {
    forall k | 0 <= k < n
      ensures IsSpace(s[..n][k])
    {
      assert s[..n][k] == s[k];
    }
  }

  /** White space before a sign, digits and junk makes a numeral. */
  lemma NumeralOf(ws: string, sign: string, d: string, junk: string)
    requires AllSpace(ws) && (sign == "" || sign == "+" || sign == "-")
    requires d != [] && AllDigits(d) && (junk == [] || !IsDigit(junk[0]))
    ensures Numeral(ws + (sign + d + junk), ws, sign, d, junk)
  {
    assert ws + (sign + d + junk) == ws + sign + d + junk;
  }

  /** Text that `parseInt` reads is white space followed by text that
      `ParseSigned` reads. */
  lemma ReadNumeral(s: string) returns (ws: string, sign: string, d: string, junk: string)
    requires ParseInt(s).Some?
    ensures Numeral(s, ws, sign, d, junk)
  {
    var t := TrimStart(s);
    TrimStartSplit(s);
    AllSpacePrefix(s, |s| - |t|);
    ws := s[..|s| - |t|];
    sign, d, junk := ReadSigned(t);
    assert s == ws + t;
    NumeralOf(ws, sign, d, junk);
  }

  /** `parseInt` gives a number exactly when the text reads as white space,
      an optional sign and at least one digit; otherwise it gives NaN, as
      for `"abc5"` or `"-"`. */
  lemma ParseIntSomeIff(s: string)
    ensures ParseInt(s).Some? <==> exists ws, sign, d, junk :: Numeral(s, ws, sign, d, junk)
  {
    if exists ws, sign, d, junk :: Numeral(s, ws, sign, d, junk) {
      var ws, sign, d, junk :| Numeral(s, ws, sign, d, junk);
      ParseIntOf(s, ws, sign, d, junk);
    }
    if ParseInt(s).Some? {
      var ws, sign, d, junk := ReadNumeral(s);
    }
  }

  /** `parseInt` gives NaN exactly when, after the white space and an
      optional sign, the text does not start with a digit. */
  lemma ParseIntNoneIff(s: string)
    ensures var t := TrimStart(s);
      var body := if t != [] && (t[0] == '-' || t[0] == '+') then t[1..] else t;
      ParseInt(s).None? <==> body == [] || !IsDigit(body[0])
  {
  }

  /** Worked case: `" +042x"` reads as 42. */
  lemma ParseIntSignedExample()
    ensures ParseInt(" +042x") == Some(42)
  {
    assert DigitsValue("042") == 42 by {
      assert "042"[..2] == "04" && "04"[..1] == "0" && "0"[..0] == "";
    }
    assert AllSpace(" ");
    NumeralOf(" ", "+", "042", "x");
    assert " " + ("+" + "042" + "x") == " +042x";
    ParseIntOf(" +042x", " ", "+", "042", "x");
  }

  /** Worked case: `"abc5"` is NaN, a digit after other text is not read. */
  lemma ParseIntNaNExample()
    ensures ParseInt("abc5") == None
  {
    assert TrimStart("abc5") == "abc5";
    assert DigitRun("abc5") == 0;
  }
}
