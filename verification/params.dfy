/**
  The parameter checks at the front of `select_files`: the quality text is
  accepted only when `str.isdigit()` holds and its value lies in 1..100; the
  width text becomes a number only when `str.isdigit()` holds, and is `None`
  otherwise. A width of `None` or `0` (both false in Python) switches the
  resize off.
 */
module Params {
  import opened Wrappers

  const MinQuality: nat := 1
  const MaxQuality: nat := 100

  predicate IsDigit(c: char) {
    '0' <= c <= '9'
  }

  /** Every character is a decimal digit (true of the empty string). */
  predicate AllDigits(s: string) {
    forall i :: 0 <= i < |s| ==> IsDigit(s[i])
  }

  /** `s.isdigit()`: non-empty and made of digits only. */
  predicate IsDigitString(s: string) {
    |s| > 0 && AllDigits(s)
  }

  function DigitValue(c: char): (d: nat)
    requires IsDigit(c)
    ensures d < 10
  {
    c as int - '0' as int
  }

  function DigitChar(d: nat): (c: char)
    requires d < 10
    ensures IsDigit(c) && DigitValue(c) == d
  {
    ('0' as int + d) as char
  }

  /** `int(s)` for a string of digits: its decimal value, leading zeros included. */
  function Value(s: string): nat
    requires AllDigits(s)
  {
    if |s| == 0 then 0 else Value(s[..|s| - 1]) * 10 + DigitValue(s[|s| - 1])
  }

  /** The decimal numeral of `n` without leading zeros, as `str(n)` writes it. */
  function Numeral(n: nat): (s: string)
    ensures IsDigitString(s)
    ensures s[0] == '0' ==> n == 0
  {
    if n < 10 then [DigitChar(n)] else Numeral(n / 10) + [DigitChar(n % 10)]
  }

  /** `k` zero digits. */
  function Zeros(k: nat): (s: string)
    ensures |s| == k && AllDigits(s)
  {
    if k == 0 then [] else ['0'] + Zeros(k - 1)
  }

  /**
    The quality check of `select_files`: `Some(q)` when the text is a digit
    string whose value `q` lies in 1..100, `None` (the error dialog, and
    nothing else happens) otherwise.
   */
  function ParseQuality(text: string): (q: Option<nat>)
    ensures q.Some? ==> MinQuality <= q.value <= MaxQuality
  {
    if IsDigitString(text) && MinQuality <= Value(text) <= MaxQuality then Some(Value(text)) else None
  }

  /** The width conversion of `select_files`: a number when the text is a digit string, else `None`. */
  function ParseWidth(text: string): (w: Option<nat>)
    ensures w.None? <==> !IsDigitString(text)
  {
    if IsDigitString(text) then Some(Value(text)) else None
  }

  /** Python's truth value of the parsed width in `if width:`: neither `None` nor `0`. */
  predicate ResizeRequested(width: Option<nat>) {
    width.Some? && width.value != 0
  }

  /** Reading back a numeral gives the number. */
  lemma {:induction false} ValueOfNumeral(n: nat)
    ensures Value(Numeral(n)) == n
  {
    if n >= 10 {
      var s := Numeral(n);
      assert s[..|s| - 1] == Numeral(n / 10);
      ValueOfNumeral(n / 10);
    }
  }

  /** A leading zero does not change the value. */
  lemma {:induction false} LeadingZero(t: string)
    requires AllDigits(t)
    ensures AllDigits(['0'] + t) && Value(['0'] + t) == Value(t)
  {
    var s := ['0'] + t;
    if |t| > 0 {
      assert s[..|s| - 1] == ['0'] + t[..|t| - 1];
      LeadingZero(t[..|t| - 1]);
    }
  }

  /** Any number of leading zeros does not change the value. */
  lemma {:induction false} LeadingZeros(k: nat, t: string)
    requires AllDigits(t)
    ensures AllDigits(Zeros(k) + t) && Value(Zeros(k) + t) == Value(t)
  {
    if k > 0 {
      LeadingZeros(k - 1, t);
      assert Zeros(k) + t == ['0'] + (Zeros(k - 1) + t);
      LeadingZero(Zeros(k - 1) + t);
    } else {
      assert Zeros(k) + t == t;
    }
  }

  /** A digit string that does not start with `0` is the numeral of its value. */
  lemma {:induction false} NumeralOfValue(s: string)
    requires IsDigitString(s) && s[0] != '0'
    ensures Numeral(Value(s)) == s
  {
    if |s| > 1 {
      var t, d := s[..|s| - 1], s[|s| - 1];
      NumeralOfValue(t);
      assert Value(t) != 0;
      var v := Value(s);
      assert v == Value(t) * 10 + DigitValue(d);
      assert v / 10 == Value(t) && v % 10 == DigitValue(d);
      assert s == t + [d];
    }
  }

  /** A digit string of positive value is its canonical numeral behind some leading zeros. */
  lemma {:induction false} ZerosThenNumeral(s: string)
    requires IsDigitString(s) && Value(s) > 0
    ensures exists k: nat :: s == Zeros(k) + Numeral(Value(s))
  {
    if s[0] == '0' {
      var t := s[1..];
      assert s == ['0'] + t;
      LeadingZero(t);
      assert t != [];
      ZerosThenNumeral(t);
      var k: nat :| t == Zeros(k) + Numeral(Value(t));
      assert s == Zeros(k + 1) + Numeral(Value(s));
    } else {
      NumeralOfValue(s);
      assert s == Zeros(0) + Numeral(Value(s));
    }
  }

  /**
    The quality text is accepted exactly when it is the numeral of a number in
    1..100 behind any number of leading zeros (`"0100"` passes), and the
    accepted quality is that number.
   */
  lemma QualityAccepted(text: string, q: nat)
    ensures ParseQuality(text) == Some(q) <==>
      MinQuality <= q <= MaxQuality && exists k: nat :: text == Zeros(k) + Numeral(q)
  {
    if ParseQuality(text) == Some(q) {
      ZerosThenNumeral(text);
    }
    if MinQuality <= q <= MaxQuality && exists k: nat :: text == Zeros(k) + Numeral(q) {
      var k: nat :| text == Zeros(k) + Numeral(q);
      LeadingZeros(k, Numeral(q));
      ValueOfNumeral(q);
    }
  }

  /** A digit string is read back as the width it spells, leading zeros or not. */
  lemma WidthRoundTrip(k: nat, n: nat)
    ensures ParseWidth(Zeros(k) + Numeral(n)) == Some(n)
  {
    LeadingZeros(k, Numeral(n));
    ValueOfNumeral(n);
  }

  /** The edge cases of the quality check. */
  lemma QualityExamples()
    ensures ParseQuality("0100") == Some(100) && ParseQuality("100") == Some(100)
    ensures ParseQuality("1") == Some(1)
    ensures ParseQuality("0") == None && ParseQuality("101") == None
    ensures ParseQuality("") == None && ParseQuality("8a") == None && ParseQuality("-5") == None
  {
    assert Value("1") == 1;
    assert Value("10") == 10 by { assert "10"[..1] == "1"; }
    assert Value("100") == 100 by { assert "100"[..2] == "10"; }
    assert Value("101") == 101 by { assert "101"[..2] == "10"; }
    assert Value("0") == 0;
    assert Value("01") == 1 by { assert "01"[..1] == "0"; }
    assert Value("010") == 10 by { assert "010"[..2] == "01"; }
    assert Value("0100") == 100 by { assert "0100"[..3] == "010"; }
    assert !IsDigit('a') && !IsDigit('-');
    assert "8a"[1] == 'a' && "-5"[0] == '-';
  }

  /** The edge cases of the width conversion: `"0"` parses but requests no resize. */
  lemma WidthExamples()
    ensures ParseWidth("0") == Some(0) && !ResizeRequested(ParseWidth("0"))
    ensures ParseWidth("-5") == None && ParseWidth(" 50") == None && ParseWidth("") == None
  {
    assert Value("0") == 0;
    assert !IsDigit(' ') && !IsDigit('-');
    assert " 50"[0] == ' ' && "-5"[0] == '-';
  }
}
