/**
 * `_normalize_phone`: keep the digits of a number; when there are exactly ten,
 * spell them as `+1 (AAA) BBB-CCCC`, otherwise give the number back unchanged.
 */
module PhoneFormat {
  import opened Chars

  /** `re.sub(r"\D", "", s)`: the digits of `s`, in order. */
  function Digits(s: string): (d: string)
    ensures |d| <= |s|
    ensures AllDigits(d)
  {
    if s == [] then []
    else (if IsDigit(s[0]) then [s[0]] else []) + Digits(s[1..])
  }

  /** The shape every normalised phone number has: `+1 (ddd) ddd-dddd`. */
  predicate IsFormatted(p: string) {
    && |p| == 17
    && p[..4] == "+1 ("
    && AllDigits(p[4..7])
    && p[7..9] == ") "
    && AllDigits(p[9..12])
    && p[12] == '-'
    && AllDigits(p[13..])
  }

  /** The ten national digits a formatted number carries, in reading order. */
  function NationalDigits(p: string): string
    requires IsFormatted(p)
  {
    p[4..7] + p[9..12] + p[13..]
  }

  /** `+1 (AAA) BBB-CCCC` for the ten digits `d`. */
  function Format(d: string): (p: string)
    requires |d| == 10 && AllDigits(d)
    ensures IsFormatted(p) && NationalDigits(p) == d
  {
    var a, b, c := d[..3], d[3..6], d[6..];
    var p := "+1 (" + a + ") " + b + "-" + c;
    assert p[..4] == "+1 (";
    assert p[4..7] == a;
    assert p[7] == ')' && p[8] == ' ';
    assert p[9..12] == b;
    assert p[13..] == c;
    assert d == a + b + c;
    p
  }

  function NormalizePhone(number: string): (r: string)
    ensures |Digits(number)| == 10 ==> IsFormatted(r) && NationalDigits(r) == Digits(number)
    ensures |Digits(number)| != 10 ==> r == number
  {
    var d := Digits(number);
    if |d| == 10 then Format(d) else number
  }

  lemma {:induction false} DigitsAppend(a: string, b: string)
    ensures Digits(a + b) == Digits(a) + Digits(b)
  {
    if a == [] {
      assert a + b == b;
    } else {
      assert (a + b)[0] == a[0];
      assert (a + b)[1..] == a[1..] + b;
      DigitsAppend(a[1..], b);
    }
  }

  lemma {:induction false} DigitsOfDigits(s: string)
    requires AllDigits(s)
    ensures Digits(s) == s
  {
    if s != [] {
      DigitsOfDigits(s[1..]);
    }
  }

  /** The literal pieces of the format: only the country code is a digit. */
  lemma PunctuationDigits()
    ensures Digits("+1 (") == "1"
    ensures Digits(") ") == ""
    ensures Digits("-") == ""
  {
    assert Digits("(") == "";
    assert Digits(" (") == "";
    assert Digits("1 (") == "1";
    assert Digits(" ") == "";
  }

  /** The punctuation of the format contributes only the country code. */
  lemma {:induction false} FormatPiecesDigits(a: string, b: string, c: string)
    requires AllDigits(a) && AllDigits(b) && AllDigits(c)
    ensures Digits("+1 (" + a + ") " + b + "-" + c) == "1" + a + b + c
  {
    DigitsOfDigits(a);
    DigitsOfDigits(b);
    DigitsOfDigits(c);
    PunctuationDigits();
    var s1 := "+1 (" + a;
    var s2 := s1 + ") ";
    var s3 := s2 + b;
    var s4 := s3 + "-";
    assert Digits(s1) == "1" + a by { DigitsAppend("+1 (", a); }
    assert Digits(s2) == "1" + a by { DigitsAppend(s1, ") "); }
    assert Digits(s3) == "1" + a + b by { DigitsAppend(s2, b); }
    assert Digits(s4) == "1" + a + b by { DigitsAppend(s3, "-"); }
    DigitsAppend(s4, c);
  }

  /** A formatted number has eleven digits: the country code 1 and its ten national digits. */
  lemma FormattedDigits(p: string)
    requires IsFormatted(p)
    ensures Digits(p) == "1" + NationalDigits(p)
  {
    assert p == "+1 (" + p[4..7] + ") " + p[9..12] + "-" + p[13..];
    FormatPiecesDigits(p[4..7], p[9..12], p[13..]);
  }

  /** Formatted numbers are left alone: they carry eleven digits, not ten. */
  lemma FormattedIsFixed(p: string)
    requires IsFormatted(p)
    ensures NormalizePhone(p) == p
  {
    FormattedDigits(p);
  }

  /** Normalising twice is normalising once. */
  lemma NormalizeIdempotent(number: string)
    ensures NormalizePhone(NormalizePhone(number)) == NormalizePhone(number)
  {
    if |Digits(number)| == 10 {
      FormattedIsFixed(NormalizePhone(number));
    }
  }
}
