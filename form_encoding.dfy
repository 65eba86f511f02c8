/**
 * `urllib.parse.quote_plus(s)` with its defaults (`safe=''`, UTF-8): the text
 * is encoded as UTF-8, every byte in `_ALWAYS_SAFE` (ASCII letters, digits and
 * `_.-~`) is kept, a space becomes `+`, and every other byte becomes `%XX`
 * with upper-case hexadecimal digits.
 */
module FormEncoding {
  import opened Wrappers

  type byte = b: int | 0 <= b < 256

  /** The UTF-8 encoding of one character. */
  function Utf8(c: char): (bs: seq<byte>)
    ensures 1 <= |bs| <= 4
    ensures c as int < 0x80 ==> bs == [c as int]
    ensures c as int >= 0x80 ==> forall k :: 0 <= k < |bs| ==> bs[k] >= 0x80
  {
    var n := c as int;
    if n < 0x80 then [n]
    else if n < 0x800 then [0xC0 + n / 0x40, 0x80 + n % 0x40]
    else if n < 0x1_0000 then [0xE0 + n / 0x1000, 0x80 + (n / 0x40) % 0x40, 0x80 + n % 0x40]
    else [0xF0 + n / 0x4_0000, 0x80 + (n / 0x1000) % 0x40, 0x80 + (n / 0x40) % 0x40, 0x80 + n % 0x40]
  }

  /** How many bytes a UTF-8 sequence starting with `lead` takes. */
  function LeadLength(lead: byte): nat {
    if lead < 0x80 then 1 else if lead < 0xE0 then 2 else if lead < 0xF0 then 3 else 4
  }

  /** The six payload bits of continuation byte `k`, or 0 when there is none. */
  function Tail(bs: seq<byte>, k: nat): int {
    if k < |bs| then bs[k] as int - 0x80 else 0
  }

  /** The code point a well-formed UTF-8 sequence of one character spells. */
  function CodePoint(bs: seq<byte>): int
    requires 1 <= |bs| <= 4
  {
    var b0, b1, b2, b3 := bs[0] as int, Tail(bs, 1), Tail(bs, 2), Tail(bs, 3);
    if |bs| == 1 then b0
    else if |bs| == 2 then (b0 - 0xC0) * 0x40 + b1
    else if |bs| == 3 then (b0 - 0xE0) * 0x1000 + b1 * 0x40 + b2
    else (b0 - 0xF0) * 0x4_0000 + b1 * 0x1000 + b2 * 0x40 + b3
  }

  /** UTF-8 can be read back: the lead byte gives the length, the bytes give the character. */
  lemma Utf8Decodes(c: char)
    ensures |Utf8(c)| == LeadLength(Utf8(c)[0])
    ensures CodePoint(Utf8(c)) == c as int
  {
    var n := c as int;
    if 0x80 <= n < 0x800 {
      assert 2 <= n / 0x40 < 0x20;
      assert (n / 0x40) * 0x40 + n % 0x40 == n;
    } else if 0x800 <= n < 0x1_0000 {
      assert n / 0x1000 < 0x10;
      assert (n / 0x40) % 0x40 + (n / 0x1000) * 0x40 == n / 0x40;
      assert (n / 0x40) * 0x40 + n % 0x40 == n;
    } else if 0x1_0000 <= n {
      assert n / 0x4_0000 <= 4;
      assert (n / 0x1000) % 0x40 + (n / 0x4_0000) * 0x40 == n / 0x1000;
      assert (n / 0x40) % 0x40 + (n / 0x1000) * 0x40 == n / 0x40;
      assert (n / 0x40) * 0x40 + n % 0x40 == n;
    }
  }

  /** One character's encoding is never a proper prefix of another's. */
  lemma Utf8Prefix(c: char, t: seq<byte>, d: char, u: seq<byte>)
    requires Utf8(c) + t == Utf8(d) + u
    ensures c == d && t == u
  {
    var x := Utf8(c) + t;
    Utf8Decodes(c);
    Utf8Decodes(d);
    assert Utf8(c)[0] == x[0] == Utf8(d)[0];
    var k := |Utf8(c)|;
    assert Utf8(c) == x[..k] == Utf8(d);
    assert t == x[k..] == u;
  }

  /** `s.encode("utf-8")`. */
  function Encode(s: string): seq<byte> {
    if s == [] then [] else Utf8(s[0]) + Encode(s[1..])
  }

  lemma EncodeEmpty(s: string)
    ensures Encode(s) == [] <==> s == []
  {
  }

  /** Distinct texts have distinct UTF-8 encodings. */
  lemma {:induction false} EncodeInjective(s: string, r: string)
    requires Encode(s) == Encode(r)
    ensures s == r
  {
    EncodeEmpty(s);
    EncodeEmpty(r);
    if s != [] {
      Utf8Prefix(s[0], Encode(s[1..]), r[0], Encode(r[1..]));
      EncodeInjective(s[1..], r[1..]);
      assert s == [s[0]] + s[1..] && r == [r[0]] + r[1..];
    }
  }

  /** `_ALWAYS_SAFE`. */
  predicate AlwaysSafe(b: int) {
    || 'A' as int <= b <= 'Z' as int
    || 'a' as int <= b <= 'z' as int
    || '0' as int <= b <= '9' as int
    || b == '_' as int || b == '.' as int || b == '-' as int || b == '~' as int
  }

  function HexDigit(d: int): char
    requires 0 <= d < 16
  {
    "0123456789ABCDEF"[d]
  }

  function QuoteByte(b: byte): string {
    if AlwaysSafe(b) then [b as char]
    else if b == 0x20 then "+"
    else ['%', HexDigit(b / 16), HexDigit(b % 16)]
  }

  function QuoteBytes(bs: seq<byte>): string {
    if bs == [] then [] else QuoteByte(bs[0]) + QuoteBytes(bs[1..])
  }

  function QuotePlus(s: string): string {
    QuoteBytes(Encode(s))
  }

  /** The characters `quote_plus` can produce. */
  predicate IsFormChar(c: char) {
    AlwaysSafe(c as int) || c == '%' || c == '+'
  }

  function HexValue(c: char): Option<int> {
    if '0' <= c <= '9' then Some(c as int - '0' as int)
    else if 'A' <= c <= 'F' then Some(c as int - 'A' as int + 10)
    else None
  }

  /**
   * A strict decoder for `quote_plus` output: `%XX` is the byte XX, `+` is a
   * space, and any other ASCII character stands for itself.
   */
  function FormDecode(q: string): Option<seq<byte>>
    decreases |q|
  {
    if q == [] then Some([])
    else if q[0] == '%' then
      if |q| < 3 || HexValue(q[1]).None? || HexValue(q[2]).None? then None
      else
        match FormDecode(q[3..])
        case None => None
        case Some(rest) => Some([HexValue(q[1]).value * 16 + HexValue(q[2]).value] + rest)
    else if q[0] == '+' then
      match FormDecode(q[1..])
      case None => None
      case Some(rest) => Some([0x20] + rest)
    else if q[0] as int < 0x80 then
      match FormDecode(q[1..])
      case None => None
      case Some(rest) => Some([q[0] as int] + rest)
    else None
  }

  lemma HexRoundTrip(d: int)
    requires 0 <= d < 16
    ensures HexValue(HexDigit(d)) == Some(d)
  {
  }

  lemma DecodeQuoteByte(b: byte, t: string)
    ensures FormDecode(QuoteByte(b) + t) ==
      match FormDecode(t) case None => None case Some(rest) => Some([b] + rest)
  {
    var q := QuoteByte(b) + t;
    if AlwaysSafe(b) {
      assert q[0] == b as char && q[1..] == t;
    } else if b == 0x20 {
      assert q[0] == '+' && q[1..] == t;
    } else {
      HexRoundTrip(b / 16);
      HexRoundTrip(b % 16);
      assert q[0] == '%' && q[1] == HexDigit(b / 16) && q[2] == HexDigit(b % 16) && q[3..] == t;
    }
  }

  /** Decoding what the byte-level quoting produced gives the bytes back. */
  lemma {:induction false} QuoteBytesRoundTrip(bs: seq<byte>)
    ensures FormDecode(QuoteBytes(bs)) == Some(bs)
  {
    if bs != [] {
      QuoteBytesRoundTrip(bs[1..]);
      DecodeQuoteByte(bs[0], QuoteBytes(bs[1..]));
      assert [bs[0]] + bs[1..] == bs;
    }
  }

  /** `quote_plus` loses nothing: its output decodes to the UTF-8 bytes of its input. */
  lemma QuotePlusRoundTrip(s: string)
    ensures FormDecode(QuotePlus(s)) == Some(Encode(s))
  {
    QuoteBytesRoundTrip(Encode(s));
  }

  /** `quote_plus` is lossless: distinct texts are quoted differently. */
  lemma QuotePlusInjective(s: string, r: string)
    requires QuotePlus(s) == QuotePlus(r)
    ensures s == r
  {
    QuotePlusRoundTrip(s);
    QuotePlusRoundTrip(r);
    EncodeInjective(s, r);
  }

  lemma {:induction false} QuoteBytesAlphabet(bs: seq<byte>)
    ensures forall k :: 0 <= k < |QuoteBytes(bs)| ==> IsFormChar(QuoteBytes(bs)[k])
  {
    if bs != [] {
      QuoteBytesAlphabet(bs[1..]);
      var q, r := QuoteByte(bs[0]), QuoteBytes(bs[1..]);
      assert forall k :: 0 <= k < |q| ==> IsFormChar(q[k]);
      assert QuoteBytes(bs) == q + r;
    }
  }

  /**
   * `quote_plus` output uses only letters, digits, `_.-~`, `%` and `+`: no
   * `/`, `?`, `#`, `&`, `=` or space survives it.
   */
  lemma QuotePlusAlphabet(s: string)
    ensures forall k :: 0 <= k < |QuotePlus(s)| ==> IsFormChar(QuotePlus(s)[k])
  {
    QuoteBytesAlphabet(Encode(s));
  }

  lemma {:induction false} EncodeNoSpaceByte(s: string)
    requires forall k :: 0 <= k < |s| ==> s[k] != ' '
    ensures 0x20 !in Encode(s)
  {
    if s != [] {
      EncodeNoSpaceByte(s[1..]);
    }
  }

  lemma {:induction false} QuoteBytesNoPlus(bs: seq<byte>)
    requires 0x20 !in bs
    ensures '+' !in QuoteBytes(bs)
  {
    if bs != [] {
      QuoteBytesNoPlus(bs[1..]);
      assert '+' !in QuoteByte(bs[0]);
    }
  }

  /** Text without spaces is quoted without `+`. */
  lemma QuotePlusNoPlus(s: string)
    requires forall k :: 0 <= k < |s| ==> s[k] != ' '
    ensures '+' !in QuotePlus(s)
  {
    EncodeNoSpaceByte(s);
    QuoteBytesNoPlus(Encode(s));
  }
}
