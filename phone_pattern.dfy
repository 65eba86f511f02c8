/**
 * `PHONE_RE = \(?\d{3}\)?[-.\s]?\d{3}[-.\s]?\d{4}` and `findall` over it.
 *
 * Every optional element of the pattern is followed by an element that cannot
 * match the character the option would have taken (a digit never is `(`,
 * `)` or a separator), so backtracking never finds a second way to match at
 * one position: the greedy reading below is the only one. `MatchAtSound` and
 * `MatchAtComplete` prove this against a declarative grammar, `Spelling`.
 */
module PhonePattern {
  import opened Wrappers
  import opened Chars
  import opened PhoneFormat

  /** The class `[-.\s]`. */
  predicate IsSep(c: char) {
    c == '-' || c == '.' || IsSpace(c)
  }

  /** `\d{k}` matches at position `i` of `s`. */
  predicate DigitsAt(s: string, i: nat, k: nat) {
    i + k <= |s| && AllDigits(s[i..i + k])
  }

  /** The end of the match of PHONE_RE that starts at `i`, if there is one. */
  function MatchAt(s: string, i: nat): (r: Option<nat>)
    requires i <= |s|
    ensures r.Some? ==> i + 10 <= r.value <= i + 14 && r.value <= |s|
  {
    var a := if i < |s| && s[i] == '(' then i + 1 else i;
    if !DigitsAt(s, a, 3) then None
    else
      var b := if a + 3 < |s| && s[a + 3] == ')' then a + 4 else a + 3;
      var c := if b < |s| && IsSep(s[b]) then b + 1 else b;
      if !DigitsAt(s, c, 3) then None
      else
        var e := if c + 3 < |s| && IsSep(s[c + 3]) then c + 4 else c + 3;
        if !DigitsAt(s, e, 4) then None else Some(e + 4)
  }

  /** One way of writing a phone number that the pattern accepts. */
  datatype Spelling = Spelling(
    open: bool, area: string, close: bool, sep1: Option<char>,
    exchange: string, sep2: Option<char>, line: string)

  predicate WellFormed(p: Spelling) {
    && |p.area| == 3 && AllDigits(p.area)
    && |p.exchange| == 3 && AllDigits(p.exchange)
    && |p.line| == 4 && AllDigits(p.line)
    && (p.sep1.Some? ==> IsSep(p.sep1.value))
    && (p.sep2.Some? ==> IsSep(p.sep2.value))
  }

  function Opt(c: Option<char>): string {
    if c.Some? then [c.value] else []
  }

  function Render(p: Spelling): string {
    (if p.open then "(" else "") + p.area + (if p.close then ")" else "")
    + Opt(p.sep1) + p.exchange + Opt(p.sep2) + p.line
  }

  /** The strings PHONE_RE matches in full. */
  ghost predicate IsPhoneMatch(m: string) {
    exists p :: WellFormed(p) && Render(p) == m
  }

  /** The right-nested reading of `Render`, convenient for peeling pieces off the front. */
  lemma RenderNested(p: Spelling)
    ensures Render(p) ==
      (if p.open then "(" else "") + (p.area + ((if p.close then ")" else "")
      + (Opt(p.sep1) + (p.exchange + (Opt(p.sep2) + p.line)))))
  {
  }

  lemma NoDigits(x: string)
    requires forall k :: 0 <= k < |x| ==> !IsDigit(x[k])
    ensures Digits(x) == []
  {
  }

  /** Every spelling carries exactly the ten digits of its three groups. */
  lemma SpellingDigits(p: Spelling)
    requires WellFormed(p)
    ensures Digits(Render(p)) == p.area + p.exchange + p.line
  {
    var o := if p.open then "(" else "";
    var cl := if p.close then ")" else "";
    var s1, s2 := Opt(p.sep1), Opt(p.sep2);
    var t5 := s2 + p.line;
    var t4 := p.exchange + t5;
    var t3 := s1 + t4;
    var t2 := cl + t3;
    var t1 := p.area + t2;
    assert Digits(t5) == p.line by {
      NoDigits(s2);
      DigitsOfDigits(p.line);
      DigitsAppend(s2, p.line);
    }
    assert Digits(t4) == p.exchange + p.line by {
      DigitsOfDigits(p.exchange);
      DigitsAppend(p.exchange, t5);
    }
    assert Digits(t3) == p.exchange + p.line by {
      NoDigits(s1);
      DigitsAppend(s1, t4);
    }
    assert Digits(t2) == p.exchange + p.line by {
      NoDigits(cl);
      DigitsAppend(cl, t3);
    }
    assert Digits(t1) == p.area + p.exchange + p.line by {
      DigitsOfDigits(p.area);
      DigitsAppend(p.area, t2);
    }
    assert Digits(o + t1) == p.area + p.exchange + p.line by {
      NoDigits(o);
      DigitsAppend(o, t1);
    }
    RenderNested(p);
  }

  /**
   * The normalised form of a match depends only on its three digit groups:
   * `(555) 123-4567`, `555.123.4567` and `5551234567` all normalise alike.
   */
  lemma NormalizeSpelling(p: Spelling)
    requires WellFormed(p)
    ensures NormalizePhone(Render(p)) == Format(p.area + p.exchange + p.line)
  {
    SpellingDigits(p);
  }

  lemma Join(s: string, x: nat, y: nat, z: nat)
    requires x <= y <= z <= |s|
    ensures s[x..z] == s[x..y] + s[y..z]
  {
  }

  /** Seven adjacent slices of `s` put together. */
  lemma Assemble(s: string, i: nat, a: nat, b: nat, c: nat, d: nat, e: nat, f: nat, g: nat,
                 x0: string, x1: string, x2: string, x3: string, x4: string, x5: string, x6: string)
    requires i <= a <= b <= c <= d <= e <= f <= g <= |s|
    requires x0 == s[i..a] && x1 == s[a..b] && x2 == s[b..c] && x3 == s[c..d]
    requires x4 == s[d..e] && x5 == s[e..f] && x6 == s[f..g]
    ensures x0 + (x1 + (x2 + (x3 + (x4 + (x5 + x6))))) == s[i..g]
  {
    assert x5 + x6 == s[e..g] by { Join(s, e, f, g); }
    assert x4 + (x5 + x6) == s[d..g] by { Join(s, d, e, g); }
    assert x3 + (x4 + (x5 + x6)) == s[c..g] by { Join(s, c, d, g); }
    assert x2 + (x3 + (x4 + (x5 + x6))) == s[b..g] by { Join(s, b, c, g); }
    assert x1 + (x2 + (x3 + (x4 + (x5 + x6)))) == s[a..g] by { Join(s, a, b, g); }
    Join(s, i, a, g);
  }

  lemma Peel(s: string, i: nat, x: string, y: string)
    requires i + |x| + |y| <= |s| && s[i..i + |x| + |y|] == x + y
    ensures s[i..i + |x|] == x && s[i + |x|..i + |x| + |y|] == y
  {
    assert s[i..i + |x|] == s[i..i + |x| + |y|][..|x|];
    assert s[i + |x|..i + |x| + |y|] == s[i..i + |x| + |y|][|x|..];
  }

  /** The converse of `Assemble`. */
  lemma Disassemble(s: string, i: nat, g: nat, x0: string, x1: string, x2: string, x3: string, x4: string, x5: string, x6: string)
    returns (a: nat, b: nat, c: nat, d: nat, e: nat, f: nat)
    requires i <= g <= |s| && s[i..g] == x0 + (x1 + (x2 + (x3 + (x4 + (x5 + x6)))))
    ensures a == i + |x0| && b == a + |x1| && c == b + |x2| && d == c + |x3| && e == d + |x4| && f == e + |x5| && g == f + |x6|
    ensures s[i..a] == x0 && s[a..b] == x1 && s[b..c] == x2 && s[c..d] == x3
    ensures s[d..e] == x4 && s[e..f] == x5 && s[f..g] == x6
  {
    a := i + |x0|; b := a + |x1|; c := b + |x2|; d := c + |x3|;
    e := d + |x4|; f := e + |x5|;
    Peel(s, i, x0, x1 + (x2 + (x3 + (x4 + (x5 + x6)))));
    Peel(s, a, x1, x2 + (x3 + (x4 + (x5 + x6))));
    Peel(s, b, x2, x3 + (x4 + (x5 + x6)));
    Peel(s, c, x3, x4 + (x5 + x6));
    Peel(s, d, x4, x5 + x6);
    Peel(s, e, x5, x6);
  }
  lemma Pieces(s: string, i: nat, p: Spelling) returns (a: nat, a3: nat, b: nat, c: nat, c3: nat, e: nat)
    requires |p.area| == 3 && |p.exchange| == 3 && |p.line| == 4
    requires i + |Render(p)| <= |s| && s[i..i + |Render(p)|] == Render(p)
    ensures i <= a && a3 == a + 3 && a3 <= b <= c && c3 == c + 3 && c3 <= e && e + 4 == i + |Render(p)|
    ensures s[i..a] == (if p.open then "(" else "") && s[a..a3] == p.area
    ensures s[a3..b] == (if p.close then ")" else "") && s[b..c] == Opt(p.sep1)
    ensures s[c..c3] == p.exchange && s[c3..e] == Opt(p.sep2) && s[e..e + 4] == p.line
  {
    RenderNested(p);
    a, a3, b, c, c3, e := Disassemble(s, i, i + |Render(p)|, if p.open then "(" else "", p.area,
      if p.close then ")" else "", Opt(p.sep1), p.exchange, Opt(p.sep2), p.line);
  }

  lemma Decisions(s: string, i: nat, p: Spelling) returns (a: nat, b: nat, c: nat, e: nat)
    requires WellFormed(p)
    requires i + |Render(p)| <= |s| && s[i..i + |Render(p)|] == Render(p)
    ensures i <= a <= |s| && e + 4 == i + |Render(p)|
    ensures DigitsAt(s, a, 3) && DigitsAt(s, c, 3) && DigitsAt(s, e, 4)
    ensures a == (if i < |s| && s[i] == '(' then i + 1 else i)
    ensures b == (if a + 3 < |s| && s[a + 3] == ')' then a + 4 else a + 3)
    ensures c == (if b < |s| && IsSep(s[b]) then b + 1 else b)
    ensures e == (if c + 3 < |s| && IsSep(s[c + 3]) then c + 4 else c + 3)
  {
    var a3, c3;
    a, a3, b, c, c3, e := Pieces(s, i, p);
    DigitIsNotPunctuation(s[a]);
    DigitIsNotPunctuation(s[c]);
    DigitIsNotPunctuation(s[e]);
    assert p.open ==> s[i] == '(' by { if p.open { assert s[i] == s[i..a][0]; } }
    assert p.close ==> s[a3] == ')' by { if p.close { assert s[a3] == s[a3..b][0]; } }
    assert p.sep1.Some? ==> IsSep(s[b]) by { if p.sep1.Some? { assert s[b] == s[b..c][0]; } }
    assert p.sep2.Some? ==> IsSep(s[c3]) by { if p.sep2.Some? { assert s[c3] == s[c3..e][0]; } }
    assert p.sep1.Some? ==> s[b] != ')' by { if p.sep1.Some? { assert s[b] == s[b..c][0]; } }
  }
  /** A spelling read off the positions `MatchAt` steps through. */
  lemma Build(s: string, i: nat, a: nat, b: nat, c: nat, e: nat) returns (p: Spelling)
    requires a == i || (a == i + 1 && i < |s| && s[i] == '(')
    requires DigitsAt(s, a, 3) && DigitsAt(s, c, 3) && DigitsAt(s, e, 4)
    requires b == a + 3 || (b == a + 4 && a + 3 < |s| && s[a + 3] == ')')
    requires c == b || (c == b + 1 && b < |s| && IsSep(s[b]))
    requires e == c + 3 || (e == c + 4 && c + 3 < |s| && IsSep(s[c + 3]))
    ensures WellFormed(p) && Render(p) == s[i..e + 4]
  {
    var sep1: Option<char> := if c == b + 1 then Some(s[b]) else None;
    var sep2: Option<char> := if e == c + 4 then Some(s[c + 3]) else None;
    p := Spelling(a == i + 1, s[a..a + 3], b == a + 4, sep1, s[c..c + 3], sep2, s[e..e + 4]);
    var x0, x2, x3, x5 := s[i..a], s[a + 3..b], s[b..c], s[c + 3..e];
    assert x0 == (if p.open then "(" else "") by {
      if a == i + 1 { assert x0 == [s[i]]; } else { assert x0 == []; }
    }
    assert x2 == (if p.close then ")" else "") by {
      if b == a + 4 { assert x2 == [s[a + 3]]; } else { assert x2 == []; }
    }
    assert x3 == Opt(sep1) by {
      if c == b + 1 { assert x3 == [s[b]]; } else { assert x3 == []; }
    }
    assert x5 == Opt(sep2) by {
      if e == c + 4 { assert x5 == [s[c + 3]]; } else { assert x5 == []; }
    }
    RenderNested(p);
    Assemble(s, i, a, a + 3, b, c, c + 3, e, e + 4, x0, p.area, x2, x3, p.exchange, x5, p.line);
  }
  /** What `MatchAt` accepts is a phone number with ten digits. */
  lemma MatchAtSound(s: string, i: nat)
    requires i <= |s| && MatchAt(s, i).Some?
    ensures IsPhoneMatch(s[i..MatchAt(s, i).value])
    ensures |Digits(s[i..MatchAt(s, i).value])| == 10
  {
    var a := if i < |s| && s[i] == '(' then i + 1 else i;
    var b := if a + 3 < |s| && s[a + 3] == ')' then a + 4 else a + 3;
    var c := if b < |s| && IsSep(s[b]) then b + 1 else b;
    var e := if c + 3 < |s| && IsSep(s[c + 3]) then c + 4 else c + 3;
    assert DigitsAt(s, a, 3) && DigitsAt(s, c, 3) && DigitsAt(s, e, 4) && MatchAt(s, i) == Some(e + 4);
    var p := Build(s, i, a, b, c, e);
    SpellingDigits(p);
  }

  /** `MatchAt` evaluated from the choices it makes. */
  lemma MatchAtFrom(s: string, i: nat, a: nat, b: nat, c: nat, e: nat)
    requires i <= a <= |s|
    requires DigitsAt(s, a, 3) && DigitsAt(s, c, 3) && DigitsAt(s, e, 4)
    requires a == (if i < |s| && s[i] == '(' then i + 1 else i)
    requires b == (if a + 3 < |s| && s[a + 3] == ')' then a + 4 else a + 3)
    requires c == (if b < |s| && IsSep(s[b]) then b + 1 else b)
    requires e == (if c + 3 < |s| && IsSep(s[c + 3]) then c + 4 else c + 3)
    ensures MatchAt(s, i) == Some(e + 4)
  {
  }

  lemma DigitIsNotPunctuation(c: char)
    requires IsDigit(c)
    ensures !IsSep(c) && c != '(' && c != ')'
  {
  }

  /**
   * Whenever a spelling occurs at `i`, `MatchAt` finds exactly it: the
   * pattern has one match at a position, and `MatchAt` computes it.
   */
  lemma MatchAtComplete(s: string, i: nat, p: Spelling)
    requires WellFormed(p)
    requires i + |Render(p)| <= |s| && s[i..i + |Render(p)|] == Render(p)
    ensures MatchAt(s, i) == Some(i + |Render(p)|)
  {
    var a, b, c, e := Decisions(s, i, p);
    MatchAtFrom(s, i, a, b, c, e);
  }

  /** A match found by `findall`: `s[start..end]`. */
  datatype Span = Span(start: nat, end: nat)

  /**
   * The scan `findall` performs from position `i`: try to match at the
   * current position; on success record the match and continue at its end,
   * otherwise move one character on.
   */
  function Scan(s: string, i: nat): (spans: seq<Span>)
    requires i <= |s|
    ensures forall k :: 0 <= k < |spans| ==>
      && i <= spans[k].start < spans[k].end <= |s|
      && MatchAt(s, spans[k].start) == Some(spans[k].end)
    ensures forall k :: 0 < k < |spans| ==> spans[k - 1].end <= spans[k].start
    decreases |s| - i
  {
    if i == |s| then []
    else
      match MatchAt(s, i)
      case Some(j) => [Span(i, j)] + Scan(s, j)
      case None => Scan(s, i + 1)
  }

  /** `PHONE_RE.findall(s)`: the matched substrings, left to right. */
  function FindAll(s: string): seq<string> {
    var spans := Scan(s, 0);
    seq(|spans|, k requires 0 <= k < |spans| => s[spans[k].start..spans[k].end])
  }

  predicate Covered(spans: seq<Span>, p: nat) {
    exists k :: 0 <= k < |spans| && spans[k].start <= p < spans[k].end
  }

  /**
   * The scan is leftmost: no match of the pattern starts at a position from
   * `i` on that lies outside every match the scan reported.
   */
  lemma {:induction false} ScanLeftmost(s: string, i: nat, p: nat)
    requires i <= p < |s|
    requires !Covered(Scan(s, i), p)
    ensures MatchAt(s, p).None?
    decreases |s| - i
  {
    var spans := Scan(s, i);
    var m := MatchAt(s, i);
    if m.Some? {
      var j := m.value;
      var rest := Scan(s, j);
      assert spans == [Span(i, j)] + rest;
      assert !(i <= p < j) by { assert spans[0] == Span(i, j); }
      assert !Covered(rest, p) by {
        forall k | 0 <= k < |rest|
          ensures !(rest[k].start <= p < rest[k].end)
        {
          assert spans[k + 1] == rest[k];
        }
      }
      ScanLeftmost(s, j, p);
    } else if p > i {
      assert spans == Scan(s, i + 1);
      ScanLeftmost(s, i + 1, p);
    }
  }

  /** Every string `findall` returns is a full phone-number match with exactly ten digits. */
  lemma FindAllMatches(s: string, m: string)
    requires m in FindAll(s)
    ensures IsPhoneMatch(m) && |Digits(m)| == 10
  {
    var spans := Scan(s, 0);
    var k :| 0 <= k < |spans| && m == s[spans[k].start..spans[k].end];
    MatchAtSound(s, spans[k].start);
  }
}
