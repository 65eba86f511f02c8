/**
 * The FastPeopleSearch address slug before URL-quoting:
 * `address.lower().replace(",", "").replace(" ", "-")`.
 */
module Slug {
  import opened Chars

  /** `str.lower()` (ASCII letters only). */
  function Lower(s: string): string {
    seq(|s|, i requires 0 <= i < |s| => ToLower(s[i]))
  }

  /** `s.replace(c, "")`: every occurrence of `c` deleted. */
  function Delete(s: string, c: char): string {
    if s == [] then [] else (if s[0] == c then [] else [s[0]]) + Delete(s[1..], c)
  }

  /** `s.replace(c, d)` for single characters: every occurrence of `c` becomes `d`. */
  function Replace(s: string, c: char, d: char): string {
    seq(|s|, i requires 0 <= i < |s| => if s[i] == c then d else s[i])
  }

  function SlugOf(address: string): string {
    Replace(Delete(Lower(address), ','), ' ', '-')
  }

  /** How many times `c` occurs in `s`. */
  function Count(s: string, c: char): nat {
    if s == [] then 0 else (if s[0] == c then 1 else 0) + Count(s[1..], c)
  }

  lemma {:induction false} DeleteFacts(s: string, c: char)
    ensures |Delete(s, c)| == |s| - Count(s, c)
    ensures forall k :: 0 <= k < |Delete(s, c)| ==> Delete(s, c)[k] != c && Delete(s, c)[k] in s
  {
    if s != [] {
      DeleteFacts(s[1..], c);
      var rest := Delete(s[1..], c);
      forall k | 0 <= k < |rest|
        ensures rest[k] in s
      {
        assert rest[k] in s[1..];
      }
    }
  }

  lemma LowerCount(s: string)
    ensures Count(Lower(s), ',') == Count(s, ',')
  {
    if s != [] {
      assert Lower(s)[1..] == Lower(s[1..]);
      LowerCount(s[1..]);
    }
  }

  /**
   * The slug has no commas, no spaces and no upper-case ASCII letters, and it
   * is the address less its commas, so never longer than the address.
   */
  lemma SlugClean(address: string)
    ensures var slug := SlugOf(address);
      && |slug| == |address| - Count(address, ',')
      && |slug| <= |address|
      && forall k :: 0 <= k < |slug| ==> slug[k] != ',' && slug[k] != ' ' && !IsUpper(slug[k])
  {
    var lowered := Lower(address);
    DeleteFacts(lowered, ',');
    LowerCount(address);
    var deleted := Delete(lowered, ',');
    forall k | 0 <= k < |deleted|
      ensures !IsUpper(deleted[k])
    {
      var j :| 0 <= j < |lowered| && lowered[j] == deleted[k];
    }
  }

  /** The slug is built character by character: the slug of a concatenation is the concatenation of slugs. */
  lemma {:induction false} SlugAppend(a: string, b: string)
    ensures SlugOf(a + b) == SlugOf(a) + SlugOf(b)
  {
    assert Lower(a + b) == Lower(a) + Lower(b);
    DeleteAppend(Lower(a), Lower(b), ',');
    var x, y := Delete(Lower(a), ','), Delete(Lower(b), ',');
    assert Replace(x + y, ' ', '-') == Replace(x, ' ', '-') + Replace(y, ' ', '-');
  }

  lemma {:induction false} DeleteAppend(a: string, b: string, c: char)
    ensures Delete(a + b, c) == Delete(a, c) + Delete(b, c)
  {
    if a == [] {
      assert a + b == b;
    } else {
      assert (a + b)[1..] == a[1..] + b;
      DeleteAppend(a[1..], b, c);
    }
  }

  /** What one character of the address contributes to the slug. */
  lemma SlugOfChar(c: char)
    ensures SlugOf([c]) == if c == ',' then "" else if c == ' ' then "-" else [ToLower(c)]
  {
    var l := ToLower(c);
    assert Lower([c]) == [l];
    assert (l == ',') == (c == ',') && (l == ' ') == (c == ' ');
    assert Delete([l], ',') == (if l == ',' then [] else [l]) by {
      assert Delete([l], ',') == (if l == ',' then [] else [l]) + Delete([], ',');
    }
  }
}
