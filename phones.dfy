/**
 * `_parse_phones`: every match of PHONE_RE in the text, normalised, with
 * duplicates dropped through a set, returned as a list in the set's
 * (unspecified) iteration order.
 */
module Phones {
  import opened Wrappers
  import opened PhoneFormat
  import opened PhonePattern

  predicate NoDuplicates(s: seq<string>) {
    forall i, j :: 0 <= i < j < |s| ==> s[i] != s[j]
  }

  /** `text or ""`: a missing text is scanned as the empty string. */
  function TextOrEmpty(text: Option<string>): string {
    if text.Some? then text.value else ""
  }

  /** The set `_parse_phones` builds: the normalised form of every match. */
  function PhoneSet(text: Option<string>): set<string> {
    set m | m in FindAll(TextOrEmpty(text)) :: NormalizePhone(m)
  }

  /** `phones` lists the members of `s`, each once. */
  ghost predicate Lists(phones: seq<string>, s: set<string>) {
    NoDuplicates(phones) && forall p :: p in phones <==> p in s
  }

  /** Every phone number `_parse_phones` can report is in the form `+1 (ddd) ddd-dddd`. */
  lemma PhoneSetFormatted(text: Option<string>)
    ensures forall p :: p in PhoneSet(text) ==> IsFormatted(p)
  {
    forall p | p in PhoneSet(text)
      ensures IsFormatted(p)
    {
      var m :| m in FindAll(TextOrEmpty(text)) && p == NormalizePhone(m);
      FindAllMatches(TextOrEmpty(text), m);
    }
  }

  /** `list(s)` for a set: its members, each once, in an order the model leaves open. */
  method ListOf(s: set<string>) returns (items: seq<string>)
    ensures Lists(items, s)
    ensures |items| == |s|
  {
    items := [];
    var rest := s;
    while rest != {}
      invariant rest <= s
      invariant NoDuplicates(items)
      invariant |items| + |rest| == |s|
      invariant forall p :: p in items <==> p in s && p !in rest
      decreases |rest|
    {
      var p :| p in rest;
      items := items + [p];
      rest := rest - {p};
    }
  }

  method ParsePhones(text: Option<string>) returns (phones: seq<string>)
    ensures Lists(phones, PhoneSet(text))
    ensures forall p :: p in phones ==> IsFormatted(p)
    ensures text.None? || text == Some("") ==> phones == []
  {
    var matches := FindAll(TextOrEmpty(text));
    var found: set<string> := {};
    for k := 0 to |matches|
      invariant found == set m | m in matches[..k] :: NormalizePhone(m)
    {
      assert matches[..k + 1] == matches[..k] + [matches[k]];
      found := found + {NormalizePhone(matches[k])};
    }
    assert matches[..|matches|] == matches;
    assert found == PhoneSet(text);
    PhoneSetFormatted(text);
    phones := ListOf(found);
  }
}
