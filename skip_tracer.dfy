/**
 * The people-search side of the skip tracer: building each site's search URL,
 * turning the result cards of a page into records, and `skip_trace`, which
 * tries TruePeopleSearch first and FastPeopleSearch second.
 *
 * Fetching a page (a headless browser) and reading cards out of its HTML are
 * outside the model: a search is given `fetch`, which maps a URL to what the
 * fetch-and-parse step produced.
 */
module SkipTracer {
  import opened Wrappers
  import opened PhoneFormat
  import opened Phones
  import opened Slug
  import opened FormEncoding

  datatype Site = TruePeopleSearch | FastPeopleSearch

  /** The `source` every record from `site` carries. */
  function SourceName(site: Site): string {
    match site
    case TruePeopleSearch => "TruePeopleSearch"
    case FastPeopleSearch => "FastPeopleSearch"
  }

  /** What the `href` of a card's name link contains on `site`. */
  function NameLinkMarker(site: Site): string {
    match site
    case TruePeopleSearch => "/details"
    case FastPeopleSearch => "/person"
  }

  const TruePeopleSearchQuery := "https://www.truepeoplesearch.com/results?streetaddress="
  const FastPeopleSearchPath := "https://www.fastpeoplesearch.com/address/"

  function SearchUrl(site: Site, address: string): string {
    match site
    case TruePeopleSearch => TruePeopleSearchQuery + QuotePlus(address)
    case FastPeopleSearch => FastPeopleSearchPath + QuotePlus(SlugOf(address))
  }

  /** The TruePeopleSearch query parameter decodes to the UTF-8 bytes of the whole address. */
  lemma TruePeopleSearchUrlCarriesAddress(address: string)
    ensures var url := SearchUrl(TruePeopleSearch, address);
      && url[..|TruePeopleSearchQuery|] == TruePeopleSearchQuery
      && FormDecode(url[|TruePeopleSearchQuery|..]) == Some(Encode(address))
  {
    var url := SearchUrl(TruePeopleSearch, address);
    assert url[|TruePeopleSearchQuery|..] == QuotePlus(address);
    QuotePlusRoundTrip(address);
  }

  /**
   * The FastPeopleSearch URL ends in a single path segment that decodes to
   * the slug of the address and holds no `/`, `?`, `#` or `+`.
   */
  lemma FastPeopleSearchUrlCarriesSlug(address: string)
    ensures var url := SearchUrl(FastPeopleSearch, address);
      var segment := url[|FastPeopleSearchPath|..];
      && url[..|FastPeopleSearchPath|] == FastPeopleSearchPath
      && FormDecode(segment) == Some(Encode(SlugOf(address)))
      && '/' !in segment && '?' !in segment && '#' !in segment && '+' !in segment
  {
    var slug := SlugOf(address);
    var url := SearchUrl(FastPeopleSearch, address);
    var segment := url[|FastPeopleSearchPath|..];
    assert segment == QuotePlus(slug);
    QuotePlusRoundTrip(slug);
    QuotePlusAlphabet(slug);
    SlugClean(address);
    QuotePlusNoPlus(slug);
    assert !IsFormChar('/') && !IsFormChar('?') && !IsFormChar('#');
  }

  /** Distinct addresses are searched on TruePeopleSearch under distinct URLs. */
  lemma TruePeopleSearchUrlInjective(address: string, other: string)
    requires SearchUrl(TruePeopleSearch, address) == SearchUrl(TruePeopleSearch, other)
    ensures address == other
  {
    var n := |TruePeopleSearchQuery|;
    assert QuotePlus(address) == SearchUrl(TruePeopleSearch, address)[n..];
    assert QuotePlus(other) == SearchUrl(TruePeopleSearch, other)[n..];
    QuotePlusInjective(address, other);
  }

  /** Addresses with distinct slugs are searched on FastPeopleSearch under distinct URLs. */
  lemma FastPeopleSearchUrlInjective(address: string, other: string)
    requires SearchUrl(FastPeopleSearch, address) == SearchUrl(FastPeopleSearch, other)
    ensures SlugOf(address) == SlugOf(other)
  {
    var n := |FastPeopleSearchPath|;
    assert QuotePlus(SlugOf(address)) == SearchUrl(FastPeopleSearch, address)[n..];
    assert QuotePlus(SlugOf(other)) == SearchUrl(FastPeopleSearch, other)[n..];
    QuotePlusInjective(SlugOf(address), SlugOf(other));
  }

  /** `s` contains `sub` (what `re.search` finds for a pattern without special characters). */
  predicate Contains(s: string, sub: string)
    decreases |s|
  {
    |sub| <= |s| && (s[..|sub|] == sub || Contains(s[1..], sub))
  }

  predicate OccursAt(s: string, sub: string, i: nat) {
    i + |sub| <= |s| && s[i..i + |sub|] == sub
  }

  /** `Contains` finds `sub` exactly when it occurs somewhere in `s`. */
  lemma {:induction false} ContainsIff(s: string, sub: string)
    ensures Contains(s, sub) <==> exists i: nat :: OccursAt(s, sub, i)
    decreases |s|
  {
    if |sub| <= |s| {
      if s[..|sub|] == sub {
        assert OccursAt(s, sub, 0);
      } else {
        ContainsIff(s[1..], sub);
        forall i: nat | OccursAt(s[1..], sub, i)
          ensures OccursAt(s, sub, i + 1)
        {
          assert s[1..][i..i + |sub|] == s[i + 1..i + 1 + |sub|];
        }
        forall i: nat | OccursAt(s, sub, i)
          ensures i > 0 && OccursAt(s[1..], sub, i - 1)
        {
          assert s[1..][i - 1..i - 1 + |sub|] == s[i..i + |sub|];
        }
      }
    }
  }

  /** An `<a>` element of a card: its `href` ("" when it has none) and its stripped text. */
  datatype Link = Link(href: string, text: string)

  /**
   * A result card: its links in document order, the stripped text of its
   * address `<div>` if it has one, and `card.get_text(" ")`.
   */
  datatype Card = Card(links: seq<Link>, address: Option<string>, text: string)

  datatype Record = Record(name: string, phones: seq<string>, cityState: string, source: string)

  /** `card.find("a", href=re.compile(marker))`: the first link whose `href` contains `marker`. */
  function FindLink(links: seq<Link>, marker: string): (r: Option<nat>)
    ensures r.Some? ==> && r.value < |links| && Contains(links[r.value].href, marker)
                        && forall k :: 0 <= k < r.value ==> !Contains(links[k].href, marker)
    ensures r.None? ==> forall k :: 0 <= k < |links| ==> !Contains(links[k].href, marker)
  {
    if links == [] then None
    else if Contains(links[0].href, marker) then Some(0)
    else
      match FindLink(links[1..], marker)
      case None => None
      case Some(k) => Some(k + 1)
  }

  /** The name a card shows on `site`, if it has a name link at all. */
  function NameOf(site: Site, card: Card): Option<string> {
    match FindLink(card.links, NameLinkMarker(site))
    case None => None
    case Some(k) => Some(card.links[k].text)
  }

  function CityState(card: Card): string {
    if card.address.Some? then card.address.value else ""
  }

  /** A card yields a record when it has a name link and a non-empty name or some phone number. */
  predicate Emits(site: Site, card: Card) {
    NameOf(site, card).Some? && (NameOf(site, card).value != "" || PhoneSet(Some(card.text)) != {})
  }

  /** The cards that yield records, in page order. */
  function Kept(site: Site, cards: seq<Card>): seq<Card> {
    if cards == [] then []
    else Kept(site, cards[..|cards| - 1]) + (if Emits(site, cards[|cards| - 1]) then [cards[|cards| - 1]] else [])
  }

  /** `r` is the record the search builds from `card`. */
  ghost predicate RecordFor(site: Site, card: Card, r: Record) {
    && NameOf(site, card) == Some(r.name)
    && r.cityState == CityState(card)
    && r.source == SourceName(site)
    && Lists(r.phones, PhoneSet(Some(card.text)))
  }

  /** `results` is what the card loop of a search produces from `cards`. */
  ghost predicate SearchResult(site: Site, cards: seq<Card>, results: seq<Record>) {
    var kept := Kept(site, cards);
    |results| == |kept| && forall k :: 0 <= k < |results| ==> RecordFor(site, kept[k], results[k])
  }

  /** Filtering card by card: the kept cards of a concatenation are the concatenation of the kept cards. */
  lemma {:induction false} KeptAppend(site: Site, a: seq<Card>, b: seq<Card>)
    ensures Kept(site, a + b) == Kept(site, a) + Kept(site, b)
    decreases |b|
  {
    if b == [] {
      assert a + b == a;
    } else {
      var b' := b[..|b| - 1];
      assert (a + b)[..|a + b| - 1] == a + b';
      KeptAppend(site, a, b');
    }
  }

  /** A card without a name link never yields a record, wherever it stands. */
  lemma NoNameLinkNoRecord(site: Site, a: seq<Card>, card: Card, b: seq<Card>)
    requires NameOf(site, card).None?
    ensures Kept(site, a + [card] + b) == Kept(site, a + b)
  {
    assert Kept(site, [card]) == [] by {
      assert [card][..0] == [];
      assert !Emits(site, card);
    }
    assert Kept(site, a + [card]) == Kept(site, a) by { KeptAppend(site, a, [card]); }
    assert Kept(site, a + [card] + b) == Kept(site, a) + Kept(site, b) by { KeptAppend(site, a + [card], b); }
    KeptAppend(site, a, b);
  }

  /** Every kept card is one of the page's cards, has a name link, and has a name or a phone. */
  lemma {:induction false} KeptCards(site: Site, cards: seq<Card>)
    ensures |Kept(site, cards)| <= |cards|
    ensures forall c :: c in Kept(site, cards) ==> c in cards && Emits(site, c)
  {
    if cards != [] {
      var init := cards[..|cards| - 1];
      KeptCards(site, init);
      forall c | c in Kept(site, init)
        ensures c in cards
      {
        assert c in init;
      }
    }
  }

  /**
   * What a search reports: at most one record per card, every record tagged
   * with the site, carrying a name or a phone, and only formatted, distinct
   * phone numbers.
   */
  lemma SearchResultFacts(site: Site, cards: seq<Card>, results: seq<Record>)
    requires SearchResult(site, cards, results)
    ensures |results| <= |cards|
    ensures forall r :: r in results ==> r.source == SourceName(site) && (r.name != "" || r.phones != [])
    ensures forall r, p :: r in results && p in r.phones ==> IsFormatted(p)
    ensures forall r :: r in results ==> NoDuplicates(r.phones)
  {
    var kept := Kept(site, cards);
    KeptCards(site, cards);
    forall r | r in results
      ensures r.source == SourceName(site) && (r.name != "" || r.phones != [])
      ensures forall p :: p in r.phones ==> IsFormatted(p)
    {
      var k :| 0 <= k < |results| && results[k] == r;
      var card := kept[k];
      assert card in kept;
      PhoneSetFormatted(Some(card.text));
      if r.name == "" {
        var p :| p in PhoneSet(Some(card.text));
        assert p in r.phones;
      }
    }
  }

  /** The loop over cards in `search_truepeoplesearch` / `search_fastpeoplesearch`. */
  method RecordsFromCards(site: Site, cards: seq<Card>) returns (results: seq<Record>)
    ensures SearchResult(site, cards, results)
  {
    results := [];
    for i := 0 to |cards|
      invariant SearchResult(site, cards[..i], results)
    {
      assert cards[..i + 1][..i] == cards[..i];
      var card := cards[i];
      ghost var kept := Kept(site, cards[..i]);
      assert Kept(site, cards[..i + 1]) == kept + (if Emits(site, card) then [card] else []);
      var link := FindLink(card.links, NameLinkMarker(site));
      if link.None? {
        continue;
      }
      var name := card.links[link.value].text;
      var location := CityState(card);
      var phones := ParsePhones(Some(card.text));
      assert (phones != []) == (PhoneSet(Some(card.text)) != {}) by {
        if PhoneSet(Some(card.text)) != {} {
          var p :| p in PhoneSet(Some(card.text));
          assert p in phones;
        }
        if phones != [] {
          assert phones[0] in phones;
        }
      }
      if name != "" || phones != [] {
        var r := Record(name, phones, location, SourceName(site));
        assert RecordFor(site, card, r);
        results := results + [r];
      }
    }
    assert cards[..|cards|] == cards;
  }

  /** What fetching a search URL and selecting its result cards produced. */
  datatype Response =
    | Raised          // the browser or the parser raised an exception
    | Blank           // `_fetch_html` gave back no HTML
    | Page(cards: seq<Card>)

  /** A site search either raised or returned its records. */
  datatype Attempt = Failed | Returned(records: seq<Record>)

  function PageCards(response: Response): seq<Card> {
    if response.Page? then response.cards else []
  }

  /** `search_truepeoplesearch` / `search_fastpeoplesearch`. */
  method Search(site: Site, address: string, fetch: string -> Response) returns (attempt: Attempt)
    ensures attempt.Failed? <==> fetch(SearchUrl(site, address)).Raised?
    ensures attempt.Returned? ==>
      SearchResult(site, PageCards(fetch(SearchUrl(site, address))), attempt.records)
  {
    var response := fetch(SearchUrl(site, address));
    match response
    case Raised =>
      attempt := Failed;
    case Blank =>
      attempt := Returned([]);
    case Page(cards) =>
      var records := RecordsFromCards(site, cards);
      attempt := Returned(records);
  }

  /** The cards of `site`'s results page for `address` that yield records. */
  function Offered(site: Site, address: string, fetch: string -> Response): seq<Card> {
    Kept(site, PageCards(fetch(SearchUrl(site, address))))
  }

  /**
   * `skip_trace`: TruePeopleSearch's records if it has any; otherwise
   * FastPeopleSearch's if it has any; otherwise none. A search that raised
   * counts as one with no records.
   */
  method SkipTrace(address: string, fetch: string -> Response) returns (results: seq<Record>)
    ensures Offered(TruePeopleSearch, address, fetch) != [] ==>
      SearchResult(TruePeopleSearch, PageCards(fetch(SearchUrl(TruePeopleSearch, address))), results)
    ensures Offered(TruePeopleSearch, address, fetch) == [] && Offered(FastPeopleSearch, address, fetch) != [] ==>
      SearchResult(FastPeopleSearch, PageCards(fetch(SearchUrl(FastPeopleSearch, address))), results)
    ensures Offered(TruePeopleSearch, address, fetch) == [] && Offered(FastPeopleSearch, address, fetch) == [] ==>
      results == []
    ensures || (forall r :: r in results ==> r.source == "TruePeopleSearch")
            || (forall r :: r in results ==> r.source == "FastPeopleSearch")
  {
    var first := Search(TruePeopleSearch, address, fetch);
    if first.Returned? {
      SearchResultFacts(TruePeopleSearch, PageCards(fetch(SearchUrl(TruePeopleSearch, address))), first.records);
      if first.records != [] {
        return first.records;
      }
    }
    var second := Search(FastPeopleSearch, address, fetch);
    if second.Returned? {
      SearchResultFacts(FastPeopleSearch, PageCards(fetch(SearchUrl(FastPeopleSearch, address))), second.records);
      if second.records != [] {
        return second.records;
      }
    }
    return [];
  }
}
