# Skip tracer: phone parsing, address slugs and source fallback

This project models the text-processing and decision logic of `skiptracer.py`,
a script that looks up the people living at a property address on two public
people-search sites, TruePeopleSearch and FastPeopleSearch. It models:

- **phone normalisation** (`_normalize_phone`): keep the digits of a number;
  when there are exactly ten, spell them `+1 (AAA) BBB-CCCC`, otherwise return
  the number unchanged (module `PhoneFormat`);
- **phone extraction** (`PHONE_RE` and `_parse_phones`): the pattern
  `\(?\d{3}\)?[-.\s]?\d{3}[-.\s]?\d{4}` as a deterministic matcher `MatchAt`,
  proved sound and complete against a declarative grammar (`Spelling`/`Render`);
  `findall` as a leftmost, non-overlapping scan (`Scan`, `FindAll`); and the
  set-then-list collection of normalised matches as a method (`PhonePattern`,
  `Phones`);
- **the FastPeopleSearch slug** (`address.lower().replace(",", "").replace(" ", "-")`)
  and `quote_plus` as form-urlencoding over UTF-8 bytes (`Slug`, `FormEncoding`);
- **the per-card record loop** of both site searches, each **site search**, and
  **`skip_trace`**'s fallback order (`SkipTracer`).

Fetching a page and reading result cards out of its HTML are not modelled: a
search is given `fetch: string -> Response`, which maps the search URL to what
fetch-and-select produced (an exception, no HTML, or a list of cards). A card
is abstracted to its links (`href` and stripped text, in document order), the
stripped text of its address `<div>` if any, and `card.get_text(" ")`.

Python's `list(set)` iterates in an order that depends on string hashing, so
`ParsePhones` picks the members of its set in an unspecified order and its
contract is relational: the list holds each member of the set exactly once.
Everything built from it (`RecordsFromCards`, `Search`, `SkipTrace`) is
specified the same way through `SearchResult`.

Verify all files together with `dafny verify *.dfy`; there is no `Main`.

## Model

| member | source | states |
|---|---|---|
| `Chars.ToLower` | skiptracer.py:126 | `lower()` on one character maps `A`-`Z` to the same letter in lower case, changes no other character, and never yields an upper-case ASCII letter |
| `PhoneFormat.Digits` | skiptracer.py:35 | `re.sub(r"\D", "", s)` yields only digits and is never longer than `s` |
| `PhoneFormat.Format` | skiptracer.py:37 | ten digits are spelled in the 17-character form `+1 (ddd) ddd-dddd`, carrying those ten digits in order |
| `PhoneFormat.NormalizePhone` | skiptracer.py:34-38 | with exactly ten digits the result is formatted and carries the input's digits in their original order; otherwise it is the input unchanged |
| `PhoneFormat.FormattedDigits` | skiptracer.py:35-37 | a formatted number has eleven digits: `1` followed by its ten national digits |
| `PhoneFormat.FormattedIsFixed` | skiptracer.py:36-38 | normalising an already formatted number leaves it unchanged |
| `PhoneFormat.NormalizeIdempotent` | skiptracer.py:34-38 | normalising twice equals normalising once |
| `PhonePattern.MatchAt` | skiptracer.py:31 | a match of `PHONE_RE` at a position is 10 to 14 characters long and lies inside the text |
| `PhonePattern.SpellingDigits` | skiptracer.py:31 | every string the pattern accepts has exactly its three groups' ten digits |
| `PhonePattern.NormalizeSpelling` | skiptracer.py:31-37 | every spelling of a number (parentheses, separators or none) normalises to the same formatted string |
| `PhonePattern.MatchAtSound` | skiptracer.py:31 | what the matcher accepts is a full match of the pattern and has ten digits |
| `PhonePattern.MatchAtComplete` | skiptracer.py:31 | whenever a spelling the pattern accepts occurs at a position, the matcher returns exactly its end: the match at a position is unique |
| `PhonePattern.Scan` | skiptracer.py:43 | `findall`'s matches lie inside the text, each is a match of the pattern at its start, and they are ordered and non-overlapping |
| `PhonePattern.ScanLeftmost` | skiptracer.py:43 | no match of the pattern starts at a position that `findall` skipped over without it lying inside a reported match |
| `PhonePattern.FindAllMatches` | skiptracer.py:31-43 | every string `findall` returns is a full match with exactly ten digits |
| `Phones.PhoneSetFormatted` | skiptracer.py:41-46 | every phone number collected from a text is in the form `+1 (ddd) ddd-dddd` |
| `Phones.ListOf` | skiptracer.py:46 | `list(set)` lists every member exactly once and nothing else |
| `Phones.ParsePhones` | skiptracer.py:41-46 | the result has no duplicates, its elements are exactly the normalised matches, all formatted; `None` or empty text gives `[]` |
| `Slug.SlugClean` | skiptracer.py:126 | the slug has no commas, no spaces and no upper-case ASCII letters, and its length is the address's less its commas |
| `Slug.SlugAppend` | skiptracer.py:126 | the slug is computed character by character: the slug of a concatenation is the concatenation of the slugs |
| `Slug.SlugOfChar` | skiptracer.py:126 | a comma contributes nothing, a space contributes `-`, any other character its lower-case form |
| `FormEncoding.Utf8` | skiptracer.py:126 | UTF-8 uses one to four bytes per character; ASCII encodes as itself and nothing else produces a byte below 0x80 |
| `FormEncoding.Utf8Decodes` | skiptracer.py:126 | one character's UTF-8 bytes can be read back: the lead byte gives the length and the bytes give the code point |
| `FormEncoding.Utf8Prefix` | skiptracer.py:126 | one character's encoding is never a proper prefix of another's, so the first character and the rest are recovered from any encoded text |
| `FormEncoding.EncodeInjective` | skiptracer.py:126 | distinct texts have distinct UTF-8 encodings |
| `FormEncoding.QuoteBytesRoundTrip` | skiptracer.py:126 | decoding the byte-level quoting gives back the bytes |
| `FormEncoding.QuotePlusRoundTrip` | skiptracer.py:90 | `quote_plus` output decodes to the UTF-8 bytes of its input |
| `FormEncoding.QuotePlusInjective` | skiptracer.py:90 | `quote_plus` is lossless: distinct texts are quoted differently |
| `FormEncoding.QuoteBytesAlphabet` | skiptracer.py:126 | quoted bytes use only letters, digits, `_.-~`, `%` and `+` |
| `FormEncoding.QuotePlusAlphabet` | skiptracer.py:90 | `quote_plus` output uses only letters, digits, `_.-~`, `%` and `+` |
| `FormEncoding.EncodeNoSpaceByte` | skiptracer.py:126 | text without spaces has no 0x20 byte in its UTF-8 encoding |
| `FormEncoding.QuoteBytesNoPlus` | skiptracer.py:126 | bytes without 0x20 are quoted without `+` |
| `FormEncoding.QuotePlusNoPlus` | skiptracer.py:126 | text without spaces is quoted without `+` |
| `SkipTracer.TruePeopleSearchUrlCarriesAddress` | skiptracer.py:90 | the TruePeopleSearch URL is the fixed query prefix followed by a parameter that decodes to the UTF-8 bytes of the whole address |
| `SkipTracer.TruePeopleSearchUrlInjective` | skiptracer.py:90 | distinct addresses are searched on TruePeopleSearch under distinct URLs |
| `SkipTracer.FastPeopleSearchUrlCarriesSlug` | skiptracer.py:126-127 | the FastPeopleSearch URL is the fixed path followed by one segment that decodes to the UTF-8 bytes of the slug and holds no `/`, `?`, `#` or `+` |
| `SkipTracer.FastPeopleSearchUrlInjective` | skiptracer.py:126-127 | two addresses share a FastPeopleSearch URL only when they have the same slug |
| `SkipTracer.ContainsIff` | skiptracer.py:100 | `href=re.compile(marker)` accepts an `href` exactly when the marker occurs somewhere in it |
| `SkipTracer.FindLink` | skiptracer.py:100 | the name link is the first link whose `href` contains the site's marker; none is found only when no link has it |
| `SkipTracer.KeptAppend` | skiptracer.py:99-114 | cards are filtered one by one: the records of a concatenated page are the records of its parts, in order |
| `SkipTracer.NoNameLinkNoRecord` | skiptracer.py:100-102 | a card without a name link never yields a record, wherever it stands |
| `SkipTracer.KeptCards` | skiptracer.py:99-114 | at most one record per card, and only from a card with a name link and a non-empty name or some phone |
| `SkipTracer.SearchResultFacts` | skiptracer.py:108-114 | every record is tagged with the site's constant, has a name or a phone, and carries only distinct, formatted phone numbers |
| `SkipTracer.RecordsFromCards` | skiptracer.py:98-114 | the card loop emits, in page order, exactly one record per card that has a name link and a name or phones, with that card's name, phones, city/state and the site's source |
| `SkipTracer.Search` | skiptracer.py:86-119 | a search raises exactly when fetching raises; no HTML gives `[]`; a page gives the card loop's records |
| `SkipTracer.SkipTrace` | skiptracer.py:159-177 | TruePeopleSearch's records when it offers any, otherwise FastPeopleSearch's when it offers any, otherwise `[]`, an exception counting as no records; all results come from one site |

## Left out

- `_fetch_html` (a headless browser per attempt, up to three attempts retried on HTTP 403 or a caught error, `logs/debug_last.html`): I/O; its outcome, including an exception escaping it, is the `fetch` parameter.
- HTML parsing and CSS selection (`BeautifulSoup`, `div.card` or `div.result`, `get_text`): a foreign library over site-owned markup; a card is given as links, an optional address text and its text.
- The random choice of user agent and the request headers: nondeterministic, no behaviour to state.
- The `__main__` command line and JSON printing, and all `debug` printing: console I/O.
- `human_behavior_ml.py`: loading and training reinforcement-learning models through file and library calls; its only local logic is a floating-point clamp.
- `Chars.IsDigit`: Python's `\d` and `\D` also treat non-ASCII decimal digits as digits; the model accepts only `0`-`9`.
- `Chars.ToLower`: `str.lower()` also lower-cases non-ASCII letters (and can lengthen a string); the model lower-cases ASCII `A`-`Z` only, so `Slug.SlugClean` speaks of ASCII upper-case letters.
- `SkipTracer.Search`: a Python `str` can hold lone surrogates (command-line bytes that are not valid UTF-8 arrive that way), and `quote_plus` then raises `UnicodeEncodeError` before anything is fetched, so both searches raise and `skip_trace` returns `[]`; Dafny's `char` holds Unicode scalar values only, so this input and that exception path are not modelled.
- `Phones.ListOf`: the order of `list(set)` depends on Python's string hashing; the model leaves it open rather than fixing one.
- `FormEncoding.FormDecode`: a strict reference decoder used to state the round trip, not a model of `unquote_plus`, which decodes to text and tolerates malformed escapes.
