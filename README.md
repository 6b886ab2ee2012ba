# Contact-name resolution, modelled in Dafny

This project models the identity-resolution core of a cover-letter
generator: `NameFetcher` in `scrape/namefetcher.py`. Given a company name
and a short list of candidate links (search results), it works out a
contact's greeting, first name and surname, and returns them as a
`BusinessCard`.

- A fetcher starts in the sentinel state "To" / "Whom It" / "May Concern".
- It walks the links in order. Each link is classified:
  - a professional-network (LinkedIn) link is parsed as a vanity slug;
  - a link starting with the first non-empty reserved marker is skipped;
  - any other link has its page text mined for a dictionary first name
    and the camel-case word after it.
- Each successful extraction overwrites the whole state, so the last
  successful link decides the card.

The model takes the source's own form:

- The fetcher is a class (`Fetcher.NameFetcher`) whose methods update
  `greeting`, `first` and `last` in place. Its loops are `while` loops,
  proved against pure specification functions.
- The pure helpers (`next_grams`, `upper_camel_case_split`,
  `fetch_username_str_from_link`) and the extractors are functions, and
  the lemmas about them state what the code does.
- Python string built-ins are written out over ASCII in module `PyStr`:
  - `str.title`, `lower` and `strip`;
  - `split` with `maxsplit`, `count`, `find` and `in`;
  - slice-index normalisation.

Modules:

- `Wrappers`: the `Option` datatype.
- `PyStr`: the Python string built-ins.
- `Lexical`:
  - `upper_camel_case_split`, as a scanner for the regular expression
    `[A-Z](?:[a-z]+|[A-Z]*(?=[A-Z]|$))`;
  - `next_grams`;
  - `fetch_username_str_from_link`.
- `Matching`: the username matcher and the vanity-slug parser.
- `PageText`: the page-text extractor.
- `Resolver`:
  - the link classifier and the per-link step;
  - the left fold over the links and the card.
- `Fetcher`: the `NameFetcher` class.
- `Corrected`: a separately flagged variant with the four defects below
  repaired. Nothing else depends on it.

Outside collaborators are parameters:

- The links are a given sequence, each with the page text that
  `webscrape_results` would give (`None` when fetching or parsing fails).
- `get_tld(...).domain` is a function `domainLabelOf` returning `None`
  when `get_tld` fails.
- The first-name list, the common-word set and the brand-name file's lines
  are constructor arguments.

The model follows the code as written, including where it does not do what
its names and comments lead one to expect:

- The username matcher on "johnsmith" with "John" as the only prefix
  yields surname "Mith", not "Smith".
- Names taken from page text are not title-cased.
- A professional-network link with no "/in/" whose domain label cannot be
  obtained raises AttributeError out of the whole call, ending the loop,
  and so does the IndexError of a missing reserved marker, although
  page-fetch and parse failures are caught inside the loop.
- The "no brand match" branch is unreachable.
- Fields may be empty strings (e.g. a slug "jane-" gives surname "").
- In the model (reading `is` as equality), a page link's outcome can
  depend on earlier links. When the page holds
  no dictionary name, the first name carried over from an earlier link is
  the one paired: `PageText.PageDependsOnPrior` shows "Zed Smith" giving
  Dear Zed Smith after a first name "Zed", while after "Amy" the state is
  kept. This rests on reading `is` as equality (see "Left out").

## Model

| member | source | states |
|---|---|---|
| Fetcher.NameFetcher.constructor | scrape/namefetcher.py:32-50 | brand names are the file's lines with newlines stripped; first names and common words are kept as given; the state is the sentinel "To" / "Whom It" / "May Concern" |
| Fetcher.NameFetcher.ParseProvidedSearchQueries | scrape/namefetcher.py:68-152 | after the loop over the links, the state is that of the left fold `Resolve` over them; the card is `Card(state, companyName)`, or none when an exception escapes (an empty `site_queries`, a missing reserved marker, a domain label that cannot be read) |
| Fetcher.NameFetcher.ProcessLink | scrape/namefetcher.py:77-144 | one loop iteration changes the state exactly as `Step` says, and reports false, leaving the state alone, when an exception escapes it |
| Fetcher.NameFetcher.FetchNamesFromLinkedinUrls | scrape/namefetcher.py:197-242 | returns and stores the vanity-parser result for the link's slug; on an escaping exception the state is unchanged |
| Fetcher.NameFetcher.FetchNamesFromPageSources | scrape/namefetcher.py:154-195 | the returned and stored names are `PageNames` of the text and the previous state |
| Fetcher.NameFetcher.ReplaceFirst | scrape/namefetcher.py:171-180 | the first name becomes the first longest first-name token of the body, or stays when there is none; greeting and surname are untouched |
| Fetcher.NameFetcher.OverwriteWithPairs | scrape/namefetcher.py:185-194 | after the loop over the pairs the state is ("Dear", last pair), or unchanged when there are none; brand surnames are not rejected |
| Fetcher.NameFetcher.CompareUsernameAgainstFirstnamesSet | scrape/namefetcher.py:244-284 | returns and stores the username matcher's result |
| Resolver.CardKeepsState | scrape/namefetcher.py:146-152 | the card's greeting, fname and surname give the state back, and two cards are equal exactly when their states and companies are |
| Resolver.EmptyLinksSentinel | scrape/namefetcher.py:48-50 | with no links a fresh fetcher returns greeting "To", first "Whom It", last "May Concern", fullname "Whom It May Concern" and the company as workplace |
| Resolver.ReservedMarker | scrape/namefetcher.py:87-90 | `q1 or q2 or q3` is defined whenever there are four queries, and is the first non-empty of queries 1-3, or query 3 when all three are empty |
| Resolver.ReservedLinkUnchanged | scrape/namefetcher.py:87-92 | a link without the professional-network marker that starts with the first non-empty reserved marker leaves the state unchanged |
| Resolver.LaterMarkerIgnored | scrape/namefetcher.py:87-94 | with a non-empty first reserved marker, a link not starting with it goes to page extraction whatever the other two markers are |
| Resolver.EmptyMarkersSkipAll | scrape/namefetcher.py:80-92 | with all three reserved markers empty, every link is either professional-network or skipped |
| Resolver.FailedFetchUnchanged | scrape/namefetcher.py:94-114 | a page link whose fetch failed (the caught exception) leaves the state unchanged |
| Resolver.FoldAdvance | scrape/namefetcher.py:77-144 | the fold advanced by one link: the step's new state, or an escaping exception that fixes the final state |
| Resolver.FoldKeeps | scrape/namefetcher.py:77-144 | links on which the loop body changes nothing leave the outcome of the loop as it was |
| Resolver.StepResolved | scrape/namefetcher.py:80-85 | a LinkedIn link whose names resolve sets the state to them, whatever it was |
| Resolver.InertStep | scrape/namefetcher.py:87-114 | a reserved link, or a page link whose fetch failed, leaves the state as it was |
| Resolver.LastSuccessWins | scrape/namefetcher.py:77-144 | after a link whose step gives the same names from every state, followed only by links that change nothing, the final state is those names, whatever came before |
| Resolver.PageResolved | scrape/namefetcher.py:94-114 | a fetched page with a first-name token whose pairing yields pairs sets the state to "Dear", the first longest first-name token and the last pair's surname, from every state |
| Resolver.LaterLinkedInWins | scrape/namefetcher.py:77-85 | of two resolving LinkedIn links, the later one decides the state |
| Resolver.DropReserved | scrape/namefetcher.py:87-92 | a link is kept exactly when it is one of the links and not a reserved one, and no link is added |
| Resolver.DropReservedOne | scrape/namefetcher.py:87-92 | a single link is kept exactly when it is not reserved |
| Resolver.DropReservedAppend | scrape/namefetcher.py:77-92 | dropping reserved links from a concatenation drops them from each part, so the kept links stay in their order |
| Resolver.ReservedLinksIrrelevant | scrape/namefetcher.py:87-92 | removing the reserved links, wherever they stand, does not change the outcome of the loop |
| Resolver.CrashStops | scrape/namefetcher.py:77-144 | once an exception has escaped, the later links change nothing |
| Matching.UsernameOneCandidate | scrape/namefetcher.py:261-265 | with exactly one dictionary prefix n, first is title(strip(n)) and last is title(username[len + 1:]) |
| Matching.UsernameManyCandidates | scrape/namefetcher.py:267-273 | with two or more prefixes, first is the title of some longest candidate c and last is title(username[len(c):]) |
| Matching.UsernameMidpoint | scrape/namefetcher.py:276-283 | with no prefix, first is title(u[:n/2]) and last is title(u[n/2 - 1:]); below length 2 the index -1 gives the whole (one-character) username |
| Matching.MidpointOverlap | scrape/namefetcher.py:279-283 | both halves of the midpoint split share the character at the midpoint minus one |
| Matching.UsernameMidpointExample | scrape/namefetcher.py:276-283 | "xyzzy" with no dictionary prefix gives Dear Xy Yzzy |
| Matching.CandidateIsPrefix | scrape/namefetcher.py:257 | the candidate test `lower in u and u.find(lower) == 0` is exactly "the lower-cased entry is a prefix of u", case-sensitive on u |
| Matching.Candidates | scrape/namefetcher.py:254-258 | the candidates are exactly the stripped entries whose lower-case form begins the username |
| Matching.CandidatesOne | scrape/namefetcher.py:254-258 | a single entry is a candidate exactly when its lower-case form begins the username, and is kept stripped |
| Matching.CandidatesAppend | scrape/namefetcher.py:254-258 | the candidates of a concatenation are the candidates of each part, so they keep the dictionary's order |
| Matching.CandidatesCount | scrape/namefetcher.py:254-267 | the number of candidates, which picks the one- or many-candidates branch, is the number of entries whose lower-case form begins the username |
| Matching.FirstLongest | scrape/namefetcher.py:271 | `max(key=len)` is a longest element and the first of the longest |
| Matching.VanityOneDash | scrape/namefetcher.py:221-227 | a slug a-b with one dash gives Dear, title(a), title(b) |
| Matching.VanityManyDashes | scrape/namefetcher.py:229-240 | a slug with two or more dashes gives title(part 0) and title(part 2), or title(part 1) when part 2 contains a digit |
| Matching.VanityIgnoresTail | scrape/namefetcher.py:230 | pieces after the third never change the vanity result |
| Matching.VanityTitled | scrape/namefetcher.py:214-240 | every vanity result greets with "Dear" and is title-cased |
| Matching.VanityOneDashExample | scrape/namefetcher.py:221-227 | "jane-doe" gives Dear Jane Doe |
| Matching.VanityDigitExample | scrape/namefetcher.py:229-240 | "mary-jane-smith123" gives Dear Mary Jane |
| Matching.SplitLimitIrrelevant | scrape/namefetcher.py:230 | `split("-", maxsplit=counter)` with `counter` the dash count splits on every dash |
| PageText.BodyTokens | scrape/namefetcher.py:166-170 | the body keeps exactly the words whose lower-case form is not a common word |
| PageText.BodyTokensOne | scrape/namefetcher.py:168-170 | a single word is kept exactly when its lower-case form is not a common word |
| PageText.BodyTokensAppend | scrape/namefetcher.py:168-170 | the filter of a concatenation is the concatenation of the filters, so kept words stay in source order |
| PageText.FirstNameTokens | scrape/namefetcher.py:171-175 | the candidates are exactly the non-empty body tokens whose title-case is a dictionary first name |
| PageText.LongestNameToken | scrape/namefetcher.py:178 | `max(first_names, key=len)` is the body's first longest first-name token |
| PageText.PageWithName | scrape/namefetcher.py:177-194 | with a first-name token on the page and pairs from the pairing, the result is "Dear", the first longest first-name token and the last pair's surname, whatever the prior state |
| PageText.PageDependsOnPrior | scrape/namefetcher.py:177-194 | with no dictionary name on the page, "Zed Smith" gives Dear Zed Smith after a first name "Zed" and keeps the state after "Amy" |
| PageText.PageKeepsFirst | scrape/namefetcher.py:177-180 | when no body token title-cases into a first name, first keeps its previous value |
| PageText.PagePicksLongestName | scrape/namefetcher.py:171-178 | otherwise first becomes the first longest such token, as written (not title-cased) |
| PageText.PagePairing | scrape/namefetcher.py:182-194 | when every occurrence of the chosen name has a next token with a camel segment, the state is Dear, name, head of the token after its last occurrence; otherwise greeting and surname stay as before |
| PageText.PageNameAtEnd | scrape/namefetcher.py:182-194 | when the chosen name is the final token, no pair is applied |
| Lexical.NextGrams | scrape/namefetcher.py:287-305 | defined iff every occurrence of the target has a next token with a camel segment; each pair starts with the target; empty iff the target is absent; the last pair's surname is the head of the token after the last occurrence |
| Lexical.MatchAt | scrape/namefetcher.py:317 | a match starts at an upper-case letter and continues with only lower-case or only upper-case letters; an upper-case letter followed by a lower-case one always matches, taking the whole lower-case run |
| Lexical.SpansValid | scrape/namefetcher.py:317 | every span the scan reports is a match at or after its start, and each begins no earlier than the previous one ends |
| Lexical.UpperCamelCaseSplit | scrape/namefetcher.py:308-317 | every segment is non-empty, starts with an upper-case letter and holds only ASCII letters |
| Lexical.CamelSegmentsInOrder | scrape/namefetcher.py:317 | the segments are non-overlapping pieces of the input, in left-to-right order |
| Lexical.CamelNoUpper | scrape/namefetcher.py:317 | a string with no upper-case letter has no segment |
| Lexical.CamelCoversWords | scrape/namefetcher.py:317 | every upper-case letter followed by a lower-case one lies inside some segment |
| Lexical.CamelSegmentStable | scrape/namefetcher.py:317 | splitting a segment again gives that segment alone |
| Lexical.CamelCapitalRun | scrape/namefetcher.py:317 | a run of capitals stays together and gives its last letter back to the word after it: "HTTPServer" gives HTTP, Server |
| Lexical.SlugCutAtFirstMark | scrape/namefetcher.py:332-335 | with both '?' and '/' after "/in/", the slug is the stripped text up to the first of them |
| Lexical.SlugDropsLastChar | scrape/namefetcher.py:332-335 | with either '?' or '/' missing, the cut is -1 and the slug loses its last character |
| Lexical.SlugFromDomain | scrape/namefetcher.py:336-337 | a link without "/in/" yields the domain label |
| PyStr.Split | scrape/namefetcher.py:166 | `str.split` always gives at least one piece |
| PyStr.SplitJoin | scrape/namefetcher.py:222 | joining the pieces of a split with the separator gives the string back |
| PyStr.SplitEvery | scrape/namefetcher.py:230 | a split whose limit is negative or covers the separator count gives one piece more than that count, none holding the separator |
| PyStr.FindSub | scrape/namefetcher.py:257 | `find` gives the first occurrence, or -1 when there is none |
| PyStr.FindChar | scrape/namefetcher.py:334 | `find` of a character is -1 iff it is absent, and otherwise its first index |
| PyStr.StripBySpec | scrape/namefetcher.py:255 | `strip` keeps a piece of the string with stripped characters only around it and none at its ends |
| PyStr.TitleIdempotent | scrape/namefetcher.py:225-226 | `title` applied twice is `title` applied once |
| PyStr.TitleKeepsLetters | scrape/namefetcher.py:225-226 | `title` only changes case |
| Corrected.ReservedChainMissesSecond | scrape/namefetcher.py:87-91 | as written, a link starting with the second reserved marker is sent to page extraction |
| Corrected.BrandTestAlwaysTrue | scrape/namefetcher.py:94-123 | as written, a link without any brand name still goes to page extraction; the corrected classifier routes it to the username matcher |
| Corrected.OneCandidateSkipsChar | scrape/namefetcher.py:261-265 | as written, "johnsmith" with "John" gives surname "Mith"; corrected, "Smith" |
| Corrected.FixedUsernameSpells | scrape/namefetcher.py:254-273 | corrected: for dictionary entries with no surrounding whitespace, when some entry begins the username, first name and surname together spell the username |
| Corrected.SlugCutDropsChar | scrape/namefetcher.py:332-335 | as written, a slug that runs to the end of the link loses its last character; the corrected cut does not |
| Corrected.JaneDoeSlug | scrape/namefetcher.py:332-335 | as written "/in/jane-doe" gives "jane-do"; corrected "jane-doe" |
| Corrected.FixedSlugWhole | scrape/namefetcher.py:332-335 | corrected: the slug runs up to the first '?' or '/', or to the end of the link when neither occurs |
| Corrected.FixedReservedSkipped | scrape/namefetcher.py:87-92 | corrected: a link starting with any of the three reserved markers leaves the state unchanged |
| Corrected.FixedDomainRoute | scrape/namefetcher.py:116-123 | corrected: a link without a brand name is resolved by the corrected username matcher on its domain label |

## Left out

- `generate_urls_from_search_query` (scrape/namefetcher.py:52-66) is a web search; the links are given as a sequence.
- `webscrape_results` (scrape/web_scraper.py) is HTTP and HTML parsing; each link carries the text it would yield, or `None` when it raises one of the caught exceptions.
- `get_tld` is a foreign library; it is the parameter `domainLabelOf`, `None` standing for its silent failure.
- The brand-name file read and the nltk corpora in `__init__` are I/O; their contents are constructor arguments.
- Logging, everywhere.
- Unicode case mapping and Unicode digits: `title`, `lower`, the upper/lower-case tests and `\d` are ASCII only (whitespace for `strip` is Python's full set).
- Set iteration order: the first-name set is a sequence in its iteration order, so `max` ties resolve to the first longest in that order; brand names and common words are sets, compared by equality.
- Lexical.NextGrams: `is` at scrape/namefetcher.py:304 is modelled as string equality. In CPython the tokens of `split(" ")` are fresh objects (one-character strings aside), so `is` holds only for the token object `max` returned at line 178, the first longest first-name token. CPython pairs at most that one occurrence and never pairs a first name carried over from an earlier link. The model pairs every token equal to the name and keeps the last pair; one equal token that cannot be paired makes the whole pairing raise; and a carried-over first name is paired (PageText.PageDependsOnPrior).
- Distinct first names: nothing requires the entries of that sequence to be distinct. A repeated entry such as ["Ann", "Ann"] sends a username starting "ann" to the many-candidates branch, which a set cannot do.
- `num_grams` of `next_grams` is fixed at its default 1, the only value the code passes.
- The `self.first.join(...)` call at scrape/namefetcher.py:234 is a no-op and is not modelled.
- `fetch_username_str_from_link` models `partition("/in/")` as the text after the first "/in/".
- Fetcher.NameFetcher.ParseProvidedSearchQueries: a crash is reported as `None` instead of an exception, and the link list is not read lazily from a generator.
- scrape/coverletterwriter.py, scrape/builtinscrape.py, main.py, scrape/configs.py, scrape/striptags.py, scrape/dir.py and scrape/company_result.py are plumbing (PDF output, network, configuration, filesystem) and are not part of this model; the company is its name alone.

## Findings

| source | as written | input that shows it | evidently intended | confidence | as-written member | corrected member |
|---|---|---|---|---|---|---|
| scrape/namefetcher.py:87-91 | `link.startswith(q1 or q2 or q3)` tests only the first non-empty marker | markers ["lnk", "a:", "b:", "c:"], link "b:x" is not skipped | skip a link starting with any of the three markers | not executed; read from the code | Corrected.ReservedChainMissesSecond | Corrected.FixedReservedSkipped |
| scrape/namefetcher.py:94 | `[...] != 0` compares a list with 0 and always holds, so lines 116-123 never run | any link with no brand name in it goes to page extraction | `len([...]) != 0`, sending brand-free links to the username matcher on the domain label | not executed; read from the code | Corrected.BrandTestAlwaysTrue | Corrected.FixedDomainRoute |
| scrape/namefetcher.py:265 | `username[len(self.first) + 1:]` skips the character after a single matched first name | "johnsmith" with "John" gives "Mith" | `username[len(self.first):]`, giving "Smith" | not executed; read from the code | Corrected.OneCandidateSkipsChar | Corrected.FixedUsernameSpells |
| scrape/namefetcher.py:334-335 | `min(find("?"), find("/"))` is -1 when either mark is missing, cutting the last character | "/in/jane-doe" gives "jane-do" | cut at the first mark present, or keep the whole slug | not executed; read from the code | Corrected.JaneDoeSlug | Corrected.FixedSlugWhole |
