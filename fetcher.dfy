/** The `NameFetcher` object: the injected dictionaries, and the greeting,
    first name and surname its methods overwrite step by step */
module Fetcher {
  import opened Wrappers
  import opened PyStr
  import opened Lexical
  import opened Matching
  import opened PageText
  import opened Resolver

  class NameFetcher {
    const companyName: string
    const siteQueries: seq<string>
    const brandNames: set<string>
    /** The first-name set, listed in its iteration order */
    const firstNames: seq<string>
    const commonWords: set<string>
    /** Stands for `get_tld(link, fail_silently=True, as_object=True).domain`;
        None where `get_tld` fails and reading `.domain` raises */
    const domainLabelOf: string -> Option<string>

    var greeting: string
    var first: string
    var last: string

    function State(): Names
      reads this
    {
      Names(greeting, first, last)
    }

    function Ctx(): Context {
      Context(firstNames, commonWords, siteQueries, domainLabelOf)
    }

    /** `brandLines` are the lines of the brand-name file, each with its
        newline; a new fetcher holds the sentinel state */
    constructor (companyName: string, siteQueries: seq<string>, brandLines: seq<string>,
                 firstNames: seq<string>, commonWords: set<string>, domainLabelOf: string -> Option<string>)
      ensures this.companyName == companyName && this.siteQueries == siteQueries
      ensures this.brandNames == set line | line in brandLines :: StripBy(line, IsNewline)
      ensures this.firstNames == firstNames && this.commonWords == commonWords && this.domainLabelOf == domainLabelOf
      ensures State() == Sentinel
    {
      this.companyName := companyName;
      this.siteQueries := siteQueries;
      this.brandNames := set line | line in brandLines :: StripBy(line, IsNewline);
      this.firstNames := firstNames;
      this.commonWords := commonWords;
      this.domainLabelOf := domainLabelOf;
      greeting := "To";
      first := "Whom It";
      last := "May Concern";
    }

    /** `compare_username_against_firstnames_set(username)` */
    method CompareUsernameAgainstFirstnamesSet(username: string) returns (r: Names)
      modifies this
      ensures r == State() == UsernameMatch(firstNames, username)
    {
      greeting := "Dear";
      var candidates := Candidates(firstNames, username);
      if |candidates| == 1 {
        first := Title(candidates[0]);
        last := Title(SliceFrom(username, |first| + 1));
      } else if |candidates| >= 2 {
        first := Title(FirstLongest(candidates));
        last := Title(SliceFrom(username, |first|));
      } else {
        var half := |username| / 2;
        first, last := Title(SliceTo(username, half)), Title(SliceFrom(username, half - 1));
      }
      r := State();
    }

    /** `fetch_names_from_linkedin_urls(link)`; None when the slug
        extraction raises, with the state untouched */
    method FetchNamesFromLinkedinUrls(link: string) returns (r: Option<Names>)
      modifies this
      ensures r == LinkedinNames(firstNames, link, domainLabelOf)
      ensures State() == if r.Some? then r.value else old(State())
    {
      var slug := FetchUsernameStrFromLink(link, domainLabelOf);
      if slug.None? {
        return None;
      }
      var username := slug.value;
      var dashes := Count(username, '-');
      if dashes == 0 {
        var _ := CompareUsernameAgainstFirstnamesSet(username);
      } else if dashes == 1 {
        SplitEvery(username, '-', 1);
        var parts := Split(username, '-', 1);
        first, last := parts[0], parts[1];
        greeting, first, last := "Dear", Title(first), Title(last);
      } else {
        SplitEvery(username, '-', dashes);
        var parts := Split(username, '-', dashes);
        var middle := parts[1];
        first, last := parts[0], parts[2];
        if ContainsDigit(last) {
          last := middle;
        }
        // otherwise the source calls `first.join(f" {middle}")` and drops
        // the result, so the first name stays as it is
        greeting, first, last := "Dear", Title(first), Title(last);
      }
      r := Some(State());
    }

    /** `fetch_names_from_page_sources(soup)` with `text` for `soup.text`:
        the first name is replaced first, then every pair `next_grams`
        yields overwrites the whole state in turn */
    method FetchNamesFromPageSources(text: string) returns (r: Names)
      modifies this
      ensures r == State() == PageNames(text, old(State()), firstNames, commonWords)
    {
      ghost var before := State();
      var body := Body(text, commonWords);
      var chosen := ReplaceFirst(body);
      var grams := NextGrams(body, chosen);
      PageNamesCases(text, before, firstNames, commonWords, chosen, grams);
      if grams.Some? {
        OverwriteWithPairs(grams.value);
      }
      r := State();
    }

    /** `self.first = max(first_names, key=len)`, kept as it was when the
        ValueError of an empty `first_names` is caught */
    method ReplaceFirst(body: seq<string>) returns (chosen: string)
      modifies this
      ensures chosen == first == ChosenFirst(body, firstNames, old(first))
      ensures greeting == old(greeting) && last == old(last)
    {
      var names := FirstNameTokens(body, firstNames);
      if |names| > 0 {
        first := FirstLongest(names);
      }
      chosen := first;
    }

    /** The `for name in full_names` loop: every pair overwrites the whole
        state, so the last one stands. A surname found in the brand names is
        only logged. */
    method OverwriteWithPairs(pairs: seq<(string, string)>)
      modifies this
      ensures State() == if |pairs| == 0 then old(State())
                         else Names("Dear", pairs[|pairs| - 1].0, pairs[|pairs| - 1].1)
    {
      var i := 0;
      while i < |pairs|
        invariant 0 <= i <= |pairs|
        invariant State() == if i == 0 then old(State()) else Names("Dear", pairs[i - 1].0, pairs[i - 1].1)
      {
        greeting, first, last := "Dear", pairs[i].0, pairs[i].1;
        i := i + 1;
      }
    }

    /** One iteration of the loop of `parse_provided_search_queries`: false
        when an exception escapes it, the state then being untouched */
    method ProcessLink(c: Candidate) returns (ok: bool)
      requires |siteQueries| >= 1
      modifies this
      ensures Step(Ctx(), old(State()), c) == if ok then Some(State()) else None
      ensures !ok ==> State() == old(State())
    {
      var link := c.url;
      if Contains(link, siteQueries[0]) {
        var r := FetchNamesFromLinkedinUrls(link);
        return r.Some?;
      }
      var marker := ReservedMarker(siteQueries);
      if marker.None? {
        // `site_queries[1] or ...` reads past the end: IndexError
        return false;
      }
      if !StartsWith(link, marker.value) {
        // not reserved: the brand branch, whose test `[...] != 0` always holds
        match c.page
        case None =>
          // `None.text` raises AttributeError, which is caught
        case Some(page) =>
          var _ := FetchNamesFromPageSources(page);
      }
      ok := true;
    }

    /** `parse_provided_search_queries()` over the search results `links`:
        the card of the final state, or None when an exception escapes,
        the state then being what it was when it was raised */
    method ParseProvidedSearchQueries(links: seq<Candidate>) returns (card: Option<BusinessCard>)
      modifies this
      ensures var run := Resolve(Ctx(), old(State()), links);
        State() == run.state && card == if run.crashed then None else Some(Card(run.state, companyName))
    {
      if |siteQueries| == 0 {
        return None;
      }
      ghost var start := State();
      var i := 0;
      while i < |links|
        invariant 0 <= i <= |links|
        invariant Fold(StepOf(Ctx()), start, links[..i]) == Run(State(), false)
      {
        ghost var before := State();
        var ok := ProcessLink(links[i]);
        FoldAdvance(StepOf(Ctx()), start, links, i, before, if ok then Some(State()) else None);
        if !ok {
          return None;
        }
        i := i + 1;
      }
      assert links[..i] == links;
      card := Some(BusinessCard(greeting, first, last, first + " " + last, companyName));
    }
  }
}
