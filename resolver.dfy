/** The loop of `parse_provided_search_queries` as a left fold: link
    classification, one step per link, and the properties of the fold */
module Resolver {
  import opened Wrappers
  import opened PyStr
  import opened Lexical
  import opened Matching
  import opened PageText

  /** What the fold reads but never changes: the first-name dictionary (in
      its iteration order), the common-word corpus, `config.site_queries`,
      and `get_tld(...).domain` (None where it raises) */
  datatype Context = Context(
    firstNames: seq<string>,
    commonWords: set<string>,
    siteQueries: seq<string>,
    domainLabelOf: string -> Option<string>)

  /** One search result: its URL, and what `webscrape_results` returns for
      it — the page text, or None when the fetch failed */
  datatype Candidate = Candidate(url: string, page: Option<string>)

  /** The record `parse_provided_search_queries` returns */
  datatype BusinessCard = BusinessCard(greeting: string, fname: string, surname: string, fullname: string, workplace: string)

  /** The card built from the final state */
  function Card(n: Names, companyName: string): BusinessCard {
    BusinessCard(n.greeting, n.first, n.last, n.first + " " + n.last, companyName)
  }

  /** The card loses nothing of the state: greeting, first name and
      surname are read back from it, and two cards are equal exactly when
      they come from the same state and company */
  lemma CardKeepsState(n: Names, m: Names, company: string, other: string)
    ensures var r := Card(n, company); Names(r.greeting, r.fname, r.surname) == n
    ensures Card(n, company) == Card(m, other) <==> n == m && company == other
  {
  }

  /** `site_queries[1] or site_queries[2] or site_queries[3]`: the first
      non-empty of the three reserved markers, or the third when all are
      empty; None where an index is out of range (an IndexError, raised
      only once the evaluation reaches that index) */
  function ReservedMarker(siteQueries: seq<string>): (r: Option<string>)
    ensures |siteQueries| >= 4 ==> r.Some?
    ensures r.Some? ==>
      exists k :: 1 <= k <= 3 && k < |siteQueries| && r.value == siteQueries[k] &&
        (forall j :: 1 <= j < k ==> siteQueries[j] == "") && (r.value == "" ==> k == 3)
  {
    if |siteQueries| < 2 then None
    else if siteQueries[1] != "" then Some(siteQueries[1])
    else if |siteQueries| < 3 then None
    else if siteQueries[2] != "" then Some(siteQueries[2])
    else if |siteQueries| < 4 then None
    else Some(siteQueries[3])
  }

  /** The branch a link takes. The brand branch is always taken once the
      first two tests fail, because its test compares a list with 0.
      `QueryMissing` is the IndexError of reading a site query the list
      does not have. */
  datatype Route = LinkedIn | Reserved | Page | QueryMissing

  function Classify(siteQueries: seq<string>, url: string): Route {
    if |siteQueries| == 0 then QueryMissing
    else if Contains(url, siteQueries[0]) then LinkedIn
    else match ReservedMarker(siteQueries)
      case None => QueryMissing
      case Some(m) => if StartsWith(url, m) then Reserved else Page
  }

  /** One iteration of the loop: the new state, or None when an exception
      escapes it */
  function Step(ctx: Context, s: Names, c: Candidate): Option<Names> {
    match Classify(ctx.siteQueries, c.url)
    case LinkedIn => LinkedinNames(ctx.firstNames, c.url, ctx.domainLabelOf)
    case Reserved => Some(s)
    case Page => (
      match c.page
      case None => Some(s)
      case Some(text) => Some(PageNames(text, s, ctx.firstNames, ctx.commonWords)))
    case QueryMissing => None
  }

  /** A loop body: the new state, or None when an exception escapes */
  type StepFn = (Names, Candidate) -> Option<Names>

  /** The loop body of `parse_provided_search_queries` under `ctx` */
  function StepOf(ctx: Context): StepFn {
    (s: Names, c: Candidate) => Step(ctx, s, c)
  }

  /** The state after a run, and whether an exception ended it */
  datatype Run = Run(state: Names, crashed: bool)

  /** The loop over the links, processed left to right: once an exception
      escapes, nothing after it runs */
  function Fold(step: StepFn, prior: Names, links: seq<Candidate>): Run {
    if links == [] then Run(prior, false)
    else
      var before := Fold(step, prior, links[..|links| - 1]);
      if before.crashed then before
      else match step(before.state, links[|links| - 1])
        case None => Run(before.state, true)
        case Some(n) => Run(n, false)
  }

  /** `parse_provided_search_queries` from state `prior`: reading
      `site_queries[0]` raises first when the list is empty */
  function Resolve(ctx: Context, prior: Names, links: seq<Candidate>): Run {
    if |ctx.siteQueries| == 0 then Run(prior, true) else Fold(StepOf(ctx), prior, links)
  }

  /** No links: a fresh fetcher returns the sentinel card */
  lemma EmptyLinksSentinel(ctx: Context, companyName: string)
    requires |ctx.siteQueries| >= 1
    ensures var run := Resolve(ctx, Sentinel, []);
      !run.crashed
      && Card(run.state, companyName) == BusinessCard("To", "Whom It", "May Concern", "Whom It May Concern", companyName)
  {
  }

  /** A link that does not contain the professional-network marker and
      starts with the reserved marker leaves the state as it is */
  lemma ReservedLinkUnchanged(ctx: Context, s: Names, c: Candidate)
    requires |ctx.siteQueries| >= 1
    requires !Contains(c.url, ctx.siteQueries[0])
    requires ReservedMarker(ctx.siteQueries).Some? && StartsWith(c.url, ReservedMarker(ctx.siteQueries).value)
    ensures Step(ctx, s, c) == Some(s)
  {
  }

  /** Only the first non-empty reserved marker is tested: a link starting
      with a later one goes to page-text extraction */
  lemma LaterMarkerIgnored(ctx: Context, c: Candidate)
    requires |ctx.siteQueries| >= 4 && ctx.siteQueries[1] != ""
    requires !Contains(c.url, ctx.siteQueries[0]) && !StartsWith(c.url, ctx.siteQueries[1])
    ensures Classify(ctx.siteQueries, c.url) == Page
  {
  }

  /** With all three reserved markers empty the test is `startswith("")`,
      which every link passes */
  lemma EmptyMarkersSkipAll(ctx: Context, c: Candidate)
    requires |ctx.siteQueries| >= 4
    requires ctx.siteQueries[1] == "" && ctx.siteQueries[2] == "" && ctx.siteQueries[3] == ""
    ensures Classify(ctx.siteQueries, c.url) == LinkedIn || Classify(ctx.siteQueries, c.url) == Reserved
  {
  }

  /** A page that could not be fetched (`None.text` raises AttributeError,
      which is caught) leaves the state as it is */
  lemma FailedFetchUnchanged(ctx: Context, s: Names, c: Candidate)
    requires Classify(ctx.siteQueries, c.url) == Page && c.page.None?
    ensures Step(ctx, s, c) == Some(s)
  {
  }

  /** A link whose step changes nothing: a reserved one, or a page that
      could not be fetched */
  predicate Inert(ctx: Context, c: Candidate)
  {
    Classify(ctx.siteQueries, c.url) == Reserved || (Classify(ctx.siteQueries, c.url) == Page && c.page.None?)
  }

  /** One more link runs one more step, unless an exception already
      escaped */
  lemma FoldSnoc(step: StepFn, prior: Names, links: seq<Candidate>, d: Candidate)
    ensures var before := Fold(step, prior, links);
      Fold(step, prior, links + [d])
        == if before.crashed then before
           else if step(before.state, d).None? then Run(before.state, true)
           else Run(step(before.state, d).value, false)
  {
    assert (links + [d])[..|links|] == links;
  }

  /** The fold advanced by one link whose step gives `next` */
  lemma FoldAdvance(step: StepFn, prior: Names, links: seq<Candidate>, i: nat, s: Names, next: Option<Names>)
    requires i < |links| && Fold(step, prior, links[..i]) == Run(s, false)
    requires step(s, links[i]) == next
    ensures next.Some? ==> Fold(step, prior, links[..i + 1]) == Run(next.value, false)
    ensures next.None? ==> Fold(step, prior, links) == Run(s, true)
  {
    FoldSnoc(step, prior, links[..i], links[i]);
    assert links[..i + 1] == links[..i] + [links[i]];
    if next.None? {
      CrashStops(step, prior, links, i + 1);
    }
  }

  /** Last success wins: after a link whose step gives `n` from every
      state, only inert links follow, and the result is `n` whatever came
      before. `StepResolved` and `PageResolved` give the links whose step
      is such. */
  lemma LastSuccessWins(ctx: Context, prior: Names, pre: seq<Candidate>, c: Candidate, post: seq<Candidate>, n: Names)
    requires !Fold(StepOf(ctx), prior, pre).crashed
    requires forall s :: Step(ctx, s, c) == Some(n)
    requires forall k :: 0 <= k < |post| ==> Inert(ctx, post[k])
    ensures Fold(StepOf(ctx), prior, pre + [c] + post) == Run(n, false)
  {
    var step := StepOf(ctx);
    FoldSnoc(step, prior, pre, c);
    assert step(Fold(step, prior, pre).state, c) == Some(n);
    forall k, s | 0 <= k < |post| ensures step(s, post[k]) == Some(s) {
      InertStep(ctx, s, post[k]);
    }
    FoldKeeps(step, prior, pre + [c], post);
  }

  /** A fetched page with a first-name token whose pairing yields pairs
      sets the state to "Dear", the first longest first-name token and the
      surname of the last pair, whatever the state was */
  lemma PageResolved(ctx: Context, c: Candidate, text: string, pairs: seq<(string, string)>)
    requires Classify(ctx.siteQueries, c.url) == Page && c.page == Some(text)
    requires |FirstNameTokens(Body(text, ctx.commonWords), ctx.firstNames)| > 0
    requires NextGrams(Body(text, ctx.commonWords), FirstLongest(FirstNameTokens(Body(text, ctx.commonWords), ctx.firstNames))) == Some(pairs)
    requires |pairs| > 0
    ensures forall s :: (Step(ctx, s, c)
      == Some(Names("Dear", FirstLongest(FirstNameTokens(Body(text, ctx.commonWords), ctx.firstNames)), pairs[|pairs| - 1].1)))
  {
    forall s ensures Step(ctx, s, c) == Some(PageNames(text, s, ctx.firstNames, ctx.commonWords)) {
    }
    forall s {
      PageWithName(text, s, ctx.firstNames, ctx.commonWords, pairs);
    }
  }

  /** Links on which the step changes nothing leave the fold as it was */
  lemma {:induction false} FoldKeeps(step: StepFn, prior: Names, links: seq<Candidate>, post: seq<Candidate>)
    requires !Fold(step, prior, links).crashed
    requires forall k, s :: 0 <= k < |post| ==> step(s, post[k]) == Some(s)
    ensures Fold(step, prior, links + post) == Fold(step, prior, links)
  {
    if post == [] {
      assert links + post == links;
    } else {
      var init := post[..|post| - 1];
      var d := post[|post| - 1];
      assert links + post == (links + init) + [d];
      assert forall k :: 0 <= k < |init| ==> init[k] == post[k];
      FoldKeeps(step, prior, links, init);
      var before := Fold(step, prior, links + init);
      assert step(before.state, d) == Some(before.state);
      FoldSnoc(step, prior, links + init, d);
    }
  }

  /** The loop body on a LinkedIn link that resolves */
  lemma StepResolved(ctx: Context, s: Names, c: Candidate, n: Names)
    requires Classify(ctx.siteQueries, c.url) == LinkedIn
    requires LinkedinNames(ctx.firstNames, c.url, ctx.domainLabelOf) == Some(n)
    ensures StepOf(ctx)(s, c) == Some(n)
  {
  }

  /** The loop body on an inert link */
  lemma InertStep(ctx: Context, s: Names, c: Candidate)
    requires Inert(ctx, c)
    ensures StepOf(ctx)(s, c) == Some(s)
  {
  }

  /** Of two LinkedIn links that both resolve, the later one decides */
  lemma LaterLinkedInWins(ctx: Context, prior: Names, c1: Candidate, c2: Candidate, n1: Names, n2: Names)
    requires Classify(ctx.siteQueries, c1.url) == LinkedIn && Classify(ctx.siteQueries, c2.url) == LinkedIn
    requires LinkedinNames(ctx.firstNames, c1.url, ctx.domainLabelOf) == Some(n1)
    requires LinkedinNames(ctx.firstNames, c2.url, ctx.domainLabelOf) == Some(n2)
    ensures Fold(StepOf(ctx), prior, [c1, c2]) == Run(n2, false)
  {
    var step := StepOf(ctx);
    FoldSnoc(step, prior, [], c1);
    assert [] + [c1] == [c1];
    StepResolved(ctx, prior, c1, n1);
    assert [c1] + [c2] == [c1, c2];
    FoldSnoc(step, prior, [c1], c2);
    StepResolved(ctx, n1, c2, n2);
  }

  /** The links other than the reserved ones, in their order */
  function DropReserved(ctx: Context, links: seq<Candidate>): (r: seq<Candidate>)
    ensures forall c :: c in r <==> c in links && Classify(ctx.siteQueries, c.url) != Reserved
    ensures |r| <= |links|
  {
    if links == [] then []
    else
      var init := links[..|links| - 1];
      var d := links[|links| - 1];
      var rest := DropReserved(ctx, init);
      assert forall c :: c in links <==> c in init || c == d;
      if Classify(ctx.siteQueries, d.url) == Reserved then rest else rest + [d]
  }

  /** Dropping reserved links keeps a single link exactly when it is not
      reserved */
  lemma DropReservedOne(ctx: Context, c: Candidate)
    ensures DropReserved(ctx, [c]) == if Classify(ctx.siteQueries, c.url) == Reserved then [] else [c]
  {
    assert [c][..0] == [];
  }

  /** Dropping reserved links works piece by piece, so the kept links stay
      in their order */
  lemma {:induction false} DropReservedAppend(ctx: Context, a: seq<Candidate>, b: seq<Candidate>)
    ensures DropReserved(ctx, a + b) == DropReserved(ctx, a) + DropReserved(ctx, b)
  {
    if b == [] {
      assert a + b == a;
    } else {
      var init := b[..|b| - 1];
      var d := b[|b| - 1];
      DropReservedAppend(ctx, a, init);
      assert (a + b)[..|a + b| - 1] == a + init;
      assert (a + b)[|a + b| - 1] == d;
    }
  }

  /** Reserved links never alter the result, wherever they stand */
  lemma {:induction false} ReservedLinksIrrelevant(ctx: Context, prior: Names, links: seq<Candidate>)
    ensures Fold(StepOf(ctx), prior, links) == Fold(StepOf(ctx), prior, DropReserved(ctx, links))
  {
    if links != [] {
      var step := StepOf(ctx);
      var init := links[..|links| - 1];
      var d := links[|links| - 1];
      ReservedLinksIrrelevant(ctx, prior, init);
      var kept := DropReserved(ctx, links);
      if Classify(ctx.siteQueries, d.url) != Reserved {
        assert kept == DropReserved(ctx, init) + [d];
        FoldSnoc(step, prior, DropReserved(ctx, init), d);
      } else {
        var before := Fold(step, prior, init);
        if !before.crashed {
          InertStep(ctx, before.state, d);
        }
      }
    }
  }

  /** Once an exception has escaped, the later links change nothing */
  lemma {:induction false} CrashStops(step: StepFn, prior: Names, links: seq<Candidate>, i: nat)
    requires i <= |links| && Fold(step, prior, links[..i]).crashed
    ensures Fold(step, prior, links) == Fold(step, prior, links[..i])
    decreases |links| - i
  {
    if i < |links| {
      assert links[..i + 1][..i] == links[..i];
      CrashStops(step, prior, links, i + 1);
    } else {
      assert links[..i] == links;
    }
  }
}
