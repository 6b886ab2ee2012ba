/** CORRECTED VARIANT, not the behaviour of the source: the per-link step
    with the four defects listed under "Findings" in README.md repaired.
    Each repair sits beside a lemma exhibiting the defect in the as-written
    model and a lemma proving the intended property of the repair. */
module Corrected {
  import opened Wrappers
  import opened PyStr
  import opened Lexical
  import opened Matching
  import opened PageText
  import opened Resolver

  // Reserved markers: `link.startswith(q1 or q2 or q3)` tests one marker.

  /** The intended test: the link starts with any of the three markers */
  predicate IsReserved(siteQueries: seq<string>, url: string)
    requires |siteQueries| >= 4
  {
    StartsWith(url, siteQueries[1]) || StartsWith(url, siteQueries[2]) || StartsWith(url, siteQueries[3])
  }

  /** As written, a link starting with the second marker is not skipped
      when the first marker is non-empty */
  lemma ReservedChainMissesSecond()
    ensures var qs := ["lnk", "a:", "b:", "c:"];
      Classify(qs, "b:x") == Page && IsReserved(qs, "b:x")
  {
    var qs := ["lnk", "a:", "b:", "c:"];
    MarkerFacts();
    assert ReservedMarker(qs) == Some("a:");
  }

  /** The string facts the reserved-marker example rests on */
  lemma MarkerFacts()
    ensures !Contains("b:x", "lnk") && !StartsWith("b:x", "a:") && StartsWith("b:x", "b:")
  {
    assert !OccursAt("b:x", "lnk", 0) by {
      assert "b:x"[0..3] == "b:x";
    }
    assert "b:x"[..2] == "b:";
  }

  // Brand test: `[...] != 0` compares a list with an int.

  /** Some brand name occurs in the link */
  predicate HasBrand(brandNames: set<string>, url: string) {
    exists b :: b in brandNames && Contains(url, b)
  }

  /** The intended routes: brand links to page text, other links to the
      username matcher on the link's domain label */
  datatype FixedRoute = FixedLinkedIn | FixedReserved | BrandPage | DomainUsername

  function FixedClassify(siteQueries: seq<string>, brandNames: set<string>, url: string): FixedRoute
    requires |siteQueries| >= 4
  {
    if Contains(url, siteQueries[0]) then FixedLinkedIn
    else if IsReserved(siteQueries, url) then FixedReserved
    else if HasBrand(brandNames, url) then BrandPage
    else DomainUsername
  }

  /** As written, a link without any brand name still goes to page-text
      extraction, never to the username matcher of lines 116-123 */
  lemma BrandTestAlwaysTrue(qs: seq<string>, brandNames: set<string>, url: string)
    requires |qs| >= 4 && !Contains(url, qs[0]) && !StartsWith(url, ReservedMarker(qs).value)
    requires !IsReserved(qs, url) && !HasBrand(brandNames, url)
    ensures Classify(qs, url) == Page && FixedClassify(qs, brandNames, url) == DomainUsername
  {
  }

  // One candidate: `username[len(self.first) + 1:]` skips a character.

  /** The username matcher with the surname taken right after the prefix */
  function FixedUsernameMatch(firstNames: seq<string>, username: string): Names {
    var cs := Candidates(firstNames, username);
    if |cs| == 1 then Names("Dear", Title(cs[0]), Title(SliceFrom(username, |cs[0]|)))
    else UsernameMatch(firstNames, username)
  }

  /** A prefix of the username and the rest after it spell the username */
  lemma PrefixSpells(c: string, username: string)
    requires StartsWith(username, Lower(c))
    ensures Lower(Title(c)) + Lower(Title(username[|c|..])) == Lower(username)
  {
    TitleKeepsLetters(c);
    TitleKeepsLetters(username[|c|..]);
    var u := username;
    assert u == u[..|c|] + u[|c|..];
    assert Lower(u) == Lower(u[..|c|]) + Lower(u[|c|..]);
    assert Lower(Lower(c)) == Lower(c);
  }

  /** With whitespace-free entries and at least one candidate, first name
      and surname together spell the username */
  lemma FixedUsernameSpells(firstNames: seq<string>, username: string)
    requires forall n :: n in firstNames ==> Strip(n) == n
    requires |Candidates(firstNames, username)| >= 1
    ensures var r := FixedUsernameMatch(firstNames, username);
      Lower(r.first) + Lower(r.last) == Lower(username)
  {
    var cs := Candidates(firstNames, username);
    var r := FixedUsernameMatch(firstNames, username);
    if |cs| == 1 {
      CandidateSpells(firstNames, username, cs[0]);
      assert r.first == Title(cs[0]) && r.last == Title(username[|cs[0]|..]);
    } else {
      var c := FirstLongest(cs);
      CandidateSpells(firstNames, username, c);
      TitleKeepsLetters(c);
      assert r.first == Title(c) && r.last == Title(username[|c|..]);
    }
  }

  /** Any candidate, taken as the first name, spells the username with
      the text after it */
  lemma CandidateSpells(firstNames: seq<string>, username: string, c: string)
    requires forall n :: n in firstNames ==> Strip(n) == n
    requires c in Candidates(firstNames, username)
    ensures StartsWith(username, Lower(c))
    ensures Lower(Title(c)) + Lower(Title(username[|c|..])) == Lower(username)
  {
    var n :| n in firstNames && StartsWith(username, Lower(n)) && Strip(n) == c;
    assert n == c;
    PrefixSpells(c, username);
  }

  /** A single entry that begins the username is its only candidate */
  lemma SingleCandidate(n: string, username: string)
    requires StartsWith(username, Lower(n))
    ensures Candidates([n], username) == [Strip(n)]
  {
    CandidateIsPrefix(n, username);
    assert [n][1..] == [];
  }

  /** "John" is the one candidate for "johnsmith" */
  lemma JohnOnlyCandidate()
    ensures Candidates(["John"], "johnsmith") == ["John"]
  {
    JohnPrefix();
    SingleCandidate("John", "johnsmith");
    JohnStrips();
  }

  /** "john", the lower-case form of "John", begins "johnsmith" */
  lemma JohnPrefix()
    ensures StartsWith("johnsmith", Lower("John"))
  {
    assert Lower("John") == "john";
    assert "johnsmith"[..4] == "john";
  }

  /** "John" has no whitespace to strip */
  lemma JohnStrips()
    ensures Strip("John") == "John"
  {
    assert !IsSpace('J') && !IsSpace('n');
    StripUnframed("John");
  }

  /** A string with no whitespace at either end is its own strip */
  lemma StripUnframed(s: string)
    requires |s| > 0 && !IsSpace(s[0]) && !IsSpace(s[|s| - 1])
    ensures Strip(s) == s
  {
    assert TrimStart(s, IsSpace) == s;
  }

  /** The surnames after the prefix "john", with and without the skipped
      character, title-cased */
  lemma JohnSmithPieces()
    ensures Title("John") == "John"
    ensures Title(SliceFrom("johnsmith", 5)) == "Mith" && Title(SliceFrom("johnsmith", 4)) == "Smith"
  {
    assert SliceFrom("johnsmith", 5) == "mith";
    assert SliceFrom("johnsmith", 4) == "smith";
  }

  /** As written, "johnsmith" with "John" its one candidate gives the
      surname "Mith" */
  lemma OneCandidateSkipsChar()
    ensures UsernameMatch(["John"], "johnsmith") == Names("Dear", "John", "Mith")
    ensures FixedUsernameMatch(["John"], "johnsmith") == Names("Dear", "John", "Smith")
  {
    JohnOnlyCandidate();
    JohnSmithPieces();
  }

  // Slug cut: `min(find("?"), find("/"))` is -1 when either is absent.

  /** Where the slug ends: at the first '?' or '/', or at the end */
  function SlugEnd(rest: string): (j: nat)
    ensures j <= |rest| && '?' !in rest[..j] && '/' !in rest[..j]
    ensures j == |rest| || rest[j] == '?' || rest[j] == '/'
  {
    if |rest| == 0 || rest[0] == '?' || rest[0] == '/' then 0
    else
      var k := SlugEnd(rest[1..]);
      assert rest[..k + 1] == [rest[0]] + rest[1..][..k];
      k + 1
  }

  /** The slug extraction cutting at the first '?' or '/' present */
  function FixedUsernameStr(link: string, domainLabelOf: string -> Option<string>): Option<string> {
    if Contains(link, "/in/") then
      var rest := AfterIn(link);
      Some(Strip(rest[..SlugEnd(rest)]))
    else domainLabelOf(link)
  }

  /** As written, a link that only ends with the slug loses its last
      character: "…/in/jane-doe" gives "jane-do" */
  lemma SlugCutDropsChar(link: string, domainLabelOf: string -> Option<string>)
    requires Contains(link, "/in/")
    requires '?' !in AfterIn(link) && '/' !in AfterIn(link)
    requires |AfterIn(link)| > 0 && !IsSpace(AfterIn(link)[|AfterIn(link)| - 1])
    ensures FetchUsernameStrFromLink(link, domainLabelOf) != FixedUsernameStr(link, domainLabelOf)
  {
    var rest := AfterIn(link);
    SlugDropsLastChar(link, domainLabelOf);
    SlugEndWhole(rest);
    assert rest[..SlugEnd(rest)] == rest;
    StripDropsLast(rest);
  }

  /** Cutting off a last character that is not white space changes what
      `strip()` keeps */
  lemma StripDropsLast(rest: string)
    requires |rest| > 0 && !IsSpace(rest[|rest| - 1])
    ensures Strip(rest) != Strip(rest[..|rest| - 1])
  {
    var t := TrimStart(rest, IsSpace);
    assert |t| > 0 && t[|t| - 1] == rest[|rest| - 1];
    assert Strip(rest) == t;
    var u := rest[..|rest| - 1];
    var r := StripBy(u, IsSpace);
    StripBySpec(u, IsSpace);
    var a :| OccursAt(u, r, a) && (forall i :: 0 <= i < a ==> IsSpace(u[i]));
    assert a + |r| < |rest|;
  }

  /** Without '?' or '/', the slug runs to the end */
  lemma SlugEndWhole(rest: string)
    requires '?' !in rest && '/' !in rest
    ensures SlugEnd(rest) == |rest|
  {
  }

  /** The text after "/in/" in "/in/jane-doe" */
  lemma JaneDoeRest()
    ensures Contains("/in/jane-doe", "/in/") && AfterIn("/in/jane-doe") == "jane-doe"
    ensures '?' !in "jane-doe" && '/' !in "jane-doe"
  {
    assert StartsWith("/in/jane-doe", "/in/") by {}
    FindZeroIsPrefix("/in/jane-doe", "/in/");
    assert "/in/jane-doe"[4..] == "jane-doe" by {}
  }

  /** As written, "/in/jane-doe" yields the slug "jane-do"; the repair
      yields "jane-doe" */
  lemma JaneDoeSlug(domainLabelOf: string -> Option<string>)
    ensures FetchUsernameStrFromLink("/in/jane-doe", domainLabelOf) == Some("jane-do")
    ensures FixedUsernameStr("/in/jane-doe", domainLabelOf) == Some("jane-doe")
  {
    JaneDoeRest();
    SlugDropsLastChar("/in/jane-doe", domainLabelOf);
    assert "jane-doe"[..7] == "jane-do" by {}
    JaneDoeStrips();
    SlugEndWhole("jane-doe");
    assert "jane-doe"[..8] == "jane-doe";
  }

  /** Neither slug carries whitespace at its ends */
  lemma JaneDoeStrips()
    ensures Strip("jane-do") == "jane-do" && Strip("jane-doe") == "jane-doe"
  {
    LowerNotSpace('j');
    LowerNotSpace('o');
    LowerNotSpace('e');
    StripUnframed("jane-do");
    StripUnframed("jane-doe");
  }

  /** A lower-case ASCII letter is not whitespace */
  lemma LowerNotSpace(c: char)
    requires 'a' <= c <= 'z'
    ensures !IsSpace(c)
  {
  }

  /** The repaired extraction keeps the whole slug up to the first mark, or
      to the end of the link */
  lemma FixedSlugWhole(link: string, domainLabelOf: string -> Option<string>)
    requires Contains(link, "/in/")
    ensures var rest := AfterIn(link);
      exists j :: 0 <= j <= |rest| && '?' !in rest[..j] && '/' !in rest[..j]
        && (j == |rest| || rest[j] == '?' || rest[j] == '/')
        && FixedUsernameStr(link, domainLabelOf) == Some(Strip(rest[..j]))
  {
    var rest := AfterIn(link);
    var j := SlugEnd(rest);
    assert 0 <= j <= |rest| && '?' !in rest[..j] && '/' !in rest[..j];
  }

  // The per-link step with all four repairs.

  /** The vanity parser on top of the repaired username matcher */
  function FixedVanityNames(firstNames: seq<string>, slug: string): Names {
    if Count(slug, '-') == 0 then FixedUsernameMatch(firstNames, slug) else VanityNames(firstNames, slug)
  }

  function FixedStep(ctx: Context, brandNames: set<string>, s: Names, c: Candidate): Option<Names>
    requires |ctx.siteQueries| >= 4
  {
    match FixedClassify(ctx.siteQueries, brandNames, c.url)
    case FixedLinkedIn => (
      match FixedUsernameStr(c.url, ctx.domainLabelOf)
      case None => None
      case Some(slug) => Some(FixedVanityNames(ctx.firstNames, slug)))
    case FixedReserved => Some(s)
    case BrandPage => (
      match c.page
      case None => Some(s)
      case Some(text) => Some(PageNames(text, s, ctx.firstNames, ctx.commonWords)))
    case DomainUsername => (
      match ctx.domainLabelOf(c.url)
      case None => None
      case Some(dom) => Some(FixedUsernameMatch(ctx.firstNames, dom)))
  }

  /** In the repaired step every link starting with any reserved marker is
      skipped */
  lemma FixedReservedSkipped(ctx: Context, brandNames: set<string>, s: Names, c: Candidate)
    requires |ctx.siteQueries| >= 4
    requires !Contains(c.url, ctx.siteQueries[0]) && IsReserved(ctx.siteQueries, c.url)
    ensures FixedStep(ctx, brandNames, s, c) == Some(s)
  {
  }

  /** In the repaired step a link with no brand name is resolved from its
      domain label by the username matcher */
  lemma FixedDomainRoute(ctx: Context, brandNames: set<string>, s: Names, c: Candidate, dom: string)
    requires |ctx.siteQueries| >= 4
    requires !Contains(c.url, ctx.siteQueries[0]) && !IsReserved(ctx.siteQueries, c.url)
    requires !HasBrand(brandNames, c.url) && ctx.domainLabelOf(c.url) == Some(dom)
    ensures FixedStep(ctx, brandNames, s, c) == Some(FixedUsernameMatch(ctx.firstNames, dom))
  {
  }
}
