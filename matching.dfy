/** The two URL-driven extractors of `NameFetcher`: the username matcher
    (`compare_username_against_firstnames_set`) and the vanity-URL parser
    (`fetch_names_from_linkedin_urls`), as functions of the first-name
    dictionary. The dictionary is a set in the source; here it is the
    sequence of its entries in the set's (fixed, unknown) iteration order,
    which is what decides Python's `max` ties. */
module Matching {
  import opened Wrappers
  import opened PyStr
  import opened Lexical

  /** The greeting, first name and surname each extractor yields */
  datatype Names = Names(greeting: string, first: string, last: string)

  /** The state a new `NameFetcher` starts in, kept when nothing matches */
  const Sentinel := Names("To", "Whom It", "May Concern")

  /** `max(xs, key=len)`: a longest element, the first of the longest */
  function FirstLongest(xs: seq<string>): (r: string)
    requires |xs| > 0
    ensures exists i :: 0 <= i < |xs| && xs[i] == r && forall j :: 0 <= j < i ==> |xs[j]| < |r|
    ensures forall j :: 0 <= j < |xs| ==> |xs[j]| <= |r|
  {
    if |xs| == 1 then xs[0]
    else
      var m := FirstLongest(xs[..|xs| - 1]);
      FirstLongestStep(xs, m);
      if |xs[|xs| - 1]| > |m| then xs[|xs| - 1] else m
  }

  /** The first longest of `xs` from the first longest `m` of all but its
      last element: the last one wins only when it is strictly longer */
  lemma FirstLongestStep(xs: seq<string>, m: string)
    requires |xs| > 1
    requires var init := xs[..|xs| - 1];
      (exists i :: 0 <= i < |init| && init[i] == m && forall j :: 0 <= j < i ==> |init[j]| < |m|)
      && forall j :: 0 <= j < |init| ==> |init[j]| <= |m|
    ensures var r := if |xs[|xs| - 1]| > |m| then xs[|xs| - 1] else m;
      (exists i :: 0 <= i < |xs| && xs[i] == r && forall j :: 0 <= j < i ==> |xs[j]| < |r|)
      && forall j :: 0 <= j < |xs| ==> |xs[j]| <= |r|
  {
    var init := xs[..|xs| - 1];
    var i :| 0 <= i < |init| && init[i] == m && forall j :: 0 <= j < i ==> |init[j]| < |m|;
    assert forall j :: 0 <= j < |init| ==> init[j] == xs[j];
    if |xs[|xs| - 1]| > |m| {
      assert forall j :: 0 <= j < |xs| - 1 ==> |xs[j]| < |xs[|xs| - 1]|;
    } else {
      assert xs[i] == m;
    }
  }

  /** The test of the `first_candidates` comprehension:
      `first_name.lower() in username and username.find(first_name.lower()) == 0` */
  predicate IsCandidate(name: string, username: string) {
    Contains(username, Lower(name)) && FindSub(username, Lower(name)) == 0
  }

  /** `IsCandidate` is a case-sensitive prefix test on the username */
  lemma CandidateIsPrefix(name: string, username: string)
    ensures IsCandidate(name, username) <==> StartsWith(username, Lower(name))
  {
    FindZeroIsPrefix(username, Lower(name));
  }

  /** `first_candidates`: the stripped dictionary entries, in iteration
      order, whose lower-case form begins the username */
  function Candidates(firstNames: seq<string>, username: string): (r: seq<string>)
    ensures |r| <= |firstNames|
    ensures forall c :: c in r <==> exists n :: n in firstNames && StartsWith(username, Lower(n)) && Strip(n) == c
  {
    if |firstNames| == 0 then []
    else
      var n := firstNames[0];
      var rest := Candidates(firstNames[1..], username);
      CandidateIsPrefix(n, username);
      assert forall m :: m in firstNames <==> m == n || m in firstNames[1..];
      if IsCandidate(n, username) then [Strip(n)] + rest else rest
  }

  /** A single entry is a candidate exactly when its lower-case form
      begins the username, and then it is kept stripped */
  lemma CandidatesOne(n: string, username: string)
    ensures Candidates([n], username) == if StartsWith(username, Lower(n)) then [Strip(n)] else []
  {
    CandidateIsPrefix(n, username);
    assert [n][1..] == [];
  }

  /** The comprehension on a first entry and the rest */
  lemma CandidatesCons(s: seq<string>, username: string)
    requires |s| > 0
    ensures Candidates(s, username)
      == (if StartsWith(username, Lower(s[0])) then [Strip(s[0])] else []) + Candidates(s[1..], username)
  {
    CandidateIsPrefix(s[0], username);
  }

  /** The comprehension works entry by entry, so candidates keep the
      dictionary's order */
  lemma {:induction false} CandidatesAppend(a: seq<string>, b: seq<string>, username: string)
    ensures Candidates(a + b, username) == Candidates(a, username) + Candidates(b, username)
  {
    if |a| > 0 {
      var ab := a + b;
      assert ab[0] == a[0];
      assert ab[1..] == a[1..] + b;
      CandidatesAppend(a[1..], b, username);
      CandidatesCons(ab, username);
      CandidatesCons(a, username);
    } else {
      assert a + b == b;
    }
  }

  /** The entries whose lower-case form begins the username, by index */
  function MatchingEntries(firstNames: seq<string>, username: string): set<nat> {
    set i: nat | i < |firstNames| && StartsWith(username, Lower(firstNames[i]))
  }

  /** There are as many candidates as matching entries, which is what the
      branch on `len(first_candidates)` tests */
  lemma {:induction false} CandidatesCount(firstNames: seq<string>, username: string)
    ensures |Candidates(firstNames, username)| == |MatchingEntries(firstNames, username)|
  {
    if |firstNames| > 0 {
      CandidatesCount(firstNames[..|firstNames| - 1], username);
      CandidatesSnoc(firstNames, username);
      MatchingEntriesSnoc(firstNames, username);
    } else {
      assert MatchingEntries(firstNames, username) == {};
    }
  }

  /** The candidates of all entries are those of all but the last, then
      the last entry's own */
  lemma CandidatesSnoc(firstNames: seq<string>, username: string)
    requires |firstNames| > 0
    ensures var k := |firstNames| - 1;
      Candidates(firstNames, username) == Candidates(firstNames[..k], username)
        + (if StartsWith(username, Lower(firstNames[k])) then [Strip(firstNames[k])] else [])
  {
    var k := |firstNames| - 1;
    assert firstNames == firstNames[..k] + [firstNames[k]];
    CandidatesAppend(firstNames[..k], [firstNames[k]], username);
    CandidatesOne(firstNames[k], username);
  }

  /** The matching entries of all entries are those of all but the last,
      then the last index when that entry matches */
  lemma MatchingEntriesSnoc(firstNames: seq<string>, username: string)
    requires |firstNames| > 0
    ensures var k := |firstNames| - 1; var before := MatchingEntries(firstNames[..k], username);
      k !in before
      && MatchingEntries(firstNames, username)
        == before + (if StartsWith(username, Lower(firstNames[k])) then {k} else {})
  {
  }

  /** `compare_username_against_firstnames_set(username)` */
  function UsernameMatch(firstNames: seq<string>, username: string): Names {
    var cs := Candidates(firstNames, username);
    if |cs| == 1 then
      var first := Title(cs[0]);
      Names("Dear", first, Title(SliceFrom(username, |first| + 1)))
    else if |cs| >= 2 then
      var first := Title(FirstLongest(cs));
      Names("Dear", first, Title(SliceFrom(username, |first|)))
    else
      var half := |username| / 2;
      Names("Dear", Title(SliceTo(username, half)), Title(SliceFrom(username, half - 1)))
  }

  /** One dictionary entry begins the username: it is the first name, and
      the surname starts one character after it ends */
  lemma UsernameOneCandidate(firstNames: seq<string>, username: string)
    requires |Candidates(firstNames, username)| == 1
    ensures exists n :: (n in firstNames && StartsWith(username, Lower(n))
      && UsernameMatch(firstNames, username)
         == Names("Dear", Title(Strip(n)), Title(SliceFrom(username, |Strip(n)| + 1))))
  {
    var c := Candidates(firstNames, username)[0];
    assert c in Candidates(firstNames, username);
  }

  /** Several entries begin the username: the first name is a longest of
      them and the surname is what follows its length */
  lemma UsernameManyCandidates(firstNames: seq<string>, username: string)
    requires |Candidates(firstNames, username)| >= 2
    ensures var cs := Candidates(firstNames, username);
      exists c :: c in cs && (forall d :: d in cs ==> |d| <= |c|)
        && UsernameMatch(firstNames, username) == Names("Dear", Title(c), Title(SliceFrom(username, |c|)))
  {
    var cs := Candidates(firstNames, username);
    var c := FirstLongest(cs);
    forall d | d in cs ensures |d| <= |c| {
      var j :| 0 <= j < |cs| && cs[j] == d;
    }
  }

  /** No entry begins the username: it is split at the midpoint, the
      surname starting one character before it (Python's `username[-1:]`,
      the whole of a one-character username, when the midpoint is 0) */
  lemma UsernameMidpoint(firstNames: seq<string>, username: string)
    requires forall n :: n in firstNames ==> !StartsWith(username, Lower(n))
    ensures var h := |username| / 2;
      UsernameMatch(firstNames, username)
        == Names("Dear", Title(username[..h]), Title(if |username| >= 2 then username[h - 1..] else username))
  {
    NoCandidates(firstNames, username);
  }

  lemma {:induction false} NoCandidates(firstNames: seq<string>, username: string)
    requires forall n :: n in firstNames ==> !StartsWith(username, Lower(n))
    ensures Candidates(firstNames, username) == []
  {
    if |firstNames| > 0 {
      CandidateIsPrefix(firstNames[0], username);
      NoCandidates(firstNames[1..], username);
    }
  }

  /** The two halves of the midpoint split share one character */
  lemma MidpointOverlap(firstNames: seq<string>, username: string)
    requires forall n :: n in firstNames ==> !StartsWith(username, Lower(n))
    requires |username| >= 2
    ensures var h := |username| / 2; var r := UsernameMatch(firstNames, username);
      |r.first| == h && |r.last| == |username| - h + 1 && Lower(r.first)[h - 1] == Lower(r.last)[0]
  {
    var h := |username| / 2;
    UsernameMidpoint(firstNames, username);
    var a, b := username[..h], username[h - 1..];
    var r := UsernameMatch(firstNames, username);
    assert r.first == Title(a) && r.last == Title(b);
    TitleKeepsLetters(a);
    TitleKeepsLetters(b);
    assert Lower(Title(a))[h - 1] == Lower(a)[h - 1] == ToLower(username[h - 1]);
    assert Lower(Title(b))[0] == Lower(b)[0] == ToLower(username[h - 1]);
  }

  /** "xyzzy" with no dictionary prefix gives "Xy" and "Yzzy" */
  lemma UsernameMidpointExample(firstNames: seq<string>)
    requires forall n :: n in firstNames ==> !StartsWith("xyzzy", Lower(n))
    ensures UsernameMatch(firstNames, "xyzzy") == Names("Dear", "Xy", "Yzzy")
  {
    UsernameMidpoint(firstNames, "xyzzy");
    assert "xyzzy"[..2] == "xy";
    assert "xyzzy"[1..] == "yzzy";
    assert Title("xy") == "Xy";
    assert Title("yzzy") == "Yzzy";
  }

  /** `fetch_names_from_linkedin_urls` once the slug is known: no dash
      goes to the username matcher; one dash splits first and surname;
      two or more split on every dash, and the third piece is the surname
      unless it holds a digit, when the second piece is */
  function VanityNames(firstNames: seq<string>, slug: string): Names {
    var dashes := Count(slug, '-');
    if dashes == 0 then UsernameMatch(firstNames, slug)
    else if dashes == 1 then
      SplitEvery(slug, '-', 1);
      var parts := Split(slug, '-', 1);
      Names("Dear", Title(parts[0]), Title(parts[1]))
    else
      SplitEvery(slug, '-', dashes);
      var parts := Split(slug, '-', dashes);
      Names("Dear", Title(parts[0]), Title(if ContainsDigit(parts[2]) then parts[1] else parts[2]))
  }

  /** `fetch_names_from_linkedin_urls(link)`; None where the slug extraction
      raises */
  function LinkedinNames(firstNames: seq<string>, link: string, domainLabelOf: string -> Option<string>): Option<Names> {
    match FetchUsernameStrFromLink(link, domainLabelOf)
    case None => None
    case Some(slug) => Some(VanityNames(firstNames, slug))
  }

  lemma {:induction false} SplitLimitIrrelevant(s: string, sep: char, maxsplit: int)
    requires maxsplit >= Count(s, sep)
    ensures Split(s, sep, maxsplit) == Split(s, sep, -1)
  {
    if |s| > 0 {
      if s[0] == sep {
        SplitLimitIrrelevant(s[1..], sep, maxsplit - 1);
      } else {
        SplitLimitIrrelevant(s[1..], sep, maxsplit);
      }
    }
  }

  lemma CountConcat(a: string, b: string, c: char)
    ensures Count(a + b, c) == Count(a, c) + Count(b, c)
  {
    if |a| > 0 {
      assert (a + b)[0] == a[0];
      assert (a + b)[1..] == a[1..] + b;
      CountConcat(a[1..], b, c);
    } else {
      assert a + b == b;
    }
  }

  /** The first piece of a split of `c + tail`, when `c` has no separator
      and `tail` is empty or starts with one */
  lemma FirstPiece(c: string, tail: string, sep: char)
    requires sep !in c
    requires tail == [] || tail[0] == sep
    ensures Split(c + tail, sep, -1)[0] == c
  {
    if tail == [] {
      assert c + tail == c;
      NoSepSplit(c, sep);
    } else {
      assert c + tail == c + [sep] + tail[1..];
      SplitAfterPiece(c, tail[1..], sep);
    }
  }

  /** A slug with one dash gives the title-cased pieces around it */
  lemma VanityOneDash(firstNames: seq<string>, a: string, b: string)
    requires '-' !in a && '-' !in b
    ensures VanityNames(firstNames, a + "-" + b) == Names("Dear", Title(a), Title(b))
  {
    var slug := a + "-" + b;
    CountZero(a, '-');
    CountZero(b, '-');
    CountConcat(a, "-", '-');
    CountConcat(a + "-", b, '-');
    assert Count("-", '-') == 1;
    SplitLimitIrrelevant(slug, '-', 1);
    SplitAfterPiece(a, b, '-');
    NoSepSplit(b, '-');
  }

  /** A slug with two or more dashes gives the first piece and the third,
      or the second when the third holds a digit; whatever follows the
      third piece plays no part */
  lemma VanityManyDashes(firstNames: seq<string>, a: string, b: string, c: string, tail: string)
    requires '-' !in a && '-' !in b && '-' !in c
    requires tail == [] || tail[0] == '-'
    ensures VanityNames(firstNames, a + "-" + b + "-" + c + tail)
         == Names("Dear", Title(a), Title(if ContainsDigit(c) then b else c))
  {
    var slug := a + "-" + b + "-" + c + tail;
    var k := Count(slug, '-');
    assert slug == a + "-" + (b + "-" + (c + tail));
    CountConcat(a, "-", '-');
    CountConcat(a + "-", b + "-" + (c + tail), '-');
    CountConcat(b, "-", '-');
    CountConcat(b + "-", c + tail, '-');
    assert Count("-", '-') == 1;
    assert k >= 2;
    SplitLimitIrrelevant(slug, '-', k);
    SplitAfterPiece(a, b + "-" + (c + tail), '-');
    SplitAfterPiece(b, c + tail, '-');
    FirstPiece(c, tail, '-');
    var parts := Split(slug, '-', -1);
    assert parts == [a] + ([b] + Split(c + tail, '-', -1));
  }

  /** Pieces after the third never change the vanity result */
  lemma VanityIgnoresTail(firstNames: seq<string>, a: string, b: string, c: string, tail1: string, tail2: string)
    requires '-' !in a && '-' !in b && '-' !in c
    requires tail1 == [] || tail1[0] == '-'
    requires tail2 == [] || tail2[0] == '-'
    ensures VanityNames(firstNames, a + "-" + b + "-" + c + tail1) == VanityNames(firstNames, a + "-" + b + "-" + c + tail2)
  {
    VanityManyDashes(firstNames, a, b, c, tail1);
    VanityManyDashes(firstNames, a, b, c, tail2);
  }

  /** "jane-doe" gives Dear Jane Doe */
  lemma VanityOneDashExample(firstNames: seq<string>)
    ensures VanityNames(firstNames, "jane-doe") == Names("Dear", "Jane", "Doe")
  {
    JaneDoePieces();
    VanityOneDash(firstNames, "jane", "doe");
  }

  /** The pieces of "jane-doe" and their title-cased forms */
  lemma JaneDoePieces()
    ensures '-' !in "jane" && '-' !in "doe" && "jane" + "-" + "doe" == "jane-doe"
    ensures Title("jane") == "Jane" && Title("doe") == "Doe"
  {
  }

  /** "mary-jane-smith123" gives Dear Mary Jane: the digit-bearing piece
      is dropped and the middle one promoted */
  lemma VanityDigitExample(firstNames: seq<string>)
    ensures VanityNames(firstNames, "mary-jane-smith123") == Names("Dear", "Mary", "Jane")
  {
    MaryJanePieces();
    VanityManyDashes(firstNames, "mary", "jane", "smith123", "");
  }

  /** The pieces of "mary-jane-smith123" and their title-cased forms */
  lemma MaryJanePieces()
    ensures '-' !in "mary" && '-' !in "jane" && '-' !in "smith123"
    ensures ContainsDigit("smith123")
    ensures "mary" + "-" + "jane" + "-" + "smith123" + "" == "mary-jane-smith123"
    ensures Title("mary") == "Mary" && Title("jane") == "Jane"
  {
    assert IsDigit("smith123"[5]);
  }

  /** Every vanity result greets with "Dear" and is title-cased */
  lemma VanityTitled(firstNames: seq<string>, slug: string)
    ensures var r := VanityNames(firstNames, slug);
      r.greeting == "Dear" && IsTitled(r.first) && IsTitled(r.last)
  {
    var r := VanityNames(firstNames, slug);
    TitleIdempotent(slug);
    var dashes := Count(slug, '-');
    var cs := Candidates(firstNames, slug);
    var half := |slug| / 2;
    if dashes == 0 && |cs| == 1 {
      TitleIdempotent(cs[0]);
      TitleIdempotent(SliceFrom(slug, |cs[0]| + 1));
    } else if dashes == 0 && |cs| >= 2 {
      TitleIdempotent(FirstLongest(cs));
      TitleIdempotent(SliceFrom(slug, |FirstLongest(cs)|));
    } else if dashes == 0 {
      TitleIdempotent(SliceTo(slug, half));
      TitleIdempotent(SliceFrom(slug, half - 1));
    } else if dashes == 1 {
      SplitEvery(slug, '-', 1);
      var parts := Split(slug, '-', 1);
      TitleIdempotent(parts[0]);
      TitleIdempotent(parts[1]);
    } else {
      SplitEvery(slug, '-', dashes);
      var parts := Split(slug, '-', dashes);
      TitleIdempotent(parts[0]);
      TitleIdempotent(parts[1]);
      TitleIdempotent(parts[2]);
    }
  }
}
