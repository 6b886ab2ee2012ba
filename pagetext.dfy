/** `fetch_names_from_page_sources` as a function of the page text and of
    the state it starts from: the token filters, the first-name choice and
    the pairing with the following token */
module PageText {
  import opened Wrappers
  import opened PyStr
  import opened Lexical
  import opened Matching

  /** `entire_body`: the tokens, in order, whose lower-case form is not a
      common word */
  function BodyTokens(words: seq<string>, commonWords: set<string>): (r: seq<string>)
    ensures |r| <= |words|
    ensures forall w :: w in r <==> w in words && Lower(w) !in commonWords
  {
    if |words| == 0 then []
    else
      var w := words[|words| - 1];
      var rest := BodyTokens(words[..|words| - 1], commonWords);
      assert forall v :: v in words <==> v == w || v in words[..|words| - 1];
      if Lower(w) !in commonWords then rest + [w] else rest
  }

  /** A single word is kept exactly when it is not a common word */
  lemma BodyTokensOne(w: string, commonWords: set<string>)
    ensures BodyTokens([w], commonWords) == if Lower(w) !in commonWords then [w] else []
  {
    assert [w][..0] == [];
  }

  /** The filter works piece by piece, so kept words stay in source order */
  lemma {:induction false} BodyTokensAppend(a: seq<string>, b: seq<string>, commonWords: set<string>)
    ensures BodyTokens(a + b, commonWords) == BodyTokens(a, commonWords) + BodyTokens(b, commonWords)
  {
    if b == [] {
      assert a + b == a;
    } else {
      var init := b[..|b| - 1];
      BodyTokensAppend(a, init, commonWords);
      assert (a + b)[..|a + b| - 1] == a + init;
      assert (a + b)[|a + b| - 1] == b[|b| - 1];
    }
  }

  /** A token the `first_names` comprehension keeps */
  predicate IsFirstNameToken(w: string, firstNames: seq<string>) {
    Title(w) in firstNames && |w| > 0
  }

  /** `first_names`: the body tokens, in order, that title-case into a
      known first name */
  function FirstNameTokens(body: seq<string>, firstNames: seq<string>): (r: seq<string>)
    ensures forall w :: w in r <==> w in body && IsFirstNameToken(w, firstNames)
  {
    if |body| == 0 then []
    else
      var w := body[|body| - 1];
      var rest := FirstNameTokens(body[..|body| - 1], firstNames);
      assert forall v :: v in body <==> v == w || v in body[..|body| - 1];
      if IsFirstNameToken(w, firstNames) then rest + [w] else rest
  }

  /** `body[i]` is a longest first-name token, and no earlier token is one
      of the same length */
  predicate FirstLongestNameAt(body: seq<string>, firstNames: seq<string>, i: nat) {
    i < |body| && IsFirstNameToken(body[i], firstNames)
    && (forall j :: 0 <= j < |body| && IsFirstNameToken(body[j], firstNames) ==> |body[j]| <= |body[i]|)
    && (forall j :: 0 <= j < i && IsFirstNameToken(body[j], firstNames) ==> |body[j]| < |body[i]|)
  }

  lemma FirstNameTokensSnoc(init: seq<string>, w: string, firstNames: seq<string>)
    ensures FirstNameTokens(init + [w], firstNames)
         == FirstNameTokens(init, firstNames) + (if IsFirstNameToken(w, firstNames) then [w] else [])
  {
    assert (init + [w])[..|init|] == init;
  }

  /** `max(first_names, key=len)` is the first longest first-name token of
      the body */
  lemma {:induction false} LongestNameToken(body: seq<string>, firstNames: seq<string>)
    requires |FirstNameTokens(body, firstNames)| > 0
    ensures exists i: nat :: FirstLongestNameAt(body, firstNames, i) && body[i] == FirstLongest(FirstNameTokens(body, firstNames))
  {
    var init := body[..|body| - 1];
    if IsFirstNameToken(body[|body| - 1], firstNames) && |FirstNameTokens(init, firstNames)| == 0 {
      LongestOnlyLast(body, firstNames);
    } else {
      LongestNameToken(init, firstNames);
      var i: nat :| FirstLongestNameAt(init, firstNames, i) && init[i] == FirstLongest(FirstNameTokens(init, firstNames));
      var k := LongestStep(body, firstNames, i);
    }
  }

  /** The step of the induction when the body without its last token has a
      first-name token */
  lemma LongestStep(body: seq<string>, firstNames: seq<string>, i: nat) returns (k: nat)
    requires |body| > 0
    requires var init := body[..|body| - 1];
      FirstLongestNameAt(init, firstNames, i) && init[i] == FirstLongest(FirstNameTokens(init, firstNames))
    ensures FirstLongestNameAt(body, firstNames, k) && body[k] == FirstLongest(FirstNameTokens(body, firstNames))
  {
    var n := |body|;
    var w := body[n - 1];
    var init := body[..n - 1];
    assert body == init + [w];
    FirstNameTokensSnoc(init, w, firstNames);
    var rest := FirstNameTokens(init, firstNames);
    assert init[i] in rest;
    if !IsFirstNameToken(w, firstNames) {
      k := i;
    } else {
      var all := rest + [w];
      assert all[..|all| - 1] == rest;
      var m := FirstLongest(rest);
      assert FirstLongest(all) == if |w| > |m| then w else m;
      k := if |w| > |m| then n - 1 else i;
    }
  }

  /** The step of the induction when the last token is the only first-name
      token */
  lemma LongestOnlyLast(body: seq<string>, firstNames: seq<string>)
    requires |body| > 0 && IsFirstNameToken(body[|body| - 1], firstNames)
    requires FirstNameTokens(body[..|body| - 1], firstNames) == []
    ensures FirstLongestNameAt(body, firstNames, |body| - 1)
      && body[|body| - 1] == FirstLongest(FirstNameTokens(body, firstNames))
  {
    var init := body[..|body| - 1];
    forall j | 0 <= j < |init| ensures !IsFirstNameToken(body[j], firstNames) {
      assert body[j] == init[j] && init[j] in init;
    }
  }

  lemma {:induction false} NoFirstNameTokens(body: seq<string>, firstNames: seq<string>)
    requires forall w :: w in body ==> !IsFirstNameToken(w, firstNames)
    ensures FirstNameTokens(body, firstNames) == []
  {
    if |body| > 0 {
      NoFirstNameTokens(body[..|body| - 1], firstNames);
    }
  }

  /** The body of a page: its text split on single spaces, common words
      dropped */
  function Body(text: string, commonWords: set<string>): seq<string> {
    BodyTokens(Split(text, ' ', -1), commonWords)
  }

  /** The first name the extractor settles on before pairing: the first
      longest first-name token, or the prior first name when there is none
      (the ValueError of `max` on an empty list is caught) */
  function ChosenFirst(body: seq<string>, firstNames: seq<string>, prior: string): string {
    var names := FirstNameTokens(body, firstNames);
    if |names| == 0 then prior else FirstLongest(names)
  }

  /** `fetch_names_from_page_sources(soup)` where `text` is `soup.text` and
      `prior` the state before the call: each pair `next_grams` yields
      overwrites the state, so the last one stands; when it raises, or
      yields nothing, only the first name has changed */
  function PageNames(text: string, prior: Names, firstNames: seq<string>, commonWords: set<string>): Names {
    var body := Body(text, commonWords);
    var first := ChosenFirst(body, firstNames, prior.first);
    match NextGrams(body, first)
    case Some(pairs) =>
      if |pairs| > 0 then Names("Dear", pairs[|pairs| - 1].0, pairs[|pairs| - 1].1)
      else Names(prior.greeting, first, prior.last)
    case None => Names(prior.greeting, first, prior.last)
  }

  /** `PageNames` by the outcome of the pairing of the chosen first name */
  lemma PageNamesCases(text: string, prior: Names, firstNames: seq<string>, commonWords: set<string>,
                       first: string, grams: Option<seq<(string, string)>>)
    requires first == ChosenFirst(Body(text, commonWords), firstNames, prior.first)
    requires grams == NextGrams(Body(text, commonWords), first)
    ensures PageNames(text, prior, firstNames, commonWords)
      == if grams.Some? && |grams.value| > 0 then Names("Dear", grams.value[|grams.value| - 1].0, grams.value[|grams.value| - 1].1)
         else Names(prior.greeting, first, prior.last)
  {
  }

  /** A page with a first-name token whose pairing yields pairs gives
      "Dear", the first longest first-name token and the last pair's
      surname, whatever the prior state */
  lemma PageWithName(text: string, prior: Names, firstNames: seq<string>, commonWords: set<string>, pairs: seq<(string, string)>)
    requires |FirstNameTokens(Body(text, commonWords), firstNames)| > 0
    requires NextGrams(Body(text, commonWords), FirstLongest(FirstNameTokens(Body(text, commonWords), firstNames))) == Some(pairs)
    requires |pairs| > 0
    ensures PageNames(text, prior, firstNames, commonWords)
      == Names("Dear", FirstLongest(FirstNameTokens(Body(text, commonWords), firstNames)), pairs[|pairs| - 1].1)
  {
    var body := Body(text, commonWords);
    var f := FirstLongest(FirstNameTokens(body, firstNames));
    assert ChosenFirst(body, firstNames, prior.first) == f;
    assert pairs[|pairs| - 1].0 == f;
  }

  /** No token title-cases into a first name: the first name stays */
  lemma PageKeepsFirst(text: string, prior: Names, firstNames: seq<string>, commonWords: set<string>)
    requires forall w :: w in Body(text, commonWords) ==> !IsFirstNameToken(w, firstNames)
    ensures PageNames(text, prior, firstNames, commonWords).first == prior.first
  {
    var body := Body(text, commonWords);
    NoFirstNameTokens(body, firstNames);
    assert ChosenFirst(body, firstNames, prior.first) == prior.first;
    var grams := NextGrams(body, prior.first);
    PageNamesCases(text, prior, firstNames, commonWords, prior.first, grams);
    if grams.Some? && |grams.value| > 0 {
      assert grams.value[|grams.value| - 1].0 == prior.first;
    }
  }

  /** Some token title-cases into a first name: the first name becomes the
      first longest such token, kept as it is written (not title-cased) */
  lemma PagePicksLongestName(text: string, prior: Names, firstNames: seq<string>, commonWords: set<string>, w: string)
    requires w in Body(text, commonWords) && IsFirstNameToken(w, firstNames)
    ensures exists i: nat :: (FirstLongestNameAt(Body(text, commonWords), firstNames, i)
      && PageNames(text, prior, firstNames, commonWords).first == Body(text, commonWords)[i])
  {
    var body := Body(text, commonWords);
    var names := FirstNameTokens(body, firstNames);
    assert w in names;
    LongestNameToken(body, firstNames);
  }

  /** The state after the page: when every occurrence of the chosen first
      name can be paired, and there is one, the greeting is "Dear" and the
      surname is the first camel-case segment of the token after its last
      occurrence; otherwise greeting and surname are those before the
      call. Brand names are not consulted. */
  lemma PagePairing(text: string, prior: Names, firstNames: seq<string>, commonWords: set<string>)
    ensures var body := Body(text, commonWords);
      var c := ChosenFirst(body, firstNames, prior.first);
      var r := PageNames(text, prior, firstNames, commonWords);
      r.first == c
      && (c in body && (forall j :: 0 <= j < |body| && body[j] == c ==> Pairable(body, j)) ==>
            r.greeting == "Dear" && exists j :: LastAt(body, c, j) && CamelHead(body[j + 1]) == Some(r.last))
      && (!(c in body && (forall j :: 0 <= j < |body| && body[j] == c ==> Pairable(body, j))) ==>
            r.greeting == prior.greeting && r.last == prior.last)
  {
  }

  /** The chosen first name as the final token leaves greeting and surname
      as they were */
  lemma PageNameAtEnd(text: string, prior: Names, firstNames: seq<string>, commonWords: set<string>)
    requires var body := Body(text, commonWords);
      |body| > 0 && body[|body| - 1] == ChosenFirst(body, firstNames, prior.first)
    ensures var r := PageNames(text, prior, firstNames, commonWords);
      r.greeting == prior.greeting && r.last == prior.last
  {
    var body := Body(text, commonWords);
    assert !Pairable(body, |body| - 1);
  }

  /** The outcome of a page can depend on earlier links: with no
      dictionary name on it, "Zed Smith" pairs a carried-over first name
      "Zed", while a carried-over "Amy" leaves the state as it was */
  lemma PageDependsOnPrior()
    ensures PageNames("Zed Smith", Names("To", "Zed", "Q"), [], {}) == Names("Dear", "Zed", "Smith")
    ensures PageNames("Zed Smith", Names("To", "Amy", "Q"), [], {}) == Names("To", "Amy", "Q")
  {
    ZedSmithBody();
    var body := ["Zed", "Smith"];
    NoFirstNameTokens(body, []);
    SmithHead();
    assert NextGrams(body, "Zed").Some?;
    assert NextGrams(body, "Zed").value != [] by {
      assert body[0] == "Zed";
    }
    assert "Amy" != "Zed" && "Amy" != "Smith";
    assert "Amy" !in body;
  }

  /** "Zed Smith" splits into two words, neither of them common */
  lemma ZedSmithBody()
    ensures Body("Zed Smith", {}) == ["Zed", "Smith"]
  {
    assert Join(["Zed", "Smith"], ' ') == "Zed Smith";
    JoinSplit(["Zed", "Smith"], ' ');
    BodyTokensAppend(["Zed"], ["Smith"], {});
    BodyTokensOne("Zed", {});
    BodyTokensOne("Smith", {});
    assert ["Zed"] + ["Smith"] == ["Zed", "Smith"];
  }

  /** "Smith" is one camel-case segment */
  lemma SmithHead()
    ensures CamelHead("Smith") == Some("Smith")
  {
    var s := "Smith";
    assert RunEnd(s, 1, IsLower) == 5;
    assert MatchAt(s, 0) == Some(5);
    assert Spans(s, 5) == [];
    assert Spans(s, 0) == [(0, 5)];
    assert s[0..5] == s;
  }
}
