/** The module-level helpers of scrape/namefetcher.py: camel-case
    segmentation, next-token pairing and the vanity-slug extraction */
module Lexical {
  import opened Wrappers
  import opened PyStr

  /** The end of the run of characters accepted by `p` that starts at `i` */
  function RunEnd(s: string, i: nat, p: char -> bool): (q: nat)
    requires i <= |s|
    ensures i <= q <= |s|
    ensures forall k :: i <= k < q ==> p(s[k])
    ensures q == |s| || !p(s[q])
    decreases |s| - i
  {
    if i < |s| && p(s[i]) then RunEnd(s, i + 1, p) else i
  }

  /** The regex anchor `$` holds at `q`: the end of the string, or just
      before a newline that ends it */
  predicate AtEnd(s: string, q: nat) {
    q == |s| || (q + 1 == |s| && s[q] == '\n')
  }

  /** Where a match of `[A-Z](?:[a-z]+|[A-Z]*(?=[A-Z]|$))` that starts at
      `i` ends, if one starts there. The first alternative takes the
      greatest run of lower-case letters; the second the greatest run of
      upper-case letters followed by an upper-case letter or `$`, giving
      back one letter when what follows the run is neither. */
  function MatchAt(s: string, i: nat): (r: Option<nat>)
    requires i < |s|
    ensures r.Some? ==> i < r.value <= |s| && IsUpper(s[i])
    ensures r.Some? ==> ((forall k :: i < k < r.value ==> IsLower(s[k]))
                      || (forall k :: i < k < r.value ==> IsUpper(s[k])))
    ensures IsUpper(s[i]) && i + 1 < |s| && IsLower(s[i + 1]) ==> r.Some?
    ensures r.Some? && i + 1 < |s| && IsLower(s[i + 1]) ==> r.value == |s| || !IsLower(s[r.value])
  {
    if !IsUpper(s[i]) then None
    else if i + 1 < |s| && IsLower(s[i + 1]) then Some(RunEnd(s, i + 1, IsLower))
    else
      var q := RunEnd(s, i + 1, IsUpper);
      if AtEnd(s, q) then Some(q)
      else if q > i + 1 then Some(q - 1)
      else None
  }

  /** A match span `[start, end)` of the camel-case pattern in `s` */
  predicate IsSpan(s: string, sp: (nat, nat)) {
    sp.0 < |s| && MatchAt(s, sp.0) == Some(sp.1)
  }

  /** The spans `re.findall` reports when it scans `s` from `i`: a match is
      tried at each position, and after a match the scan resumes where it
      ended */
  function Spans(s: string, i: nat): seq<(nat, nat)>
    requires i <= |s|
    decreases |s| - i
  {
    if i == |s| then []
    else match MatchAt(s, i)
      case Some(e) => [(i, e)] + Spans(s, e)
      case None => Spans(s, i + 1)
  }

  /** Every span of the scan from `i` is a match at or after `i`, and
      each begins no earlier than the one before it ends */
  lemma {:induction false} SpansValid(s: string, i: nat)
    requires i <= |s|
    ensures forall k :: 0 <= k < |Spans(s, i)| ==> i <= Spans(s, i)[k].0 && IsSpan(s, Spans(s, i)[k])
    ensures forall k :: 0 < k < |Spans(s, i)| ==> Spans(s, i)[k - 1].1 <= Spans(s, i)[k].0
    decreases |s| - i
  {
    if i < |s| {
      var m := MatchAt(s, i);
      if m.Some? {
        var e := m.value;
        SpansValid(s, e);
        var r, rest := Spans(s, i), Spans(s, e);
        assert r == [(i, e)] + rest;
        forall k | 0 < k < |r| ensures r[k] == rest[k - 1] { }
      } else {
        SpansValid(s, i + 1);
      }
    }
  }

  /** `upper_camel_case_split(text)`: every segment starts with an
      upper-case letter and holds letters only */
  function UpperCamelCaseSplit(s: string): (r: seq<string>)
    ensures forall k :: 0 <= k < |r| ==> |r[k]| > 0 && IsUpper(r[k][0])
    ensures forall k, j :: 0 <= k < |r| && 0 <= j < |r[k]| ==> IsAlpha(r[k][j])
  {
    var sp := Spans(s, 0);
    SpansValid(s, 0);
    seq(|sp|, k requires 0 <= k < |sp| => s[sp[k].0..sp[k].1])
  }

  /** The segments are pieces of the input, found left to right without
      overlapping */
  lemma CamelSegmentsInOrder(s: string)
    ensures var r := UpperCamelCaseSplit(s); var sp := Spans(s, 0);
      |sp| == |r|
      && (forall k :: 0 <= k < |r| ==> sp[k].0 < sp[k].1 <= |s| && r[k] == s[sp[k].0..sp[k].1])
      && (forall k :: 0 < k < |r| ==> sp[k - 1].1 <= sp[k].0)
  {
    SpansValid(s, 0);
  }

  lemma {:induction false} SpansNoUpper(s: string, i: nat)
    requires i <= |s|
    requires forall k :: i <= k < |s| ==> !IsUpper(s[k])
    ensures Spans(s, i) == []
    decreases |s| - i
  {
    if i < |s| {
      SpansNoUpper(s, i + 1);
    }
  }

  /** A string without an upper-case letter has no segment */
  lemma CamelNoUpper(s: string)
    requires forall k :: 0 <= k < |s| ==> !IsUpper(s[k])
    ensures UpperCamelCaseSplit(s) == []
  {
    SpansNoUpper(s, 0);
  }

  lemma {:induction false} SpansCover(s: string, i: nat, j: nat) returns (k: nat)
    requires i <= j && j + 1 < |s| && IsUpper(s[j]) && IsLower(s[j + 1])
    ensures k < |Spans(s, i)| && Spans(s, i)[k].0 <= j < Spans(s, i)[k].1
    decreases |s| - i
  {
    var m := MatchAt(s, i);
    if m.Some? {
      var e := SpansAtMatch(s, i);
      if j >= e {
        var k' := SpansCover(s, e, j);
        k := k' + 1;
      } else {
        k := 0;
      }
    } else {
      WordStartMatches(s, j);
      SpansSkip(s, i);
      k := SpansCover(s, i + 1, j);
    }
  }

  /** A match at `i` is the first span of the scan from `i`, and the rest
      of the scan resumes where it ends */
  lemma SpansAtMatch(s: string, i: nat) returns (e: nat)
    requires i < |s| && MatchAt(s, i).Some?
    ensures e == MatchAt(s, i).value && i < e <= |s|
    ensures |Spans(s, i)| == |Spans(s, e)| + 1 && Spans(s, i)[0] == (i, e)
    ensures forall m :: 0 <= m < |Spans(s, e)| ==> Spans(s, i)[m + 1] == Spans(s, e)[m]
  {
    e := MatchAt(s, i).value;
    assert Spans(s, i) == [(i, e)] + Spans(s, e);
  }

  /** Without a match at `i` the scan moves on by one */
  lemma SpansSkip(s: string, i: nat)
    requires i < |s| && MatchAt(s, i).None?
    ensures Spans(s, i) == Spans(s, i + 1)
  {
  }

  /** An upper-case letter followed by a lower-case one starts a match */
  lemma WordStartMatches(s: string, j: nat)
    requires j + 1 < |s| && IsUpper(s[j]) && IsLower(s[j + 1])
    ensures MatchAt(s, j).Some?
  {
  }

  /** The scan skips no word: an upper-case letter followed by a lower-case
      one always lies inside a segment */
  lemma CamelCoversWords(s: string, j: nat)
    requires j + 1 < |s| && IsUpper(s[j]) && IsLower(s[j + 1])
    ensures var sp := Spans(s, 0);
      exists k :: 0 <= k < |UpperCamelCaseSplit(s)| && sp[k].0 <= j < sp[k].1
  {
    var k := SpansCover(s, 0, j);
  }

  /** Splitting a segment again gives that segment alone */
  lemma CamelSegmentStable(s: string, k: nat)
    requires k < |UpperCamelCaseSplit(s)|
    ensures var seg := UpperCamelCaseSplit(s)[k]; UpperCamelCaseSplit(seg) == [seg]
  {
    var sp := Spans(s, 0);
    var seg := UpperCamelCaseSplit(s)[k];
    SpansValid(s, 0);
    assert IsSpan(s, sp[k]);
    var a, e := sp[k].0, sp[k].1;
    assert seg == s[a..e];
    if 1 < |seg| && IsLower(seg[1]) {
      assert MatchAt(seg, 0) == Some(|seg|);
    } else {
      assert forall m :: 0 < m < |seg| ==> IsUpper(seg[m]);
      assert RunEnd(seg, 1, IsUpper) == |seg|;
      assert MatchAt(seg, 0) == Some(|seg|);
    }
    assert Spans(seg, |seg|) == [];
    assert Spans(seg, 0) == [(0, |seg|)];
    var again := UpperCamelCaseSplit(seg);
    assert |again| == 1;
    assert again[0] == seg[0..|seg|] == seg;
  }

  /** A run of capitals stays together and gives back its last letter to
      the capitalised word after it */
  lemma CamelCapitalRun()
    ensures UpperCamelCaseSplit("HTTPServer") == ["HTTP", "Server"]
  {
    var s := "HTTPServer";
    assert RunEnd(s, 5, IsLower) == 10;
    assert RunEnd(s, 1, IsUpper) == 5;
    assert MatchAt(s, 0) == Some(4);
    assert MatchAt(s, 4) == Some(10);
    assert Spans(s, 10) == [];
    assert Spans(s, 4) == [(4, 10)];
    assert Spans(s, 0) == [(0, 4), (4, 10)];
    assert s[0..4] == "HTTP" && s[4..10] == "Server";
  }

  /** `upper_camel_case_split(t)[0]`, or None where that raises IndexError */
  function CamelHead(t: string): (r: Option<string>)
    ensures r.Some? ==> |r.value| > 0 && IsUpper(r.value[0])
    ensures r.Some? ==> forall k :: 0 <= k < |r.value| ==> IsAlpha(r.value[k])
  {
    var parts := UpperCamelCaseSplit(t);
    if |parts| > 0 then Some(parts[0]) else None
  }

  /** `tokens[j]` can be paired: a next token exists and has a segment */
  predicate Pairable(tokens: seq<string>, j: nat) {
    j + 1 < |tokens| && CamelHead(tokens[j + 1]).Some?
  }

  /** `j` is the last position of `target` in `tokens` */
  predicate LastAt(tokens: seq<string>, target: string, j: nat) {
    j < |tokens| && tokens[j] == target && forall m :: j < m < |tokens| ==> tokens[m] != target
  }

  /** `next_grams(tokens, target)` from position `i` on */
  function NextGramsFrom(tokens: seq<string>, target: string, i: nat): Option<seq<(string, string)>>
    requires i <= |tokens|
    decreases |tokens| - i
  {
    if i == |tokens| then Some([])
    else
      var rest := NextGramsFrom(tokens, target, i + 1);
      if tokens[i] != target then rest
      else if i + 1 == |tokens| then None
      else match CamelHead(tokens[i + 1])
        case None => None
        case Some(h) =>
          match rest
          case None => None
          case Some(pairs) => Some([(tokens[i], h)] + pairs)
  }

  /** The scan from `i` succeeds iff every later occurrence can be paired */
  lemma {:induction false} NextGramsFromDefined(tokens: seq<string>, target: string, i: nat)
    requires i <= |tokens|
    ensures NextGramsFrom(tokens, target, i).Some?
      <==> forall j :: i <= j < |tokens| && tokens[j] == target ==> Pairable(tokens, j)
    decreases |tokens| - i
  {
    if i < |tokens| {
      NextGramsFromDefined(tokens, target, i + 1);
    }
  }

  /** Every pair of the scan from `i` starts with the target, and there is
      none iff the target does not occur from `i` on */
  lemma {:induction false} NextGramsFromPairs(tokens: seq<string>, target: string, i: nat)
    requires i <= |tokens|
    ensures var r := NextGramsFrom(tokens, target, i);
      r.Some? ==> ((forall k :: 0 <= k < |r.value| ==> r.value[k].0 == target)
        && (r.value == [] <==> target !in tokens[i..]))
    decreases |tokens| - i
  {
    if i < |tokens| {
      NextGramsFromPairs(tokens, target, i + 1);
      assert tokens[i..] == [tokens[i]] + tokens[i + 1..];
    }
  }

  /** The last pair of the scan from `i` comes from the last occurrence */
  lemma {:induction false} NextGramsFromLast(tokens: seq<string>, target: string, i: nat)
    requires i <= |tokens|
    ensures var r := NextGramsFrom(tokens, target, i);
      r.Some? && r.value != [] ==>
        exists j :: i <= j && LastAt(tokens, target, j) && j + 1 < |tokens| && CamelHead(tokens[j + 1]) == Some(r.value[|r.value| - 1].1)
    decreases |tokens| - i
  {
    if i < |tokens| {
      var r := NextGramsFrom(tokens, target, i);
      var rest := NextGramsFrom(tokens, target, i + 1);
      NextGramsFromLast(tokens, target, i + 1);
      if r.Some? && r.value != [] && tokens[i] == target && rest == Some([]) {
        NextGramsFromPairs(tokens, target, i + 1);
        assert target !in tokens[i + 1..];
        assert forall m :: i < m < |tokens| ==> tokens[m] in tokens[i + 1..];
        assert LastAt(tokens, target, i);
      }
    }
  }

  /** `next_grams(target_list, target_name)` with `num_grams` 1, where the
      identity test `is` is read as equality. None stands for the
      IndexError raised when an occurrence of the target is the last token
      or is followed by a token with no camel-case segment; the pairs are
      the occurrences of the target, left to right. */
  function NextGrams(tokens: seq<string>, target: string): (r: Option<seq<(string, string)>>)
    ensures r.Some? <==> forall j :: 0 <= j < |tokens| && tokens[j] == target ==> Pairable(tokens, j)
    ensures r.Some? ==> forall k :: 0 <= k < |r.value| ==> r.value[k].0 == target
    ensures r.Some? ==> (r.value == [] <==> target !in tokens)
    ensures r.Some? && r.value != [] ==>
      exists j: nat :: LastAt(tokens, target, j) && j + 1 < |tokens| && CamelHead(tokens[j + 1]) == Some(r.value[|r.value| - 1].1)
  {
    NextGramsFromDefined(tokens, target, 0);
    NextGramsFromPairs(tokens, target, 0);
    NextGramsFromLast(tokens, target, 0);
    assert tokens[0..] == tokens;
    NextGramsFrom(tokens, target, 0)
  }

  /** The smaller of two `find` results, as `min` computes it */
  function Min(a: int, b: int): int { if a <= b then a else b }

  /** `fetch_username_str_from_link(link)`: the text after the first
      "/in/", cut at `min(find("?"), find("/"))` and stripped; without
      "/in/", the registrable domain label, where `domainLabelOf` stands
      for `get_tld(...).domain` and None for the AttributeError raised when
      `get_tld` fails */
  function FetchUsernameStrFromLink(link: string, domainLabelOf: string -> Option<string>): Option<string> {
    var at := FindSub(link, "/in/");
    if at >= 0 then
      var rest := link[at + 4..];
      Some(Strip(SliceTo(rest, Min(Find(rest, '?'), Find(rest, '/')))))
    else domainLabelOf(link)
  }

  /** The text that follows the first "/in/" of a link */
  function AfterIn(link: string): string
    requires Contains(link, "/in/")
  {
    link[FindSub(link, "/in/") + 4..]
  }

  /** With both '?' and '/' after "/in/", the slug is the stripped text up
      to whichever comes first, and that text holds neither */
  lemma SlugCutAtFirstMark(link: string, domainLabelOf: string -> Option<string>)
    requires Contains(link, "/in/")
    requires '?' in AfterIn(link) && '/' in AfterIn(link)
    ensures var rest := AfterIn(link);
      exists j :: 0 <= j < |rest| && (rest[j] == '?' || rest[j] == '/')
        && '?' !in rest[..j] && '/' !in rest[..j]
        && FetchUsernameStrFromLink(link, domainLabelOf) == Some(Strip(rest[..j]))
  {
    var rest := AfterIn(link);
    FindChar(rest, '?');
    FindChar(rest, '/');
    var j := Min(Find(rest, '?'), Find(rest, '/'));
    assert rest[..j] == rest[..Find(rest, '?')][..j] && rest[..j] == rest[..Find(rest, '/')][..j];
    assert SliceTo(rest, j) == rest[..j];
  }

  /** When '?' or '/' is missing after "/in/", `find` gives -1 and the
      slice drops the last character instead */
  lemma SlugDropsLastChar(link: string, domainLabelOf: string -> Option<string>)
    requires Contains(link, "/in/")
    requires '?' !in AfterIn(link) || '/' !in AfterIn(link)
    ensures var rest := AfterIn(link);
      FetchUsernameStrFromLink(link, domainLabelOf)
        == Some(Strip(if |rest| == 0 then [] else rest[..|rest| - 1]))
  {
    var rest := AfterIn(link);
    FindChar(rest, '?');
    FindChar(rest, '/');
    var cut := Min(Find(rest, '?'), Find(rest, '/'));
    assert cut == -1;
    assert SliceTo(rest, cut) == if |rest| == 0 then [] else rest[..|rest| - 1];
  }

  /** A link without "/in/" yields the domain label */
  lemma SlugFromDomain(link: string, domainLabelOf: string -> Option<string>)
    requires !Contains(link, "/in/")
    ensures FetchUsernameStrFromLink(link, domainLabelOf) == domainLabelOf(link)
  {
  }
}
