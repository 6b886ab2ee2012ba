/** The Python `str` operations the name fetcher relies on. Letter case is
    ASCII only: a character outside `A`-`Z` and `a`-`z` is uncased and is
    left as it is by `Lower` and `Title`. */
module PyStr {

  predicate IsUpper(c: char) { 'A' <= c <= 'Z' }
  predicate IsLower(c: char) { 'a' <= c <= 'z' }
  predicate IsAlpha(c: char) { IsUpper(c) || IsLower(c) }
  predicate IsDigit(c: char) { '0' <= c <= '9' }

  /** The characters `str.isspace` accepts, which `str.strip()` removes */
  predicate IsSpace(c: char) {
    c == ' ' || '\t' <= c <= '\r' || '\U{1c}' <= c <= '\U{1f}' || c == '\U{85}' || c == '\U{a0}'
    || c == '\U{1680}' || '\U{2000}' <= c <= '\U{200a}' || c == '\U{2028}' || c == '\U{2029}'
    || c == '\U{202f}' || c == '\U{205f}' || c == '\U{3000}'
  }

  predicate IsNewline(c: char) { c == '\n' }

  function ToLower(c: char): (r: char)
    ensures IsUpper(c) ==> IsLower(r) && r as int == c as int + 32
    ensures !IsUpper(c) ==> r == c
  {
    if IsUpper(c) then (c as int + 32) as char else c
  }

  function ToUpper(c: char): (r: char)
    ensures IsLower(c) ==> IsUpper(r) && r as int + 32 == c as int
    ensures !IsLower(c) ==> r == c
  {
    if IsLower(c) then (c as int - 32) as char else c
  }

  /** `s.lower()` */
  function Lower(s: string): string {
    seq(|s|, i requires 0 <= i < |s| => ToLower(s[i]))
  }

  /** `s.title()`: a letter is upper-cased when the character before it is
      not a letter (or it comes first) and lower-cased otherwise */
  function Title(s: string): string {
    seq(|s|, i requires 0 <= i < |s| => if i > 0 && IsAlpha(s[i - 1]) then ToLower(s[i]) else ToUpper(s[i]))
  }

  /** A string that `title()` leaves unchanged */
  predicate IsTitled(s: string) { Title(s) == s }

  lemma TitleIdempotent(s: string)
    ensures IsTitled(Title(s))
  {
    var t := Title(s);
    forall i | 0 <= i < |s| ensures Title(t)[i] == t[i] {
      if i > 0 {
        assert IsAlpha(t[i - 1]) == IsAlpha(s[i - 1]);
      }
    }
  }

  /** Title-casing changes only letter case: both sides lower-case alike */
  lemma TitleKeepsLetters(s: string)
    ensures Lower(Title(s)) == Lower(s)
  {
  }

  /** `s.lstrip(chars)` for the characters `p` accepts */
  function TrimStart(s: string, p: char -> bool): (r: string)
    ensures |r| <= |s| && r == s[|s| - |r|..]
    ensures forall i :: 0 <= i < |s| - |r| ==> p(s[i])
    ensures |r| > 0 ==> !p(r[0])
  {
    if |s| > 0 && p(s[0]) then
      var r := TrimStart(s[1..], p);
      assert s[1..][|s| - 1 - |r|..] == s[|s| - |r|..];
      assert forall i :: 1 <= i < |s| - |r| ==> s[i] == s[1..][i - 1];
      r
    else s
  }

  /** `s.rstrip(chars)` for the characters `p` accepts */
  function TrimEnd(s: string, p: char -> bool): (r: string)
    ensures |r| <= |s| && r == s[..|r|]
    ensures forall i :: |r| <= i < |s| ==> p(s[i])
    ensures |r| > 0 ==> !p(r[|r| - 1])
  {
    if |s| > 0 && p(s[|s| - 1]) then TrimEnd(s[..|s| - 1], p) else s
  }

  /** `s.strip(chars)` */
  function StripBy(s: string, p: char -> bool): string {
    TrimEnd(TrimStart(s, p), p)
  }

  /** `s.strip()` */
  function Strip(s: string): string { StripBy(s, IsSpace) }

  /** What `strip` keeps is a piece of the string, framed by stripped
      characters, with no stripped character at either end */
  lemma StripBySpec(s: string, p: char -> bool)
    ensures var r := StripBy(s, p);
      exists a :: OccursAt(s, r, a)
        && (forall i :: 0 <= i < a ==> p(s[i]))
        && (forall i :: a + |r| <= i < |s| ==> p(s[i]))
        && (|r| > 0 ==> !p(r[0]) && !p(r[|r| - 1]))
  {
    var t := TrimStart(s, p);
    var r := TrimEnd(t, p);
    var a := |s| - |t|;
    assert s[a..a + |r|] == r by {
      assert s[a..] == t && t[..|r|] == r;
      assert s[a..a + |r|] == s[a..][..|r|];
    }
    assert forall i :: 0 <= i < a ==> p(s[i]);
    assert forall i :: a + |r| <= i < |s| ==> p(s[i]) by {
      forall i | a + |r| <= i < |s| ensures p(s[i]) {
        assert s[i] == t[i - a];
      }
    }
    assert |r| > 0 ==> !p(r[0]) && !p(r[|r| - 1]) by {
      if |r| > 0 {
        assert r[0] == t[0];
      }
    }
    assert r == StripBy(s, p);
    assert OccursAt(s, r, a)
      && (forall i :: 0 <= i < a ==> p(s[i]))
      && (forall i :: a + |r| <= i < |s| ==> p(s[i]))
      && (|r| > 0 ==> !p(r[0]) && !p(r[|r| - 1]));
  }

  /** `s.count(c)` for a one-character string */
  function Count(s: string, c: char): nat {
    if |s| == 0 then 0 else (if s[0] == c then 1 else 0) + Count(s[1..], c)
  }

  lemma CountZero(s: string, c: char)
    ensures Count(s, c) == 0 <==> c !in s
  {
    if |s| > 0 {
      CountZero(s[1..], c);
      assert s == [s[0]] + s[1..];
    }
  }

  /** `sep.join(parts)` */
  function Join(parts: seq<string>, sep: char): string {
    if |parts| == 0 then [] else if |parts| == 1 then parts[0] else parts[0] + [sep] + Join(parts[1..], sep)
  }

  /** `s.split(sep, maxsplit)` for a one-character separator; a negative
      `maxsplit` means no limit, as in Python */
  function Split(s: string, sep: char, maxsplit: int): (r: seq<string>)
    ensures |r| >= 1
  {
    if |s| == 0 then [[]]
    else if s[0] == sep && maxsplit != 0 then [[]] + Split(s[1..], sep, if maxsplit > 0 then maxsplit - 1 else maxsplit)
    else
      var rest := Split(s[1..], sep, maxsplit);
      [[s[0]] + rest[0]] + rest[1..]
  }

  /** Joining the pieces back with the separator gives the string again,
      whatever `maxsplit` is */
  lemma {:induction false} SplitJoin(s: string, sep: char, maxsplit: int)
    ensures Join(Split(s, sep, maxsplit), sep) == s
  {
    if |s| > 0 {
      var m := if s[0] == sep && maxsplit != 0 then (if maxsplit > 0 then maxsplit - 1 else maxsplit) else maxsplit;
      var rest := Split(s[1..], sep, m);
      SplitJoin(s[1..], sep, m);
      if s[0] == sep && maxsplit != 0 {
        assert Split(s, sep, maxsplit) == [[]] + rest;
        if |rest| == 1 {
          assert Join([[]] + rest, sep) == [] + [sep] + rest[0];
        } else {
          assert Join([[]] + rest, sep) == [] + [sep] + Join(rest, sep);
        }
      } else {
        var r := Split(s, sep, maxsplit);
        assert r == [[s[0]] + rest[0]] + rest[1..];
        if |rest| == 1 {
          assert Join(r, sep) == [s[0]] + rest[0];
        } else {
          assert r[1..] == rest[1..];
          assert Join(rest, sep) == rest[0] + [sep] + Join(rest[1..], sep);
          assert Join(r, sep) == ([s[0]] + rest[0]) + [sep] + Join(rest[1..], sep);
        }
      }
    }
  }

  /** With no limit, or a limit no smaller than the number of separators,
      every separator splits: one more piece than separators, none of them
      holding the separator */
  lemma {:induction false} SplitEvery(s: string, sep: char, maxsplit: int)
    requires maxsplit < 0 || maxsplit >= Count(s, sep)
    ensures var r := Split(s, sep, maxsplit);
      |r| == Count(s, sep) + 1 && forall k :: 0 <= k < |r| ==> sep !in r[k]
  {
    if |s| > 0 {
      if s[0] == sep && maxsplit != 0 {
        SplitEvery(s[1..], sep, if maxsplit > 0 then maxsplit - 1 else maxsplit);
      } else {
        SplitEvery(s[1..], sep, maxsplit);
        var rest := Split(s[1..], sep, maxsplit);
        var r := Split(s, sep, maxsplit);
        assert r[0] == [s[0]] + rest[0];
        forall k | 0 <= k < |r| ensures sep !in r[k] {
          if k > 0 { assert r[k] == rest[k]; }
        }
      }
    }
  }

  /** Splitting a join of separator-free pieces gives the pieces back */
  lemma {:induction false} JoinSplit(parts: seq<string>, sep: char)
    requires |parts| >= 1
    requires forall k :: 0 <= k < |parts| ==> sep !in parts[k]
    ensures Split(Join(parts, sep), sep, -1) == parts
  {
    if |parts| == 1 {
      NoSepSplit(parts[0], sep);
    } else {
      JoinSplit(parts[1..], sep);
      SplitAfterPiece(parts[0], Join(parts[1..], sep), sep);
      assert [parts[0]] + parts[1..] == parts;
    }
  }

  lemma {:induction false} NoSepSplit(s: string, sep: char)
    requires sep !in s
    ensures Split(s, sep, -1) == [s]
  {
    if |s| > 0 {
      NoSepSplit(s[1..], sep);
      assert [s[0]] + s[1..] == s;
    }
  }

  lemma {:induction false} SplitAfterPiece(a: string, b: string, sep: char)
    requires sep !in a
    ensures Split(a + [sep] + b, sep, -1) == [a] + Split(b, sep, -1)
  {
    if |a| == 0 {
      assert [] + [sep] + b == [sep] + b;
      assert ([sep] + b)[1..] == b;
    } else {
      SplitAfterPiece(a[1..], b, sep);
      var s := a + [sep] + b;
      assert s[0] == a[0] && s[1..] == a[1..] + [sep] + b;
      assert [a[0]] + a[1..] == a;
    }
  }

  /** `p` occurs in `s` starting at index `j` */
  predicate OccursAt(s: string, p: string, j: int) {
    0 <= j && j + |p| <= |s| && s[j..j + |p|] == p
  }

  /** `s.find(p)`: the index of the first occurrence of `p` in `s`, or -1
      when there is none */
  function FindSub(s: string, p: string): (r: int)
    ensures r >= -1
    ensures r >= 0 ==> OccursAt(s, p, r) && forall j :: 0 <= j < r ==> !OccursAt(s, p, j)
    ensures r == -1 ==> forall j :: !OccursAt(s, p, j)
  {
    if |s| < |p| then -1
    else if s[..|p|] == p then 0
    else
      var k := FindSub(s[1..], p);
      assert forall j :: 1 <= j ==> OccursAt(s, p, j) == OccursAt(s[1..], p, j - 1) by {
        forall j | 1 <= j ensures OccursAt(s, p, j) == OccursAt(s[1..], p, j - 1) {
          OccursShift(s, p, j);
        }
      }
      if k < 0 then -1 else k + 1
  }

  /** An occurrence at `j >= 1` is one at `j - 1` in the string without its
      first character */
  lemma OccursShift(s: string, p: string, j: int)
    requires 1 <= j && |s| >= 1
    ensures OccursAt(s, p, j) == OccursAt(s[1..], p, j - 1)
  {
    if j + |p| <= |s| {
      var a, b := s[j..j + |p|], s[1..][j - 1..j - 1 + |p|];
      forall k | 0 <= k < |p| ensures a[k] == b[k] {
        assert a[k] == s[j + k] && b[k] == s[1..][j - 1 + k];
      }
      assert a == b;
    }
  }

  /** `p in s` */
  predicate Contains(s: string, p: string) { FindSub(s, p) >= 0 }

  /** `s.startswith(p)` */
  predicate StartsWith(s: string, p: string) { |p| <= |s| && s[..|p|] == p }

  /** `s.find(c)` for a one-character string */
  function Find(s: string, c: char): int { FindSub(s, [c]) }

  lemma FindChar(s: string, c: char)
    ensures Find(s, c) == -1 <==> c !in s
    ensures Find(s, c) >= 0 ==> Find(s, c) < |s| && s[Find(s, c)] == c && c !in s[..Find(s, c)]
  {
    var r := Find(s, c);
    forall j | 0 <= j < |s| ensures OccursAt(s, [c], j) <==> s[j] == c {
      assert s[j..j + 1] == [s[j]];
    }
    if r >= 0 {
      assert OccursAt(s, [c], r);
      forall j | 0 <= j < r ensures s[..r][j] != c { assert !OccursAt(s, [c], j); }
    } else {
      forall j | 0 <= j < |s| ensures s[j] != c { assert !OccursAt(s, [c], j); }
    }
  }

  /** `s.find(p) == 0` holds exactly when `s` starts with `p` */
  lemma FindZeroIsPrefix(s: string, p: string)
    ensures FindSub(s, p) == 0 <==> StartsWith(s, p)
  {
  }

  /** A Python slice index taken against a length: negative indices count
      from the end, and out-of-range ones are clamped */
  function SliceIndex(i: int, n: nat): (r: nat)
    ensures r <= n
  {
    if i < 0 then (if i + n < 0 then 0 else i + n) else if i > n then n else i
  }

  /** `s[i:]` */
  function SliceFrom(s: string, i: int): string { s[SliceIndex(i, |s|)..] }

  /** `s[:i]` */
  function SliceTo(s: string, i: int): string { s[..SliceIndex(i, |s|)] }

  /** `re.findall(r"\d+", s)` is non-empty */
  predicate ContainsDigit(s: string) { exists i :: 0 <= i < |s| && IsDigit(s[i]) }
}
