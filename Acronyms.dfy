/** The acronym rewrite of the raw source text, `ACRO_REGEXP.replace_all(data, "$2$1")`
    (src/lib.rs:44, 212). The pattern is

      (<pos><abr>.*?</pos>)([a-zA-Zа-яА-ЯёЁłŁóÓńŃśŚćĆźŹżŻęĘąĄ]+)

    and each match is replaced by its second group followed by its first: the letters that
    trail a part-of-speech marker are moved in front of it. `.` matches any character but a
    newline; `.*?` is lazy, so the first `</pos>` that is followed by a letter closes the
    marker; the letter run is greedy. */
module Acronyms {
  import opened Dom

  const MarkerOpen := "<pos><abr>"
  const MarkerClose := "</pos>"

  /** The accented letters of the class, beyond the Latin and Cyrillic ranges. */
  const StemExtras: set<char> := {'ё', 'Ё', 'ł', 'Ł', 'ó', 'Ó', 'ń', 'Ń', 'ś', 'Ś', 'ć', 'Ć', 'ź', 'Ź', 'ż', 'Ż', 'ę', 'Ę', 'ą', 'Ą'}

  /** The letter class of the second group. */
  predicate IsStemLetter(c: char) {
    ('a' <= c <= 'z') || ('A' <= c <= 'Z') || ('а' <= c <= 'я') || ('А' <= c <= 'Я')
    || c in StemExtras
  }

  /** `pat` occurs in s at position i. */
  predicate OccursAt(s: string, i: nat, pat: string) {
    i + |pat| <= |s| && s[i..i + |pat|] == pat
  }

  /** The end of the longest run of stem letters that starts at k. */
  function LetterRunEnd(s: string, k: nat): (e: nat)
    requires k <= |s|
    ensures k <= e <= |s|
    ensures forall j :: k <= j < e ==> IsStemLetter(s[j])
    ensures e == |s| || !IsStemLetter(s[e])
    decreases |s| - k
  {
    if k < |s| && IsStemLetter(s[k]) then LetterRunEnd(s, k + 1) else k
  }

  /** `</pos>` at m, followed by a stem letter: where the first group may end. */
  predicate CloseAt(s: string, m: nat) {
    OccursAt(s, m, MarkerClose) && m + |MarkerClose| < |s| && IsStemLetter(s[m + |MarkerClose|])
  }

  /** Lazy `.*?` from k: the first position m at or after k, with no newline in s[k..m], where
      `</pos>` occurs and is followed by a stem letter; None when there is no such position. */
  function FindClose(s: string, k: nat): (r: Option<nat>)
    requires k <= |s|
    ensures r.Some? ==>
      (k <= r.value && CloseAt(s, r.value)
       && forall m :: k <= m < r.value ==> s[m] != '\n' && !CloseAt(s, m))
    ensures r.None? ==>
      forall m :: k <= m <= |s| && (forall j :: k <= j < m ==> s[j] != '\n') ==> !CloseAt(s, m)
    decreases |s| - k
  {
    if CloseAt(s, k) then Some(k)
    else if k < |s| && s[k] != '\n' then FindClose(s, k + 1)
    else None
  }

  /** The match that starts at position 0 of s, as (c, e): the first group is s[..c], the second
      s[c..e]. The first group ends at the first `</pos>` after the marker that is followed by a
      letter, with no newline before it; the second is the whole letter run after it. There is
      no match when the marker is missing or no such `</pos>` comes before the next newline. */
  function MatchAtStart(s: string): (r: Option<(nat, nat)>)
    ensures r.Some? ==> var (c, e) := r.value;
      && OccursAt(s, 0, MarkerOpen) && |MarkerOpen| + |MarkerClose| <= c < e <= |s|
      && CloseAt(s, c - |MarkerClose|)
      && (forall m :: |MarkerOpen| <= m < c - |MarkerClose| ==> s[m] != '\n' && !CloseAt(s, m))
      && (forall j :: c <= j < e ==> IsStemLetter(s[j]))
      && (e == |s| || !IsStemLetter(s[e]))
    ensures r.None? <==>
      || !OccursAt(s, 0, MarkerOpen)
      || forall m :: |MarkerOpen| <= m <= |s| && (forall j :: |MarkerOpen| <= j < m ==> s[j] != '\n') ==> !CloseAt(s, m)
  {
    if OccursAt(s, 0, MarkerOpen) then
      match FindClose(s, |MarkerOpen|)
      case None => None
      case Some(m) =>
        var c := m + |MarkerClose|;
        Some((c, LetterRunEnd(s, c)))
    else None
  }

  /** `ACRO_REGEXP.replace_all(s, "$2$1")`. The pattern has no look-around, so the search that
      continues after a match sees only the rest of the text. */
  function AcroRewrite(s: string): string
    decreases |s|
  {
    if s == [] then []
    else match MatchAtStart(s)
      case Some((c, e)) => s[c..e] + s[..c] + AcroRewrite(s[e..])
      case None => [s[0]] + AcroRewrite(s[1..])
  }

  /** The rewrite only moves characters around: the result is a permutation of the input, and
      so has the same length. */
  lemma {:induction false} AcroRewritePermutes(s: string)
    ensures multiset(AcroRewrite(s)) == multiset(s)
    ensures |AcroRewrite(s)| == |s|
    decreases |s|
  {
    if s != [] {
      match MatchAtStart(s)
      case Some((c, e)) =>
        AcroRewriteUnfoldMatch(s, c, e);
        AcroRewritePermutes(s[e..]);
        SwappedParts(s, c, e, AcroRewrite(s[e..]));
      case None =>
        AcroRewriteUnfoldNone(s);
        AcroRewritePermutes(s[1..]);
        assert s == [s[0]] + s[1..];
    }
  }

  /** Swapping the two groups in front of a permuted rest permutes the whole text. */
  lemma SwappedParts(s: string, c: nat, e: nat, t: string)
    requires c <= e <= |s|
    requires multiset(t) == multiset(s[e..]) && |t| == |s| - e
    ensures multiset(s[c..e] + s[..c] + t) == multiset(s)
    ensures |s[c..e] + s[..c] + t| == |s|
  {
    assert s == s[..c] + s[c..e] + s[e..];
  }

  /** Text in which `<pos><abr>` does not occur is returned unchanged. */
  lemma {:induction false} AcroRewriteWithoutMarker(s: string)
    requires forall i :: 0 <= i <= |s| ==> !OccursAt(s, i, MarkerOpen)
    ensures AcroRewrite(s) == s
    decreases |s|
  {
    if s != [] {
      assert !OccursAt(s, 0, MarkerOpen);
      forall i | 0 <= i <= |s| - 1 ensures !OccursAt(s[1..], i, MarkerOpen) {
        assert !OccursAt(s, i + 1, MarkerOpen);
        if i + |MarkerOpen| <= |s| - 1 {
          assert s[1..][i..i + |MarkerOpen|] == s[i + 1..i + 1 + |MarkerOpen|];
        }
      }
      AcroRewriteWithoutMarker(s[1..]);
    }
  }

  /** A chunk `<pos><abr>…</pos>` followed by stem letters at the start of the text comes out
      with the letters first and the chunk right after them. */
  lemma AcroRewriteSwaps(s: string, c: nat, e: nat)
    requires MatchAtStart(s) == Some((c, e))
    ensures var r := AcroRewrite(s);
      && e <= |r|
      && r[..e - c] == s[c..e]
      && r[e - c..e] == s[..c]
      && OccursAt(r, e - c, MarkerOpen)
      && forall k :: 0 <= k < e - c ==> IsStemLetter(r[k])
  {
    AcroRewriteUnfoldMatch(s, c, e);
    SwapShape(s, c, e, AcroRewrite(s[e..]));
  }

  /** Where the letters and the marker group sit in s[c..e] + s[..c] + t. */
  lemma SwapShape(s: string, c: nat, e: nat, t: string)
    requires OccursAt(s, 0, MarkerOpen) && |MarkerOpen| <= c <= e <= |s|
    requires forall j :: c <= j < e ==> IsStemLetter(s[j])
    ensures var r := s[c..e] + s[..c] + t;
      && e <= |r|
      && r[..e - c] == s[c..e]
      && r[e - c..e] == s[..c]
      && OccursAt(r, e - c, MarkerOpen)
      && forall k :: 0 <= k < e - c ==> IsStemLetter(r[k])
  {
    var stem, chunk := s[c..e], s[..c];
    ThreeParts(stem, chunk, t);
    var r := stem + chunk + t;
    assert e - c == |stem| && e == |stem| + |chunk|;
    assert chunk[..|MarkerOpen|] == s[..|MarkerOpen|];
    assert r[e - c..e - c + |MarkerOpen|] == chunk[..|MarkerOpen|];
    forall k | 0 <= k < e - c ensures IsStemLetter(r[k]) {
      assert r[k] == stem[k] == s[c + k];
    }
  }

  /** The first match in the text, at position i with no match starting earlier, is rewritten
      in place: everything before it is copied, its letters come next, its chunk after them,
      and the rewrite carries on behind the letter run. */
  lemma AcroRewriteSwapsAt(s: string, i: nat, c: nat, e: nat)
    requires i < |s|
    requires forall j :: 0 <= j < i ==> MatchAtStart(s[j..]).None?
    requires MatchAtStart(s[i..]) == Some((c, e))
    ensures i + e <= |s|
    ensures AcroRewrite(s) == s[..i] + s[i + c..i + e] + s[i..i + c] + AcroRewrite(s[i + e..])
  {
    AcroRewriteCopies(s, i);
    var u := s[i..];
    AcroRewriteUnfoldMatch(u, c, e);
    assert u[e..] == s[i + e..];
    SplitAt(s, i, c, e, AcroRewrite(s[i + e..]));
  }

  /** The slices of s[i..] as slices of s, regrouped behind the prefix s[..i]. */
  lemma SplitAt(s: string, i: nat, c: nat, e: nat, x: string)
    requires c <= e && i + e <= |s|
    ensures s[..i] + (s[i..][c..e] + s[i..][..c] + x) == s[..i] + s[i + c..i + e] + s[i..i + c] + x
  {
    assert s[i..][c..e] == s[i + c..i + e];
    assert s[i..][..c] == s[i..i + c];
  }

  /** Up to the first position where a match starts, the rewrite copies the text. */
  lemma {:induction false} AcroRewriteCopies(s: string, i: nat)
    requires i <= |s|
    requires forall j :: 0 <= j < i ==> MatchAtStart(s[j..]).None?
    ensures AcroRewrite(s) == s[..i] + AcroRewrite(s[i..])
    decreases i
  {
    if i > 0 {
      assert s[0..] == s;
      AcroRewriteUnfoldNone(s);
      var t := s[1..];
      forall j | 0 <= j < i - 1 ensures MatchAtStart(t[j..]).None? {
        assert t[j..] == s[j + 1..];
      }
      AcroRewriteCopies(t, i - 1);
      assert t[i - 1..] == s[i..];
      ConsPrefix(s, i, AcroRewrite(s[i..]));
    }
  }

  /** Regrouping the first character of s with the copied prefix behind it. */
  lemma ConsPrefix(s: string, i: nat, x: string)
    requires 0 < i <= |s|
    ensures [s[0]] + (s[1..][..i - 1] + x) == s[..i] + x
  {
    assert s[..i] == [s[0]] + s[1..][..i - 1];
  }

  /** One step of the rewrite where a match starts. */
  lemma AcroRewriteUnfoldMatch(s: string, c: nat, e: nat)
    requires MatchAtStart(s) == Some((c, e))
    ensures e <= |s|
    ensures AcroRewrite(s) == s[c..e] + s[..c] + AcroRewrite(s[e..])
  {
  }

  /** One step of the rewrite where no match starts. */
  lemma AcroRewriteUnfoldNone(s: string)
    requires s != [] && MatchAtStart(s).None?
    ensures AcroRewrite(s) == [s[0]] + AcroRewrite(s[1..])
  {
  }

  /** Where the three parts of a concatenation sit. */
  lemma ThreeParts(a: string, b: string, t: string)
    ensures |a + b + t| == |a| + |b| + |t|
    ensures (a + b + t)[..|a|] == a
    ensures (a + b + t)[|a|..|a| + |b|] == b
    ensures forall k :: 0 <= k < |a| ==> (a + b + t)[k] == a[k]
  {
  }

  /** A part-of-speech chunk followed by a stem ending is a match at the start. */
  lemma SampleMatch()
    ensures MatchAtStart("<pos><abr>r</pos>łw") == Some((17, 19))
  {
    var s := "<pos><abr>r</pos>łw";
    assert OccursAt(s, 0, MarkerOpen);
    assert CloseAt(s, 11);
    assert FindClose(s, 10) == Some(11);
    assert LetterRunEnd(s, 17) == 19;
  }
}
