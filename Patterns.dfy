/** Hand-written matchers for the two whitespace patterns of the article text normaliser
    (src/lib.rs:42-43):

      LSP  `[\n ]\s+`          a newline or space followed by one or more whitespace characters
      WSP  `(?m)^[ \t\n]+$`    a line made only of spaces, tabs and newlines

    Both follow the regex engine's leftmost-first semantics: the leftmost position where a
    match exists wins, greedy repetition takes as much as still lets the rest of the pattern
    match, and replace_all continues after the end of each match without overlapping it. */
module Patterns {
  import opened Dom

  /** The class `\s`: the Unicode White_Space property. */
  predicate IsSpace(c: char) {
    ('\t' <= c <= '\r') || c == ' ' || c == '\U{0085}' || c == '\U{00A0}' || c == '\U{1680}'
    || ('\U{2000}' <= c <= '\U{200A}') || c == '\U{2028}' || c == '\U{2029}' || c == '\U{202F}'
    || c == '\U{205F}' || c == '\U{3000}'
  }

  /** The class `[ \t\n]`. */
  predicate IsBlank(c: char) {
    c == ' ' || c == '\t' || c == '\n'
  }

  // ---------------------------------------------------------------------------------------
  // LSP: `[\n ]\s+`

  /** A match of `[\n ]\s+` begins at position i. */
  predicate LspAt(s: string, i: nat) {
    i + 1 < |s| && (s[i] == '\n' || s[i] == ' ') && IsSpace(s[i + 1])
  }

  /** No match of `[\n ]\s+` anywhere in s. */
  predicate LspFree(s: string) {
    forall i :: 0 <= i < |s| ==> !LspAt(s, i)
  }

  /** The end of the longest run of whitespace that starts at k (greedy `\s+`). */
  function SpaceRunEnd(s: string, k: nat): (e: nat)
    requires k <= |s|
    ensures k <= e <= |s|
    ensures forall j :: k <= j < e ==> IsSpace(s[j])
    ensures e == |s| || !IsSpace(s[e])
    decreases |s| - k
  {
    if k < |s| && IsSpace(s[k]) then SpaceRunEnd(s, k + 1) else k
  }

  /** The leftmost match of `[\n ]\s+` that starts at or after `from`, as (start, end). */
  function FindLsp(s: string, from: nat): (r: Option<(nat, nat)>)
    requires from <= |s|
    ensures r.None? ==> forall i :: from <= i < |s| ==> !LspAt(s, i)
    ensures r.Some? ==> var (i, j) := r.value;
      && from <= i && LspAt(s, i) && i + 2 <= j <= |s|
      && j == SpaceRunEnd(s, i + 1)
      && forall k :: from <= k < i ==> !LspAt(s, k)
    decreases |s| - from
  {
    if from + 1 >= |s| then None
    else if LspAt(s, from) then Some((from, SpaceRunEnd(s, from + 1)))
    else FindLsp(s, from + 1)
  }

  /** `LSP_REGEXP.replace(s, rep)`: the leftmost match replaced, the rest untouched. */
  function LspReplaceFirst(s: string, rep: string): (r: string)
    ensures FindLsp(s, 0).None? ==> r == s
    ensures rep == [] ==> (r == s <==> FindLsp(s, 0).None?)
  {
    match FindLsp(s, 0)
    case None => s
    case Some((i, j)) => s[..i] + rep + s[j..]
  }

  /** `LSP_REGEXP.replace_all(s, rep)`. The pattern has no look-around, so searching the rest
      of the text after a match is the same as searching the suffix on its own. */
  function LspReplaceAll(s: string, rep: string): string
    decreases |s|
  {
    match FindLsp(s, 0)
    case None => s
    case Some((i, j)) => s[..i] + rep + LspReplaceAll(s[j..], rep)
  }

  // ---------------------------------------------------------------------------------------
  // WSP: `(?m)^[ \t\n]+$`, removed by replace_all with ""

  /** `^` in multi-line mode: the start of the text or just after a newline. */
  predicate LineStart(s: string, p: nat)
    requires p <= |s|
  {
    p == 0 || s[p - 1] == '\n'
  }

  /** `$` in multi-line mode: the end of the text or just before a newline. */
  predicate LineEnd(s: string, e: nat)
    requires e <= |s|
  {
    e == |s| || s[e] == '\n'
  }

  /** The end of the longest run of `[ \t\n]` that starts at k. */
  function BlankRunEnd(s: string, k: nat): (e: nat)
    requires k <= |s|
    ensures k <= e <= |s|
    ensures forall j :: k <= j < e ==> IsBlank(s[j])
    ensures e == |s| || !IsBlank(s[e])
    decreases |s| - k
  {
    if k < |s| && IsBlank(s[k]) then BlankRunEnd(s, k + 1) else k
  }

  /** Greedy `[ \t\n]+` backing off from `e` towards `p` until `$` holds: the largest end in
      (p, e] that is a line end. */
  function BackOff(s: string, p: nat, e: nat): (r: Option<nat>)
    requires p <= e <= |s|
    ensures r.Some? ==>
      (p < r.value <= e && LineEnd(s, r.value) && forall k :: r.value < k <= e ==> !LineEnd(s, k))
    ensures r.None? ==> forall k :: p < k <= e ==> !LineEnd(s, k)
    decreases e
  {
    if e <= p then None
    else if LineEnd(s, e) then Some(e)
    else BackOff(s, p, e - 1)
  }

  /** The end of the match of `(?m)^[ \t\n]+$` that starts at p, if one does: p is a line
      start, and the match is the longest non-empty run of blanks from p that ends at a line
      end. There is none when p is not a line start or no such run exists. */
  function WspAt(s: string, p: nat): (r: Option<nat>)
    requires p <= |s|
    ensures r.Some? ==> var e := r.value;
      && p < e <= |s| && LineStart(s, p) && LineEnd(s, e)
      && (forall j :: p <= j < e ==> IsBlank(s[j]))
      && forall k :: e < k <= |s| && (forall j :: p <= j < k ==> IsBlank(s[j])) ==> !LineEnd(s, k)
    ensures r.None? <==>
      || !LineStart(s, p)
      || forall k :: p < k <= |s| && (forall j :: p <= j < k ==> IsBlank(s[j])) ==> !LineEnd(s, k)
  {
    if LineStart(s, p) then
      BackOff(s, p, BlankRunEnd(s, p))
    else None
  }

  /** No match of `(?m)^[ \t\n]+$` starts anywhere in s. */
  predicate WspFree(s: string) {
    forall p :: 0 <= p <= |s| ==> WspAt(s, p).None?
  }

  /** replace_all with "" from position `pos` of s: the output for s[pos..]. The search keeps
      the whole text because `^` looks at the character before the position. */
  function WspRemoveFrom(s: string, pos: nat): string
    requires pos <= |s|
    decreases |s| - pos
  {
    if pos == |s| then []
    else match WspAt(s, pos)
      case Some(e) => WspRemoveFrom(s, e)
      case None => [s[pos]] + WspRemoveFrom(s, pos + 1)
  }

  /** `WSP_REGEXP.replace_all(s, "")`. */
  function WspRemove(s: string): string {
    WspRemoveFrom(s, 0)
  }

  // ---------------------------------------------------------------------------------------
  // Properties of the matchers

  /** Replacing every LSP match by a text without whitespace leaves no LSP match behind. */
  lemma {:induction false} LspReplaceAllIsFree(s: string, rep: string)
    requires forall k :: 0 <= k < |rep| ==> !IsSpace(rep[k])
    ensures LspFree(LspReplaceAll(s, rep))
    decreases |s|
  {
    match FindLsp(s, 0)
    case None =>
    case Some((i, j)) =>
      var rest := LspReplaceAll(s[j..], rep);
      LspReplaceAllIsFree(s[j..], rep);
      LspReplaceAllHead(s[j..], rep);
      assert LspFree(s[..i]) by {
        forall k | 0 <= k < i ensures !LspAt(s[..i], k) {
          assert !LspAt(s, k);
        }
      }
      LspFreeConcat(s[..i], rep);
      LspFreeConcat(s[..i] + rep, rest);
  }

  /** A text that does not begin with whitespace keeps its first character under replace_all. */
  lemma LspReplaceAllHead(t: string, rep: string)
    requires |t| > 0 ==> !IsSpace(t[0])
    ensures |t| > 0 ==> |LspReplaceAll(t, rep)| > 0 && LspReplaceAll(t, rep)[0] == t[0]
  {
    match FindLsp(t, 0)
    case None =>
    case Some((i, j)) =>
      assert i > 0;
  }

  /** Two LSP-free texts stay LSP-free when joined, unless the join creates a newline or
      space followed by whitespace. */
  lemma LspFreeConcat(a: string, b: string)
    requires LspFree(a) && LspFree(b)
    requires |a| > 0 && |b| > 0 ==> !IsSpace(b[0])
    ensures LspFree(a + b)
  {
    var ab := a + b;
    forall i | 0 <= i < |ab| ensures !LspAt(ab, i) {
      if i + 1 < |a| {
        assert !LspAt(a, i);
      } else if i >= |a| {
        assert !LspAt(b, i - |a|);
      }
    }
  }

  /** On a text without an LSP match, replace_all changes nothing. */
  lemma LspReplaceAllOfFree(s: string, rep: string)
    requires LspFree(s)
    ensures LspReplaceAll(s, rep) == s
  {
    assert FindLsp(s, 0).None?;
  }

  /** Past the first position, an LSP-free text has no WSP match: a line start after a newline
      is followed by a character that is not whitespace. */
  lemma LspFreeHasNoLateWsp(s: string, p: nat)
    requires LspFree(s) && 0 < p <= |s|
    ensures WspAt(s, p).None?
  {
    if LineStart(s, p) && p < |s| {
      assert !LspAt(s, p - 1);
    }
  }

  /** With no match at or after `pos`, removal copies the rest of the text. */
  lemma {:induction false} WspRemoveFromCopies(s: string, pos: nat)
    requires pos <= |s|
    requires forall p :: pos <= p <= |s| ==> WspAt(s, p).None?
    ensures WspRemoveFrom(s, pos) == s[pos..]
    decreases |s| - pos
  {
    if pos < |s| {
      WspRemoveFromCopies(s, pos + 1);
    }
  }

  /** A text with no WSP match is left as it is by the removal. */
  lemma WspRemoveOfFree(s: string)
    requires WspFree(s)
    ensures WspRemove(s) == s
  {
    WspRemoveFromCopies(s, 0);
  }

  /** On an LSP-free text the removal can only cut a blank prefix that ends at a newline or
      at the end of the text; what remains is LSP-free and WSP-free. */
  lemma {:induction false} WspRemoveOfLspFree(s: string)
    requires LspFree(s)
    ensures LspFree(WspRemove(s)) && WspFree(WspRemove(s))
  {
    forall p | 1 <= p <= |s| ensures WspAt(s, p).None? {
      LspFreeHasNoLateWsp(s, p);
    }
    if |s| == 0 {
      assert WspFree(s) by {
        assert WspAt(s, 0).None?;
      }
    } else {
      match WspAt(s, 0)
      case None =>
        WspRemoveFromCopies(s, 0);
        assert WspFree(s);
      case Some(e) =>
        WspRemoveFromCopies(s, e);
        var w := s[e..];
        assert WspRemove(s) == w;
        assert LspFree(w) by {
          forall k | 0 <= k < |w| ensures !LspAt(w, k) {
            assert !LspAt(s, e + k);
          }
        }
        if e < |s| {
          var q := BlankRunEnd(s, 0);
          assert s[e] == '\n';
          assert e < q;
          assert e + 1 < |s|;
          assert !IsSpace(s[e + 1]) by {
            assert !LspAt(s, e);
          }
          assert WspAt(w, 0).None? by {
            assert BlankRunEnd(w, 0) == 1 by {
              assert BlankRunEnd(w, 1) == 1;
            }
            assert !LineEnd(w, 1);
          }
          forall p | 1 <= p <= |w| ensures WspAt(w, p).None? {
            LspFreeHasNoLateWsp(w, p);
          }
        } else {
          assert w == [];
          assert WspAt(w, 0).None?;
        }
    }
  }

  // ---------------------------------------------------------------------------------------
  // str::trim

  /** The text without its leading whitespace. */
  function TrimStart(s: string): (r: string)
    ensures |r| <= |s| && r == s[|s| - |r|..]
    ensures r == [] || !IsSpace(r[0])
    ensures forall k :: 0 <= k < |s| - |r| ==> IsSpace(s[k])
  {
    if s != [] && IsSpace(s[0]) then TrimStart(s[1..]) else s
  }

  /** The text without its trailing whitespace. */
  function TrimEnd(s: string): (r: string)
    ensures |r| <= |s| && r == s[..|r|]
    ensures r == [] || !IsSpace(r[|r| - 1])
    ensures forall k :: |r| <= k < |s| ==> IsSpace(s[k])
  {
    if s != [] && IsSpace(s[|s| - 1]) then TrimEnd(s[..|s| - 1]) else s
  }

  /** `str::trim`: leading and trailing whitespace removed. */
  function Trim(s: string): string {
    TrimEnd(TrimStart(s))
  }
}
