/** The text normaliser `replace_sps` (src/lib.rs:46-60), which every text node of an article
    goes through, together with the article-wide `first_br` flag it may clear. */
module Spaces {
  import opened Dom
  import opened Patterns

  /** The line-break marker that replaces a whitespace run. */
  const LineBreak := "<br/>"

  /** What `replace_sps(s, first_br)` returns, paired with the value `first_br` has afterwards. */
  function Normalize(s: string, firstBr: bool): (string, bool) {
    var (kept, flag) :=
      if firstBr then
        var d := LspReplaceFirst(s, "");
        (d, d == s)
      else (s, false);
    (WspRemove(LspReplaceAll(kept, LineBreak)), flag)
  }

  /** replace_sps. While the flag is set, the leftmost `[\n ]\s+` run is deleted, and the flag is
      cleared exactly when that deleted something; every remaining run becomes a line break, and
      blank lines are erased. */
  method ReplaceSps(s: string, firstBr: bool) returns (res: string, firstBr': bool)
    ensures (res, firstBr') == Normalize(s, firstBr)
    ensures firstBr' <==> firstBr && FindLsp(s, 0).None?
    ensures LspFree(res)
  {
    firstBr' := firstBr;
    if firstBr {
      res := LspReplaceFirst(s, "");
      if res != s {
        firstBr' := false;
      }
    } else {
      res := s;
    }
    res := LspReplaceAll(res, LineBreak);
    res := WspRemove(res);
    NormalizeFlag(s, firstBr);
    NormalizeLeavesNoRun(s, firstBr);
  }

  /** The flag only goes from true to false, and only when the leftmost run was there to delete. */
  lemma NormalizeFlag(s: string, firstBr: bool)
    ensures Normalize(s, firstBr).1 <==> firstBr && FindLsp(s, 0).None?
  {
    if firstBr {
      match FindLsp(s, 0)
      case None =>
      case Some((i, j)) =>
        assert |LspReplaceFirst(s, "")| < |s|;
    }
  }

  /** The normalised text has no `[\n ]\s+` run and no blank line left. */
  lemma NormalizeLeavesNoRun(s: string, firstBr: bool)
    ensures LspFree(Normalize(s, firstBr).0) && WspFree(Normalize(s, firstBr).0)
  {
    var kept := if firstBr then LspReplaceFirst(s, "") else s;
    LspReplaceAllIsFree(kept, LineBreak);
    WspRemoveOfLspFree(LspReplaceAll(kept, LineBreak));
  }

  /** Normalising the output again, with the flag cleared, changes nothing. */
  lemma NormalizeIdempotent(s: string, firstBr: bool)
    ensures var r := Normalize(s, firstBr).0; Normalize(r, false) == (r, false)
  {
    var r := Normalize(s, firstBr).0;
    NormalizeLeavesNoRun(s, firstBr);
    LspReplaceAllOfFree(r, LineBreak);
    WspRemoveOfFree(r);
  }
}
