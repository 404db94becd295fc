/** The article formatter `format_node` (src/lib.rs:92-143) and the text extraction `nodeval`
    (src/lib.rs:29-40), as functions over the document tree. The formatter threads the title
    and the article-wide `first_br` flag through a depth-first, left-to-right walk. */
module Formatting {
  import opened Dom
  import opened Patterns
  import opened Spaces

  const PosOpen := "<span class='partofspeech'>"
  const PosClose := "</span>"

  /** nodeval: a text node's text, or the text of an element's first child. */
  function NodeVal(n: Node): (r: Result<string>)
    ensures r.Ok? <==> n.Text? || (n.Elem? && |n.children| > 0 && n.children[0].Text?)
    ensures n.Text? ==> r == Ok(n.text)
    ensures n.Elem? && r.Ok? ==> r.value == n.children[0].text
    ensures r.Err? ==> r.error == InvalidNode
  {
    match n
    case Text(t) => Ok(t)
    case Elem(_, cs) =>
      if |cs| > 0 && cs[0].Text? then Ok(cs[0].text) else Err(InvalidNode)
    case Other => Err(InvalidNode)
  }

  /** The text a `<k>` element sets the title to: nodeval of its first child. */
  function Headword(cs: seq<Node>): (r: Result<string>)
    ensures r == Err(MissingChild) <==> |cs| == 0
    ensures r.Ok? <==> |cs| > 0 && (cs[0].Text? || (cs[0].Elem? && |cs[0].children| > 0 && cs[0].children[0].Text?))
    ensures |cs| > 0 && cs[0].Text? ==> r == Ok(cs[0].text)
    ensures |cs| > 0 && r.Err? ==> r.error == InvalidNode
  {
    if |cs| == 0 then Err(MissingChild) else NodeVal(cs[0])
  }

  /** The markup an `<abr>` element becomes: its key is the text of its first child, and the
      key must be in the abbreviation table. */
  function Acronym(abbrs: map<string, string>, cs: seq<Node>): (r: Result<string>)
    ensures r.Ok? <==> |cs| > 0 && cs[0].Text? && cs[0].text in abbrs
    ensures r.Ok? ==> var key := cs[0].text;
      && |r.value| == |"<acronym title='"| + |abbrs[key]| + |"'>"| + |key| + |"</acronym>"|
      && r.value[|"<acronym title='"|..|"<acronym title='"| + |abbrs[key]|] == abbrs[key]
    ensures r == Err(MissingChild) <==> |cs| == 0
    ensures r == Err(NotText) <==> |cs| > 0 && !cs[0].Text?
    ensures forall k :: r == Err(UndefinedAbbreviation(k)) <==> |cs| > 0 && cs[0] == Text(k) && k !in abbrs
  {
    if |cs| == 0 then Err(MissingChild)
    else if !cs[0].Text? then Err(NotText)
    else
      var key := cs[0].text;
      if key !in abbrs then Err(UndefinedAbbreviation(key))
      else Ok("<acronym title='" + abbrs[key] + "'>" + key + "</acronym>")
  }

  /** The state after formatting a node: the title so far, the output of the node, and the
      value of `first_br`. */
  datatype Formatted = Formatted(title: string, out: string, firstBr: bool)

  /** format_node(n, title, first_br). */
  function Format(abbrs: map<string, string>, n: Node, title: string, firstBr: bool): Result<Formatted>
    decreases n
  {
    match n
    case Text(s) =>
      var (out, flag) := Normalize(s, firstBr);
      Ok(Formatted(title, out, flag))
    case Other => Ok(Formatted(title, "", firstBr))
    case Elem(name, cs) =>
      if name == "pos" then
        Wrap(PosOpen, FormatAll(abbrs, cs, title, false), PosClose)
      else if name == "br" then
        Ok(Formatted(title, if firstBr then LineBreak else "", firstBr))
      else if name == "abr" then
        match Acronym(abbrs, cs)
        case Err(e) => Err(e)
        case Ok(out) => Ok(Formatted(title, out, false))
      else if name == "k" then
        match Headword(cs)
        case Err(e) => Err(e)
        case Ok(t) => Ok(Formatted(t, "", firstBr))
      else if name == "ar" then
        FormatAll(abbrs, cs, title, firstBr)
      else
        Wrap("<" + name + ">", FormatAll(abbrs, cs, title, firstBr), "</" + name + ">")
  }

  /** The children of an element formatted one after the other, their outputs concatenated. */
  function FormatAll(abbrs: map<string, string>, cs: seq<Node>, title: string, firstBr: bool): Result<Formatted>
    decreases cs, 1
  {
    if cs == [] then Ok(Formatted(title, "", firstBr))
    else Continue(abbrs, Format(abbrs, cs[0], title, firstBr), cs[1..])
  }

  /** Formatting `rest` from the state `r` ends in, after the output of `r`. */
  function Continue(abbrs: map<string, string>, r: Result<Formatted>, rest: seq<Node>): Result<Formatted>
    decreases rest, 2
  {
    match r
    case Err(e) => Err(e)
    case Ok(f) => Prepend(f.out, FormatAll(abbrs, rest, f.title, f.firstBr))
  }

  function Wrap(open: string, r: Result<Formatted>, close: string): Result<Formatted> {
    match r
    case Err(e) => Err(e)
    case Ok(f) => Ok(Formatted(f.title, open + f.out + close, f.firstBr))
  }

  function Prepend(out: string, r: Result<Formatted>): Result<Formatted> {
    Wrap(out, r, "")
  }

  // ---------------------------------------------------------------------------------------
  // Composition over children

  /** Formatting a sequence of children in two parts gives the same as formatting it whole:
      the second part starts from the state the first part ends in. */
  lemma {:induction false} FormatAllAppend(abbrs: map<string, string>, xs: seq<Node>, ys: seq<Node>, title: string, firstBr: bool)
    ensures FormatAll(abbrs, xs + ys, title, firstBr) == Continue(abbrs, FormatAll(abbrs, xs, title, firstBr), ys)
    decreases |xs|
  {
    if xs == [] {
      assert xs + ys == ys;
      match FormatAll(abbrs, ys, title, firstBr)
      case Err(_) =>
      case Ok(g) => assert "" + g.out + "" == g.out;
    } else {
      assert (xs + ys)[0] == xs[0] && (xs + ys)[1..] == xs[1..] + ys;
      match Format(abbrs, xs[0], title, firstBr)
      case Err(_) =>
      case Ok(f) =>
        FormatAllAppend(abbrs, xs[1..], ys, f.title, f.firstBr);
        ContinuePrepend(abbrs, f.out, FormatAll(abbrs, xs[1..], f.title, f.firstBr), ys);
    }
  }

  /** Output produced before a loop stays in front of what the loop then produces. */
  lemma ContinuePrepend(abbrs: map<string, string>, out: string, r: Result<Formatted>, ys: seq<Node>)
    ensures Continue(abbrs, Prepend(out, r), ys) == Prepend(out, Continue(abbrs, r, ys))
  {
    match r
    case Err(_) =>
    case Ok(g) =>
      match FormatAll(abbrs, ys, g.title, g.firstBr)
      case Err(_) =>
      case Ok(h) =>
        assert (out + g.out + "") + h.out + "" == out + (g.out + h.out + "") + "";
  }

  /** One more child of the loop over children: its output is appended to what the first i
      children gave, and an error in it is the error of the whole loop. */
  lemma FormatAllStep(abbrs: map<string, string>, cs: seq<Node>, i: nat, title: string, firstBr: bool)
    requires i < |cs|
    requires FormatAll(abbrs, cs[..i], title, firstBr).Ok?
    ensures var f := FormatAll(abbrs, cs[..i], title, firstBr).value;
      var g := Format(abbrs, cs[i], f.title, f.firstBr);
      && (g.Ok? ==> FormatAll(abbrs, cs[..i + 1], title, firstBr) == Ok(Formatted(g.value.title, f.out + g.value.out, g.value.firstBr)))
      && (g.Err? ==> FormatAll(abbrs, cs, title, firstBr) == g)
  {
    var f := FormatAll(abbrs, cs[..i], title, firstBr).value;
    var g := Format(abbrs, cs[i], f.title, f.firstBr);
    assert cs[..i + 1] == cs[..i] + [cs[i]];
    FormatAllAppend(abbrs, cs[..i], [cs[i]], title, firstBr);
    assert [cs[i]][0] == cs[i] && [cs[i]][1..] == [];
    assert FormatAll(abbrs, [cs[i]], f.title, f.firstBr) == Continue(abbrs, g, []);
    if g.Ok? {
      assert FormatAll(abbrs, [cs[i]], f.title, f.firstBr) == Ok(Formatted(g.value.title, g.value.out + "" + "", g.value.firstBr));
      assert f.out + (g.value.out + "" + "") + "" == f.out + g.value.out;
    } else {
      assert cs == cs[..i + 1] + cs[i + 1..];
      FormatAllAppend(abbrs, cs[..i + 1], cs[i + 1..], title, firstBr);
    }
  }

  // ---------------------------------------------------------------------------------------
  // The first_br flag

  /** Across the whole descent the flag is never set back to true. */
  lemma {:induction false} FormatNeverRaisesFlag(abbrs: map<string, string>, n: Node, title: string, firstBr: bool)
    ensures var r := Format(abbrs, n, title, firstBr); r.Ok? && r.value.firstBr ==> firstBr
    decreases n
  {
    match n
    case Text(s) => NormalizeFlag(s, firstBr);
    case Other =>
    case Elem(name, cs) =>
      if name == "pos" {
        FormatAllNeverRaisesFlag(abbrs, cs, title, false);
      } else if name !in {"br", "abr", "k"} {
        FormatAllNeverRaisesFlag(abbrs, cs, title, firstBr);
      }
  }

  lemma {:induction false} FormatAllNeverRaisesFlag(abbrs: map<string, string>, cs: seq<Node>, title: string, firstBr: bool)
    ensures var r := FormatAll(abbrs, cs, title, firstBr); r.Ok? && r.value.firstBr ==> firstBr
    decreases cs, 1
  {
    if cs != [] {
      FormatNeverRaisesFlag(abbrs, cs[0], title, firstBr);
      match Format(abbrs, cs[0], title, firstBr)
      case Err(_) =>
      case Ok(f) => FormatAllNeverRaisesFlag(abbrs, cs[1..], f.title, f.firstBr);
    }
  }

  // ---------------------------------------------------------------------------------------
  // The rule of each element

  /** `pos` clears the flag and wraps its children in a part-of-speech span. */
  lemma FormatPos(abbrs: map<string, string>, cs: seq<Node>, title: string, firstBr: bool)
    ensures var r := Format(abbrs, Elem("pos", cs), title, firstBr);
      && r.Ok? == FormatAll(abbrs, cs, title, false).Ok?
      && (r.Ok? ==>
            !r.value.firstBr && r.value.out == PosOpen + FormatAll(abbrs, cs, title, false).value.out + PosClose)
  {
    FormatAllNeverRaisesFlag(abbrs, cs, title, false);
  }

  /** `br` emits a line break exactly while the flag is still set, and leaves the flag and the
      title as they were. */
  lemma FormatBr(abbrs: map<string, string>, cs: seq<Node>, title: string, firstBr: bool)
    ensures var r := Format(abbrs, Elem("br", cs), title, firstBr);
      && r.Ok? && r.value.title == title && r.value.firstBr == firstBr
      && (r.value.out == LineBreak <==> firstBr)
      && (!firstBr ==> r.value.out == "")
  {
  }

  /** `abr` clears the flag and expands its key (the text of its first child) from the table; a
      key missing from the table is an UndefinedAbbreviation failure. */
  lemma FormatAbr(abbrs: map<string, string>, cs: seq<Node>, title: string, firstBr: bool)
    ensures var r := Format(abbrs, Elem("abr", cs), title, firstBr);
      && (r.Ok? <==> |cs| > 0 && cs[0].Text? && cs[0].text in abbrs)
      && (r.Ok? ==>
            r.value.title == title && !r.value.firstBr && r.value.out == "<acronym title='" + abbrs[cs[0].text] + "'>" + cs[0].text + "</acronym>")
      && (|cs| > 0 && cs[0].Text? && cs[0].text !in abbrs ==> r == Err(UndefinedAbbreviation(cs[0].text)))
  {
  }

  /** `k` emits nothing, keeps the flag, and sets the title to nodeval of its first child. */
  lemma FormatK(abbrs: map<string, string>, cs: seq<Node>, title: string, firstBr: bool)
    ensures var r := Format(abbrs, Elem("k", cs), title, firstBr);
      && (r.Ok? <==> |cs| > 0 && NodeVal(cs[0]).Ok?)
      && (r.Ok? ==> r.value == Formatted(NodeVal(cs[0]).value, "", firstBr))
  {
  }

  /** Any tag without a rule of its own is reproduced by name around its children, without its
      attributes; `ar` adds no markup at all. */
  lemma FormatPassthrough(abbrs: map<string, string>, name: string, cs: seq<Node>, title: string, firstBr: bool)
    requires name !in {"pos", "br", "abr", "k"}
    ensures var r := Format(abbrs, Elem(name, cs), title, firstBr);
      var inner := FormatAll(abbrs, cs, title, firstBr);
      && r.Ok? == inner.Ok?
      && (r.Ok? ==>
            r.value.title == inner.value.title && r.value.firstBr == inner.value.firstBr &&
            r.value.out == (if name == "ar" then inner.value.out
                            else "<" + name + ">" + inner.value.out + "</" + name + ">"))
  {
  }

  // ---------------------------------------------------------------------------------------
  // The title

  /** The children of every `<k>` element the formatter reaches, in document order. The
      formatter does not look inside `br`, `abr` and `k` elements. */
  function Headwords(n: Node): seq<seq<Node>>
    decreases n
  {
    match n
    case Elem(name, cs) =>
      if name == "k" then [cs]
      else if name == "br" || name == "abr" then []
      else HeadwordsAll(cs)
    case _ => []
  }

  function HeadwordsAll(cs: seq<Node>): seq<seq<Node>>
    decreases cs
  {
    if cs == [] then [] else Headwords(cs[0]) + HeadwordsAll(cs[1..])
  }

  /** The title after formatting from title `title` past the headwords `hs`. */
  predicate TitleAfter(hs: seq<seq<Node>>, title: string, result: string) {
    if hs == [] then result == title
    else Headword(hs[|hs| - 1]).Ok? && result == Headword(hs[|hs| - 1]).value
  }

  /** The title that comes out is the text of the last `<k>` in document order, or the title that
      went in when there is none. */
  lemma {:induction false} FormatTitle(abbrs: map<string, string>, n: Node, title: string, firstBr: bool)
    ensures var r := Format(abbrs, n, title, firstBr);
      r.Ok? ==> TitleAfter(Headwords(n), title, r.value.title)
    decreases n
  {
    match n
    case Text(_) =>
    case Other =>
    case Elem(name, cs) =>
      if name == "pos" {
        FormatAllTitle(abbrs, cs, title, false);
      } else if name !in {"br", "abr", "k"} {
        FormatAllTitle(abbrs, cs, title, firstBr);
      }
  }

  lemma {:induction false} FormatAllTitle(abbrs: map<string, string>, cs: seq<Node>, title: string, firstBr: bool)
    ensures var r := FormatAll(abbrs, cs, title, firstBr);
      r.Ok? ==> TitleAfter(HeadwordsAll(cs), title, r.value.title)
    decreases cs, 1
  {
    if cs != [] {
      FormatTitle(abbrs, cs[0], title, firstBr);
      match Format(abbrs, cs[0], title, firstBr)
      case Err(_) =>
      case Ok(f) =>
        FormatAllTitle(abbrs, cs[1..], f.title, f.firstBr);
        var hs, rest := Headwords(cs[0]), HeadwordsAll(cs[1..]);
        assert HeadwordsAll(cs) == hs + rest;
        if rest != [] {
          assert (hs + rest)[|hs + rest| - 1] == rest[|rest| - 1];
        } else {
          assert hs + rest == hs;
        }
    }
  }

  // ---------------------------------------------------------------------------------------
  // When formatting fails

  /** The tree can be formatted: every `abr` the formatter reaches names a key of the table by
      a text first child, and every `k` it reaches has a first child that holds text. Neither the
      title nor the flag plays a part. */
  predicate Renderable(abbrs: map<string, string>, n: Node)
    decreases n
  {
    match n
    case Elem(name, cs) =>
      if name == "abr" then Acronym(abbrs, cs).Ok?
      else if name == "k" then Headword(cs).Ok?
      else if name == "br" then true
      else forall i :: 0 <= i < |cs| ==> Renderable(abbrs, cs[i])
    case _ => true
  }

  /** Formatting succeeds exactly on renderable trees, whatever the title and the flag. */
  lemma {:induction false} FormatOkIffRenderable(abbrs: map<string, string>, n: Node, title: string, firstBr: bool)
    ensures Format(abbrs, n, title, firstBr).Ok? <==> Renderable(abbrs, n)
    decreases n
  {
    match n
    case Text(_) =>
    case Other =>
    case Elem(name, cs) =>
      if name == "pos" {
        FormatAllOkIffRenderable(abbrs, cs, title, false);
      } else if name !in {"br", "abr", "k"} {
        FormatAllOkIffRenderable(abbrs, cs, title, firstBr);
      }
  }

  lemma {:induction false} FormatAllOkIffRenderable(abbrs: map<string, string>, cs: seq<Node>, title: string, firstBr: bool)
    ensures FormatAll(abbrs, cs, title, firstBr).Ok? <==> forall i :: 0 <= i < |cs| ==> Renderable(abbrs, cs[i])
    decreases cs, 1
  {
    if cs != [] {
      FormatOkIffRenderable(abbrs, cs[0], title, firstBr);
      match Format(abbrs, cs[0], title, firstBr)
      case Err(_) =>
      case Ok(f) =>
        FormatAllOkIffRenderable(abbrs, cs[1..], f.title, f.firstBr);
        assert forall i :: 1 <= i < |cs| ==> cs[i] == cs[1..][i - 1];
    }
  }

  // ---------------------------------------------------------------------------------------
  // The title does not steer the output

  /** The output and the flag do not depend on the title that is passed in. */
  lemma {:induction false} FormatIgnoresTitle(abbrs: map<string, string>, n: Node, t1: string, t2: string, firstBr: bool)
    ensures var r1, r2 := Format(abbrs, n, t1, firstBr), Format(abbrs, n, t2, firstBr);
      && r1.Ok? == r2.Ok?
      && (r1.Ok? ==> r1.value.out == r2.value.out && r1.value.firstBr == r2.value.firstBr)
    decreases n
  {
    match n
    case Text(_) =>
    case Other =>
    case Elem(name, cs) =>
      if name == "pos" {
        FormatAllIgnoresTitle(abbrs, cs, t1, t2, false);
      } else if name !in {"br", "abr", "k"} {
        FormatAllIgnoresTitle(abbrs, cs, t1, t2, firstBr);
      }
  }

  lemma {:induction false} FormatAllIgnoresTitle(abbrs: map<string, string>, cs: seq<Node>, t1: string, t2: string, firstBr: bool)
    ensures var r1, r2 := FormatAll(abbrs, cs, t1, firstBr), FormatAll(abbrs, cs, t2, firstBr);
      && r1.Ok? == r2.Ok?
      && (r1.Ok? ==> r1.value.out == r2.value.out && r1.value.firstBr == r2.value.firstBr)
    decreases cs, 1
  {
    if cs != [] {
      FormatIgnoresTitle(abbrs, cs[0], t1, t2, firstBr);
      var r1, r2 := Format(abbrs, cs[0], t1, firstBr), Format(abbrs, cs[0], t2, firstBr);
      if r1.Ok? {
        FormatAllIgnoresTitle(abbrs, cs[1..], r1.value.title, r2.value.title, r1.value.firstBr);
      }
    }
  }
}
