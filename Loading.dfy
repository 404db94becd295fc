/** What the loader does to the dictionary state, as functions: the abbreviation table builder
    (src/lib.rs:151-185), the article insertion (src/lib.rs:145-149), the dispatch over the
    children of <xdxf> (src/lib.rs:75-90) and over the document (src/lib.rs:211-221). Each loop
    of the source stops at the first failure and keeps what it did before it; Fold is that loop. */
module Loading {
  import opened Dom
  import opened Patterns
  import opened Acronyms
  import opened Formatting

  /** The two maps of an Xdxf value: headword -> rendered article, and abbreviation -> expansion. */
  datatype State = State(dictionary: map<string, string>, abbreviations: map<string, string>)

  /** A loop over xs that applies `step` and returns at the first failure, with the state it
      reached. */
  function Fold<S, X>(step: (S, X) -> (S, Outcome), s: S, xs: seq<X>): (S, Outcome)
    decreases |xs|
  {
    if xs == [] then (s, Pass)
    else
      var (s', o) := step(s, xs[0]);
      if o.Fail? then (s', o) else Fold(step, s', xs[1..])
  }

  /** Running the loop over xs + ys is running it over xs and then, unless that failed, over ys. */
  lemma {:induction false} FoldAppend<S, X>(step: (S, X) -> (S, Outcome), s: S, xs: seq<X>, ys: seq<X>)
    ensures Fold(step, s, xs + ys) ==
      var (s', o) := Fold(step, s, xs);
      if o.Fail? then (s', o) else Fold(step, s', ys)
    decreases |xs|
  {
    if xs == [] {
      assert xs + ys == ys;
    } else {
      assert (xs + ys)[0] == xs[0] && (xs + ys)[1..] == xs[1..] + ys;
      var (s', o) := step(s, xs[0]);
      if o.Pass? {
        FoldAppend(step, s', xs[1..], ys);
      }
    }
  }

  /** One more turn of the loop: once the first i elements passed, the first i + 1 end where the
      step on element i ends, and if that step fails the whole loop ends there too. */
  lemma FoldStep<S, X>(step: (S, X) -> (S, Outcome), s: S, xs: seq<X>, i: nat)
    requires i < |xs|
    requires Fold(step, s, xs[..i]).1.Pass?
    ensures var t := Fold(step, s, xs[..i]).0;
      && Fold(step, s, xs[..i + 1]) == step(t, xs[i])
      && (step(t, xs[i]).1.Fail? ==> Fold(step, s, xs) == step(t, xs[i]))
  {
    var t := Fold(step, s, xs[..i]).0;
    assert xs[..i + 1] == xs[..i] + [xs[i]];
    FoldAppend(step, s, xs[..i], [xs[i]]);
    assert [xs[i]][1..] == [];
    assert xs == xs[..i + 1] + xs[i + 1..];
    FoldAppend(step, s, xs[..i + 1], xs[i + 1..]);
  }

  // ---------------------------------------------------------------------------------------
  // The abbreviation table

  predicate IsElement(n: Node, name: string) {
    n.Elem? && n.name == name
  }

  /** The (key, value) pair an <abr_def> with children `cs` defines: exactly two children, a <k>
      and a <v> in either order, each holding text. Text children count towards the two. */
  function AbbreviationEntry(cs: seq<Node>): (r: Result<(string, string)>)
    ensures |cs| != 2 ==> r == Err(UnexpectedAbbreviationLength)
    ensures r.Ok? <==>
      && |cs| == 2
      && ((IsElement(cs[0], "k") && IsElement(cs[1], "v")) || (IsElement(cs[0], "v") && IsElement(cs[1], "k")))
      && NodeVal(cs[0]).Ok? && NodeVal(cs[1]).Ok?
    ensures r.Ok? ==>
      var k := if IsElement(cs[0], "k") then 0 else 1;
      && IsElement(cs[k], "k") && IsElement(cs[1 - k], "v")
      && r.value == (NodeVal(cs[k]).value, NodeVal(cs[1 - k]).value)
  {
    if |cs| != 2 then Err(UnexpectedAbbreviationLength)
    else if IsElement(cs[0], "k") && IsElement(cs[1], "v") then KeyValue(cs[0], cs[1])
    else if IsElement(cs[0], "v") && IsElement(cs[1], "k") then KeyValue(cs[1], cs[0])
    else Err(UnexpectedAbbreviationContent)
  }

  function KeyValue(k: Node, v: Node): Result<(string, string)> {
    match NodeVal(k)
    case Err(e) => Err(e)
    case Ok(key) =>
      match NodeVal(v)
      case Err(e) => Err(e)
      case Ok(value) => Ok((key, value))
  }

  /** add_abbreviation: the pair is stored, overwriting an earlier value of the key. */
  function AddAbbreviation(table: map<string, string>, cs: seq<Node>): (r: (map<string, string>, Outcome))
    ensures r.1.Pass? <==> AbbreviationEntry(cs).Ok?
    ensures r.1.Fail? ==> r.0 == table && r.1.error == AbbreviationEntry(cs).error
    ensures r.1.Pass? ==> var (k, v) := AbbreviationEntry(cs).value;
      && r.0.Keys == table.Keys + {k} && r.0[k] == v
      && forall k' :: k' in table && k' != k ==> r.0[k'] == table[k']
  {
    match AbbreviationEntry(cs)
    case Err(e) => (table, Fail(e))
    case Ok((k, v)) => (table[k := v], Pass)
  }

  /** One child of <abbreviations>: an <abr_def> is added, text is skipped, anything else fails. */
  function AbbreviationsStep(table: map<string, string>, child: Node): (r: (map<string, string>, Outcome))
    ensures r.1.Pass? <==> AcceptedDefinition(child)
    ensures r.1.Pass? ==> r.0 == InsertAll(table, DefinitionOf(child))
    ensures r.1.Fail? ==> r.0 == table
    ensures child.Other? || (child.Elem? && child.name != "abr_def") ==> r.1 == Fail(UnexpectedAbbreviationsChild)
  {
    match child
    case Elem(name, cs) =>
      if name != "abr_def" then (table, Fail(UnexpectedAbbreviationsChild))
      else AddAbbreviation(table, cs)
    case Text(_) => (table, Pass)
    case Other => (table, Fail(UnexpectedAbbreviationsChild))
  }

  /** parse_abbreviations over the children of an <abbreviations> element. */
  function ParseAbbreviations(table: map<string, string>, cs: seq<Node>): (map<string, string>, Outcome) {
    Fold(AbbreviationsStep, table, cs)
  }

  /** A child of <abbreviations> that parse_abbreviations accepts. */
  predicate AcceptedDefinition(child: Node) {
    child.Text? || (IsElement(child, "abr_def") && AbbreviationEntry(child.children).Ok?)
  }

  /** The pair a child defines, if it is a well-formed <abr_def>. */
  function DefinitionOf(c: Node): seq<(string, string)> {
    if IsElement(c, "abr_def") && AbbreviationEntry(c.children).Ok? then [AbbreviationEntry(c.children).value] else []
  }

  /** The pairs the accepted children define, in document order. */
  function Definitions(cs: seq<Node>): seq<(string, string)> {
    if cs == [] then [] else DefinitionOf(cs[0]) + Definitions(cs[1..])
  }

  /** The table after storing the pairs one after the other. */
  function InsertAll(table: map<string, string>, ps: seq<(string, string)>): map<string, string>
    decreases |ps|
  {
    if ps == [] then table else InsertAll(table[ps[0].0 := ps[0].1], ps[1..])
  }

  lemma {:induction false} InsertAllAppend(table: map<string, string>, ps: seq<(string, string)>, qs: seq<(string, string)>)
    ensures InsertAll(table, ps + qs) == InsertAll(InsertAll(table, ps), qs)
    decreases |ps|
  {
    if ps == [] {
      assert ps + qs == qs;
    } else {
      assert (ps + qs)[0] == ps[0] && (ps + qs)[1..] == ps[1..] + qs;
      InsertAllAppend(table[ps[0].0 := ps[0].1], ps[1..], qs);
    }
  }

  /** parse_abbreviations succeeds exactly when every child is accepted, and then holds the old
      table with every definition stored in order. It stops at the first child it rejects, and
      keeps the definitions that came before it. */
  lemma {:induction false} ParseAbbreviationsResult(table: map<string, string>, cs: seq<Node>)
    ensures var (t, o) := ParseAbbreviations(table, cs);
      && (o.Pass? <==> forall i :: 0 <= i < |cs| ==> AcceptedDefinition(cs[i]))
      && (o.Pass? ==> t == InsertAll(table, Definitions(cs)))
      && (o.Fail? ==> exists i :: 0 <= i < |cs| && !AcceptedDefinition(cs[i])
                         && (forall j :: 0 <= j < i ==> AcceptedDefinition(cs[j]))
                         && t == InsertAll(table, Definitions(cs[..i])))
    decreases |cs|
  {
    if cs != [] {
      var c := cs[0];
      var (t1, o1) := AbbreviationsStep(table, c);
      if o1.Fail? {
        assert !AcceptedDefinition(c);
        assert cs[..0] == [];
      } else {
        assert AcceptedDefinition(c);
        assert t1 == InsertAll(table, DefinitionOf(c));
        ParseAbbreviationsResult(t1, cs[1..]);
        var (t, o) := ParseAbbreviations(t1, cs[1..]);
        assert ParseAbbreviations(table, cs) == (t, o);
        if o.Pass? {
          assert Definitions(cs) == DefinitionOf(c) + Definitions(cs[1..]);
          InsertAllAppend(table, DefinitionOf(c), Definitions(cs[1..]));
          forall i | 0 <= i < |cs| ensures AcceptedDefinition(cs[i]) {
            if i > 0 { assert cs[i] == cs[1..][i - 1]; }
          }
        } else {
          var i :| 0 <= i < |cs[1..]| && !AcceptedDefinition(cs[1..][i])
                   && (forall j :: 0 <= j < i ==> AcceptedDefinition(cs[1..][j]))
                   && t == InsertAll(t1, Definitions(cs[1..][..i]));
          FailureShifts(table, cs, i);
        }
      }
    }
  }

  /** The first rejected child of cs[1..], seen from cs when cs[0] was accepted. */
  lemma FailureShifts(table: map<string, string>, cs: seq<Node>, i: nat)
    requires 0 < |cs| && AcceptedDefinition(cs[0])
    requires i < |cs| - 1 && !AcceptedDefinition(cs[1..][i])
    requires forall j :: 0 <= j < i ==> AcceptedDefinition(cs[1..][j])
    ensures !AcceptedDefinition(cs[i + 1])
    ensures forall j :: 0 <= j < i + 1 ==> AcceptedDefinition(cs[j])
    ensures InsertAll(InsertAll(table, DefinitionOf(cs[0])), Definitions(cs[1..][..i])) == InsertAll(table, Definitions(cs[..i + 1]))
  {
    var c := cs[0];
    assert cs[..i + 1] == [c] + cs[1..][..i];
    assert cs[..i + 1][1..] == cs[1..][..i];
    assert Definitions(cs[..i + 1]) == DefinitionOf(c) + Definitions(cs[1..][..i]);
    InsertAllAppend(table, DefinitionOf(c), Definitions(cs[1..][..i]));
    forall j | 0 <= j < i + 1 ensures AcceptedDefinition(cs[j]) {
      if j > 0 { assert cs[j] == cs[1..][j - 1]; }
    }
    assert cs[i + 1] == cs[1..][i];
  }

  /** Storing pairs never removes a key. */
  lemma {:induction false} InsertAllKeepsKeys(table: map<string, string>, ps: seq<(string, string)>)
    ensures table.Keys <= InsertAll(table, ps).Keys
    decreases |ps|
  {
    if ps != [] {
      InsertAllKeepsKeys(table[ps[0].0 := ps[0].1], ps[1..]);
    }
  }

  /** The value a key has after storing the pairs: that of its last pair, or the old one. */
  lemma {:induction false} InsertAllLast(table: map<string, string>, ps: seq<(string, string)>, i: nat)
    requires i < |ps|
    requires forall j :: i < j < |ps| ==> ps[j].0 != ps[i].0
    ensures ps[i].0 in InsertAll(table, ps) && InsertAll(table, ps)[ps[i].0] == ps[i].1
    decreases |ps|
  {
    if i == 0 {
      InsertAllUntouched(table[ps[0].0 := ps[0].1], ps[1..], ps[0].0);
    } else {
      InsertAllLast(table[ps[0].0 := ps[0].1], ps[1..], i - 1);
    }
  }

  lemma {:induction false} InsertAllUntouched(table: map<string, string>, ps: seq<(string, string)>, k: string)
    requires k in table
    requires forall j :: 0 <= j < |ps| ==> ps[j].0 != k
    ensures k in InsertAll(table, ps) && InsertAll(table, ps)[k] == table[k]
    decreases |ps|
  {
    if ps != [] {
      InsertAllUntouched(table[ps[0].0 := ps[0].1], ps[1..], k);
    }
  }

  /** An <abr_def> with a <k> and a <v> child. */
  function Definition(k: string, v: string): Node {
    Elem("abr_def", [Elem("k", [Text(k)]), Elem("v", [Text(v)])])
  }

  /** The children of an <abbreviations> element that defines the pairs ps one after the other,
      each preceded by indentation text. */
  function Layout(ps: seq<(string, string)>, gap: string): seq<Node>
    decreases |ps|
  {
    if ps == [] then [] else [Text(gap), Definition(ps[0].0, ps[0].1)] + Layout(ps[1..], gap)
  }

  /** Such an element stores every pair in order, the indentation being skipped. */
  lemma {:induction false} ParseLayout(table: map<string, string>, ps: seq<(string, string)>, gap: string)
    ensures ParseAbbreviations(table, Layout(ps, gap)) == (InsertAll(table, ps), Pass)
    decreases |ps|
  {
    if ps != [] {
      var d := Definition(ps[0].0, ps[0].1);
      var rest := Layout(ps[1..], gap);
      var cs := [Text(gap), d] + rest;
      assert cs[0] == Text(gap) && cs[1..] == [d] + rest;
      assert ([d] + rest)[0] == d && ([d] + rest)[1..] == rest;
      var t1 := table[ps[0].0 := ps[0].1];
      assert Layout(ps, gap) == cs;
      assert AbbreviationsStep(table, d) == (t1, Pass);
      assert Fold(AbbreviationsStep, table, cs) == Fold(AbbreviationsStep, table, [d] + rest);
      assert Fold(AbbreviationsStep, table, [d] + rest) == Fold(AbbreviationsStep, t1, rest);
      ParseLayout(t1, ps[1..], gap);
    }
  }

  /** The definitions of the dictionary in the source's test. */
  const SamplePairs: seq<(string, string)> := [
    ("f", "rodzaj żeński"), ("m", "rodzaj męski"), ("n", "rodzaj nijaki"),
    ("rzecz.", "rzeczownik"), ("przym.", "przymiotnik")]

  /** The table the source's test reads back: "m" expands to "rodzaj męski". */
  lemma SampleAbbreviationTable()
    ensures var (t, o) := ParseAbbreviations(map[], Layout(SamplePairs, "\n        ") + [Text("\n    ")]);
      o == Pass && "m" in t && t["m"] == "rodzaj męski"
  {
    var body := Layout(SamplePairs, "\n        ");
    ParseLayout(map[], SamplePairs, "\n        ");
    FoldAppend(AbbreviationsStep, map[], body, [Text("\n    ")]);
    assert [Text("\n    ")][1..] == [];
    InsertAllLast(map[], SamplePairs, 1);
  }

  // ---------------------------------------------------------------------------------------
  // Articles and the dispatch

  /** add_article: the <ar> element is formatted from an empty title with the flag set, and the
      result is stored under the title, overwriting an earlier article of the same headword. */
  function AddArticle(st: State, doc: Node): (State, Outcome) {
    match Format(st.abbreviations, doc, "", true)
    case Err(e) => (st, Fail(e))
    case Ok(f) => (st.(dictionary := st.dictionary[f.title := f.out]), Pass)
  }

  /** One child of <xdxf>: <abbreviations> goes to the table builder, <ar> to the formatter, and
      everything else is skipped. */
  function RootStep(st: State, child: Node): (r: (State, Outcome))
    ensures !IsElement(child, "abbreviations") && !IsElement(child, "ar") ==> r == (st, Pass)
  {
    match child
    case Elem(name, cs) =>
      if name == "abbreviations" then
        var (t, o) := ParseAbbreviations(st.abbreviations, cs);
        (st.(abbreviations := t), o)
      else if name == "ar" then AddArticle(st, child)
      else (st, Pass)
    case _ => (st, Pass)
  }

  /** parse_root over the children of the <xdxf> element. */
  function ParseRoot(st: State, cs: seq<Node>): (State, Outcome) {
    Fold(RootStep, st, cs)
  }

  /** One child of the document: only an element named `xdxf` is looked into. */
  function DocumentStep(st: State, child: Node): (State, Outcome) {
    if IsElement(child, "xdxf") then ParseRoot(st, child.children) else (st, Pass)
  }

  /** The dispatch part of feed_str over the children of the parsed document. */
  function FeedDocument(st: State, doc: seq<Node>): (State, Outcome) {
    Fold(DocumentStep, st, doc)
  }

  /** feed_str(data): the acronym rewrite, the XML parser (a collaborator, given as `parse`; None
      is its rejection) on the trimmed text, and the dispatch. */
  function FeedText(st: State, data: string, parse: string -> Option<seq<Node>>): (State, Outcome) {
    match parse(Trim(AcroRewrite(data)))
    case None => (st, Fail(MalformedXml))
    case Some(doc) => FeedDocument(st, doc)
  }

  // ---------------------------------------------------------------------------------------
  // Properties of the dispatch

  /** An article whose tree can be formatted is stored under the text of its last <k>, and no
      other entry changes; one that cannot be formatted fails and changes nothing. */
  lemma AddArticleResult(st: State, doc: Node)
    ensures var (st', o) := AddArticle(st, doc);
      && (o.Pass? <==> Renderable(st.abbreviations, doc))
      && (o.Fail? ==> st' == st)
      && (o.Pass? ==>
            var f := Format(st.abbreviations, doc, "", true).value;
            && TitleAfter(Headwords(doc), "", f.title)
            && st' == st.(dictionary := st.dictionary[f.title := f.out]))
  {
    FormatOkIffRenderable(st.abbreviations, doc, "", true);
    FormatTitle(st.abbreviations, doc, "", true);
  }

  /** No step of the loader removes a key from either map. */
  predicate Grows(a: State, b: State) {
    a.dictionary.Keys <= b.dictionary.Keys && a.abbreviations.Keys <= b.abbreviations.Keys
  }

  lemma {:induction false} ParseAbbreviationsKeepsKeys(table: map<string, string>, cs: seq<Node>)
    ensures table.Keys <= ParseAbbreviations(table, cs).0.Keys
    decreases |cs|
  {
    if cs != [] {
      var (t1, o1) := AbbreviationsStep(table, cs[0]);
      if o1.Pass? {
        ParseAbbreviationsKeepsKeys(t1, cs[1..]);
      }
    }
  }

  lemma {:induction false} ParseRootKeepsKeys(st: State, cs: seq<Node>)
    ensures Grows(st, ParseRoot(st, cs).0)
    decreases |cs|
  {
    if cs != [] {
      if IsElement(cs[0], "abbreviations") {
        ParseAbbreviationsKeepsKeys(st.abbreviations, cs[0].children);
      }
      var (s1, o1) := RootStep(st, cs[0]);
      if o1.Pass? {
        ParseRootKeepsKeys(s1, cs[1..]);
      }
    }
  }

  lemma {:induction false} FeedDocumentKeepsKeys(st: State, doc: seq<Node>)
    ensures Grows(st, FeedDocument(st, doc).0)
    decreases |doc|
  {
    if doc != [] {
      if IsElement(doc[0], "xdxf") {
        ParseRootKeepsKeys(st, doc[0].children);
      }
      var (s1, o1) := DocumentStep(st, doc[0]);
      if o1.Pass? {
        FeedDocumentKeepsKeys(s1, doc[1..]);
      }
    }
  }

  /** Feeding a text, whether it succeeds or fails, never removes an entry of the dictionary or
      of the abbreviation table. */
  lemma FeedTextKeepsKeys(st: State, data: string, parse: string -> Option<seq<Node>>)
    ensures Grows(st, FeedText(st, data, parse).0)
  {
    match parse(Trim(AcroRewrite(data)))
    case None =>
    case Some(doc) => FeedDocumentKeepsKeys(st, doc);
  }

  /** A document without an element named `xdxf` at the top changes nothing and succeeds. */
  lemma {:induction false} FeedDocumentWithoutRoot(st: State, doc: seq<Node>)
    requires forall i :: 0 <= i < |doc| ==> !IsElement(doc[i], "xdxf")
    ensures FeedDocument(st, doc) == (st, Pass)
    decreases |doc|
  {
    if doc != [] {
      assert !IsElement(doc[0], "xdxf");
      assert forall i :: 0 <= i < |doc[1..]| ==> doc[1..][i] == doc[i + 1];
      FeedDocumentWithoutRoot(st, doc[1..]);
    }
  }

  /** Children of <xdxf> other than <abbreviations> and <ar> are ignored. */
  lemma {:induction false} ParseRootIgnoresOthers(st: State, cs: seq<Node>)
    requires forall i :: 0 <= i < |cs| ==> !IsElement(cs[i], "abbreviations") && !IsElement(cs[i], "ar")
    ensures ParseRoot(st, cs) == (st, Pass)
    decreases |cs|
  {
    if cs != [] {
      assert !IsElement(cs[0], "abbreviations") && !IsElement(cs[0], "ar");
      assert forall i :: 0 <= i < |cs[1..]| ==> cs[1..][i] == cs[i + 1];
      ParseRootIgnoresOthers(st, cs[1..]);
    }
  }

  /** A child of <xdxf> other than <abbreviations> and <ar>, wherever it stands among the
      others, makes no difference to parse_root. */
  lemma ParseRootSkips(st: State, xs: seq<Node>, c: Node, ys: seq<Node>)
    requires !IsElement(c, "abbreviations") && !IsElement(c, "ar")
    ensures ParseRoot(st, xs + [c] + ys) == ParseRoot(st, xs + ys)
  {
    FoldAppend(RootStep, st, xs + [c], ys);
    FoldAppend(RootStep, st, xs, [c]);
    FoldAppend(RootStep, st, xs, ys);
    var (s1, o1) := Fold(RootStep, st, xs);
    if o1.Pass? {
      assert RootStep(s1, c) == (s1, Pass);
      assert [c][1..] == [];
    }
  }
}
