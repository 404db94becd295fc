/** The `Xdxf` dictionary object (src/lib.rs:62-237): its two maps are fields that the loading
    methods update in place, and every method is proved against the functions of Formatting,
    Loading and Index that say what it computes. */
module Dictionary {
  import opened Dom
  import opened Patterns
  import opened Spaces
  import opened Acronyms
  import opened Formatting
  import opened Loading
  import opened Index

  class Xdxf {
    /** Headword -> rendered article (a radix trie in the source). */
    var dictionary: map<string, string>
    /** Abbreviation -> expansion. */
    var abbreviations: map<string, string>

    /** The two maps as a value. */
    function Snapshot(): State
      reads this
    {
      State(dictionary, abbreviations)
    }

    /** Xdxf::new: both maps empty. */
    constructor ()
      ensures dictionary == map[] && abbreviations == map[]
    {
      dictionary := map[];
      abbreviations := map[];
    }

    /** format_node(n, title, first_br): the title after n, the markup of n, and the flag after
        n; a missing child or an undefined abbreviation, where the source panics, is an error. */
    method FormatNode(n: Node, title: string, firstBr: bool) returns (r: Result<Formatted>)
      ensures r == Format(abbreviations, n, title, firstBr)
      decreases n, 0
    {
      match n
      case Text(s) =>
        var out, flag := ReplaceSps(s, firstBr);
        r := Ok(Formatted(title, out, flag));
      case Other =>
        r := Ok(Formatted(title, "", firstBr));
      case Elem(name, cs) =>
        if name == "pos" {
          r := FormatChildren(cs, title, false);
          if r.Ok? {
            r := Ok(r.value.(out := PosOpen + r.value.out + PosClose));
          }
        } else if name == "br" {
          r := Ok(Formatted(title, if firstBr then LineBreak else "", firstBr));
        } else if name == "abr" {
          var a := Acronym(abbreviations, cs);
          r := if a.Ok? then Ok(Formatted(title, a.value, false)) else Err(a.error);
        } else if name == "k" {
          var h := Headword(cs);
          r := if h.Ok? then Ok(Formatted(h.value, "", firstBr)) else Err(h.error);
        } else if name == "ar" {
          r := FormatChildren(cs, title, firstBr);
        } else {
          r := FormatChildren(cs, title, firstBr);
          if r.Ok? {
            var open, close := "<" + name + ">", "</" + name + ">";
            r := Ok(r.value.(out := open + r.value.out + close));
          }
        }
    }

    /** The loop over the children of an element: each child is formatted from the title and
        flag the previous one left, and the outputs are concatenated. */
    method FormatChildren(cs: seq<Node>, title: string, firstBr: bool) returns (r: Result<Formatted>)
      ensures r == FormatAll(abbreviations, cs, title, firstBr)
      decreases cs, 1
    {
      var t, res, flag := title, "", firstBr;
      var i := 0;
      while i < |cs|
        invariant 0 <= i <= |cs|
        invariant FormatAll(abbreviations, cs[..i], title, firstBr) == Ok(Formatted(t, res, flag))
        decreases |cs| - i
      {
        var ri := FormatNode(cs[i], t, flag);
        FormatAllStep(abbreviations, cs, i, title, firstBr);
        if ri.Err? {
          return Err(ri.error);
        }
        t, res, flag := ri.value.title, res + ri.value.out, ri.value.firstBr;
        i := i + 1;
      }
      assert cs[..i] == cs;
      r := Ok(Formatted(t, res, flag));
    }

    /** add_article: the article is formatted from an empty title with the flag set and stored
        under its title. */
    method AddArticle(doc: Node) returns (o: Outcome)
      modifies this
      ensures (Snapshot(), o) == Loading.AddArticle(old(Snapshot()), doc)
    {
      var r := FormatNode(doc, "", true);
      if r.Err? {
        return Fail(r.error);
      }
      dictionary := dictionary[r.value.title := r.value.out];
      o := Pass;
    }

    /** add_abbreviation over the children of an <abr_def>. */
    method AddAbbreviation(cs: seq<Node>) returns (o: Outcome)
      modifies this
      ensures (abbreviations, o) == Loading.AddAbbreviation(old(abbreviations), cs)
      ensures dictionary == old(dictionary)
    {
      if |cs| != 2 {
        return Fail(UnexpectedAbbreviationLength);
      }
      var first, second := cs[0], cs[1];
      if IsElement(first, "k") && IsElement(second, "v") {
      } else if IsElement(first, "v") && IsElement(second, "k") {
        first, second := second, first;
      } else {
        return Fail(UnexpectedAbbreviationContent);
      }
      var key := NodeVal(first);
      if key.Err? {
        return Fail(key.error);
      }
      var value := NodeVal(second);
      if value.Err? {
        return Fail(value.error);
      }
      abbreviations := abbreviations[key.value := value.value];
      o := Pass;
    }

    /** parse_abbreviations over the children of an <abbreviations> element. */
    method ParseAbbreviations(cs: seq<Node>) returns (o: Outcome)
      modifies this
      ensures (abbreviations, o) == Loading.ParseAbbreviations(old(abbreviations), cs)
      ensures dictionary == old(dictionary)
    {
      var i := 0;
      while i < |cs|
        invariant 0 <= i <= |cs|
        invariant dictionary == old(dictionary)
        invariant Fold(AbbreviationsStep, old(abbreviations), cs[..i]) == (abbreviations, Pass)
        decreases |cs| - i
      {
        FoldStep(AbbreviationsStep, old(abbreviations), cs, i);
        var child := cs[i];
        if child.Elem? {
          if child.name != "abr_def" {
            return Fail(UnexpectedAbbreviationsChild);
          }
          o := AddAbbreviation(child.children);
          if o.Fail? {
            return;
          }
        } else if child.Other? {
          return Fail(UnexpectedAbbreviationsChild);
        }
        i := i + 1;
      }
      assert cs[..i] == cs;
      o := Pass;
    }

    /** parse_root over the children of the <xdxf> element. */
    method ParseRoot(cs: seq<Node>) returns (o: Outcome)
      modifies this
      ensures (Snapshot(), o) == Loading.ParseRoot(old(Snapshot()), cs)
    {
      var i := 0;
      while i < |cs|
        invariant 0 <= i <= |cs|
        invariant Fold(RootStep, old(Snapshot()), cs[..i]) == (Snapshot(), Pass)
        decreases |cs| - i
      {
        FoldStep(RootStep, old(Snapshot()), cs, i);
        var child := cs[i];
        if IsElement(child, "abbreviations") {
          o := ParseAbbreviations(child.children);
          if o.Fail? {
            return;
          }
        } else if IsElement(child, "ar") {
          o := AddArticle(child);
          if o.Fail? {
            return;
          }
        }
        i := i + 1;
      }
      assert cs[..i] == cs;
      o := Pass;
    }

    /** feed_str(data): the acronym rewrite, the parser (given as `parse`) on the trimmed text,
        and the loop over the parsed document. */
    method FeedStr(data: string, parse: string -> Option<seq<Node>>) returns (o: Outcome)
      modifies this
      ensures (Snapshot(), o) == FeedText(old(Snapshot()), data, parse)
    {
      var package := parse(Trim(AcroRewrite(data)));
      if package.None? {
        return Fail(MalformedXml);
      }
      o := FeedDocument(package.value);
    }

    /** The loop of feed_str over the top-level nodes: parse_root on every element named `xdxf`. */
    method FeedDocument(doc: seq<Node>) returns (o: Outcome)
      modifies this
      ensures (Snapshot(), o) == Loading.FeedDocument(old(Snapshot()), doc)
    {
      var i := 0;
      while i < |doc|
        invariant 0 <= i <= |doc|
        invariant Fold(DocumentStep, old(Snapshot()), doc[..i]) == (Snapshot(), Pass)
        decreases |doc| - i
      {
        FoldStep(DocumentStep, old(Snapshot()), doc, i);
        var child := doc[i];
        if IsElement(child, "xdxf") {
          o := ParseRoot(child.children);
          if o.Fail? {
            return;
          }
        }
        i := i + 1;
      }
      assert doc[..i] == doc;
      o := Pass;
    }

    /** load_str(data): a new dictionary fed with data, or the error feeding it failed with. */
    static method LoadStr(data: string, parse: string -> Option<seq<Node>>) returns (r: Result<Xdxf>)
      ensures var (st, o) := FeedText(State(map[], map[]), data, parse);
        && (r.Ok? <==> o.Pass?)
        && (r.Err? ==> o == Fail(r.error))
        && (r.Ok? ==> fresh(r.value) && r.value.Snapshot() == st)
    {
      var dict := new Xdxf();
      var o := dict.FeedStr(data, parse);
      if o.Fail? {
        return Err(o.error);
      }
      r := Ok(dict);
    }

    /** lookup(prefix): nothing for a prefix shorter than three bytes of UTF-8; otherwise every
        entry whose headword starts with the prefix, in ascending order of headwords, each taken
        from the trie's iterator in turn. */
    method Lookup(prefix: string) returns (res: seq<(string, string)>)
      ensures Utf8Len(prefix) < 3 ==> res == []
      ensures Utf8Len(prefix) >= 3 ==> IsPrefixListing(dictionary, prefix, res)
    {
      if Utf8Len(prefix) < 3 {
        return [];
      }
      var pending := set k | k in dictionary && prefix <= k;
      res := [];
      ListingStart(dictionary, prefix);
      while pending != {}
        invariant PartialListing(dictionary, prefix, res, pending)
        decreases pending
      {
        var k := Least(pending);
        ListingStep(dictionary, prefix, res, pending, k);
        res := res + [(k, dictionary[k])];
        pending := pending - {k};
      }
      ListingDone(dictionary, prefix, res);
    }
  }
}
