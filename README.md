# xdxf-rust, modelled in Dafny

The model covers the core of `xdxf-rust` (`src/lib.rs`), a loader for XDXF dictionaries. It
reads the raw dictionary text, moves word stems that trail a part-of-speech marker in front of
that marker, and hands the text to an XML parser. From the parsed tree it builds two maps:

- an abbreviation table, from the `<abbreviations>` element;
- a headword index, from the `<ar>` articles. Each article is rendered into a small markup
  language by `format_node`. `replace_sps` normalises the whitespace of every text node along
  the way.

The index answers prefix queries with `lookup`.

## Modules

- **Dom**: the parsed tree, `Node = Text | Elem | Other`, and the error values.
  - Comments and processing instructions become `Other`, because every branch of the source
    treats them alike.
  - The errors stand for the `io::Error`s the source returns, and for the `unwrap` calls at
    which it panics.
- **Patterns**: the three regular expressions of the source, written out as matchers over
  `seq<char>`. They match leftmost-first, greedily (lazily for `.*?`), and without overlap.
  - `\s` is the Unicode White_Space set, and `str::trim` uses the same set.
  - Multi-line `^`/`$` are `LineStart`/`LineEnd`.
- **Spaces**: `replace_sps` as a method, proved against the function `Normalize`.
- **Acronyms**: the `ACRO_REGEXP` rewrite as a pure string function.
- **Formatting**: `nodeval` and `format_node`.
  - `format_node` is a function that threads the title and the article-wide `first_br` flag
    through a depth-first walk.
  - Its lemmas give each tag's rule, the flag discipline, the title rule, exactly when
    formatting fails, and how it composes over siblings.
- **Loading**: what loading does to the pair of maps, as functions.
  - `Fold` is the source's loop that stops at the first error and keeps its earlier effects.
  - Covered: the abbreviation table, `add_article`, `parse_root` and the dispatch of `feed_str`.
- **Index**: `str::len` in UTF-8 bytes, the code-point order of keys, the `IsPrefixListing`
  specification of `lookup`, and the selection step (`Least`) that stands in for the trie's
  ordered iterator.
- **Dictionary**: the class `Xdxf`.
  - Its fields `dictionary` and `abbreviations` are updated in place by methods that mirror the
    source's methods loop for loop.
  - Each method is proved equal to its Loading or Formatting function.
  - `Lookup` is proved to return exactly the sorted prefix listing.

Four behaviours of the code that are easy to miss, and that the model follows as written:

- **Title.** The title is the text of the *last* `<k>` the walk reaches, not the first. This is
  because each `k` overwrites it (src/lib.rs:121).
- **Lookup guard.** `lookup` refuses a prefix whose UTF-8 *byte* length is below 3
  (src/lib.rs:225). A two-letter Polish prefix such as `żó` (4 bytes) therefore already passes
  (`Index.ShortPolishPrefixPasses`).
- **Child count of `<abr_def>`.** An `<abr_def>` must have exactly two children of any kind,
  text included (src/lib.rs:169). Whitespace between its `<k>` and `<v>` is therefore an
  `UnexpectedAbbreviationLength` error.
- **Rendering errors.** The source panics while rendering an article in four places, and the
  model makes each a failure of `add_article` instead:
  - an `abr` or `k` without children (`MissingChild`, src/lib.rs:118 and 121);
  - an `abr` whose first child is not text (`NotText`, src/lib.rs:118);
  - an `abr` naming a key that is not in the table (`UndefinedAbbreviation`, src/lib.rs:119);
  - a `k` whose first child gives no text to nodeval (`InvalidNode`, src/lib.rs:121).

## Model

| member | source | states |
|---|---|---|
| Patterns.FindLsp | src/lib.rs:43 | the leftmost match of `[\n ]\s+` from a position: it starts at a space or newline followed by whitespace, no earlier position matches, and it runs greedily to the end of the whitespace run; None exactly when no position matches |
| Patterns.SpaceRunEnd | src/lib.rs:43 | the greedy `\s+`: every character up to the returned end is whitespace and the next one is not |
| Patterns.BlankRunEnd | src/lib.rs:42 | the greedy `[ \t\n]+`: every character up to the end is blank and the next is not |
| Patterns.BackOff | src/lib.rs:42 | backtracking of `[ \t\n]+$`: the largest end in the run at which `$` holds, and None when `$` holds nowhere in it |
| Patterns.WspAt | src/lib.rs:42 | a blank-line match starts at a line start, runs over blanks only and ends at a line end, at the largest such end; None exactly when the position is not a line start or no blank run from it reaches a line end |
| Patterns.LspReplaceAllIsFree | src/lib.rs:57 | replacing every `[\n ]\s+` run by a replacement without whitespace leaves no such run |
| Patterns.LspReplaceAllHead | src/lib.rs:57 | the replacement keeps a leading non-space character in front |
| Patterns.LspFreeConcat | src/lib.rs:43 | two run-free texts stay run-free when joined, if the second does not start with whitespace |
| Patterns.LspReplaceAllOfFree | src/lib.rs:57 | on a text without a run, the replacement changes nothing |
| Patterns.LspFreeHasNoLateWsp | src/lib.rs:42-43 | in a text without a `[\n ]\s+` run, a blank line can only match at position 0 |
| Patterns.WspRemoveFromCopies | src/lib.rs:58 | where no blank line matches, removal copies the text |
| Patterns.WspRemoveOfFree | src/lib.rs:58 | on a text without blank lines, removal changes nothing |
| Patterns.WspRemoveOfLspFree | src/lib.rs:57-58 | removing blank lines from a run-free text leaves it free of runs and of blank lines |
| Patterns.TrimStart | src/lib.rs:213 | `trim`'s left half: a suffix that does not start with whitespace, and everything cut is whitespace |
| Patterns.TrimEnd | src/lib.rs:213 | `trim`'s right half: a prefix that does not end with whitespace, and everything cut is whitespace |
| Patterns.Trim | src/lib.rs:213 | `trim`: the left half and then the right half (stated by TrimStart and TrimEnd) |
| Patterns.LspReplaceFirst | src/lib.rs:49 | `replace`: a text without a match is returned as it is, and deleting the first match changes the text exactly when there is one |
| Patterns.LspReplaceAll | src/lib.rs:57 | `replace_all`: each leftmost match in turn replaced, the search resuming after it (stated by LspReplaceAllIsFree, LspReplaceAllHead, LspReplaceAllOfFree) |
| Patterns.WspRemoveFrom | src/lib.rs:58 | the removal loop from a position: a blank line matched there is skipped, otherwise one character is copied (stated by WspRemoveFromCopies) |
| Patterns.WspRemove | src/lib.rs:58 | `replace_all` with the empty text over the whole text (stated by WspRemoveOfFree, WspRemoveOfLspFree) |
| Spaces.Normalize | src/lib.rs:46-60 | replace_sps as a function of the text and the flag (stated by NormalizeFlag, NormalizeLeavesNoRun, NormalizeIdempotent) |
| Spaces.ReplaceSps | src/lib.rs:46-60 | replace_sps: with the flag set, the leftmost run is deleted and the flag is cleared exactly when there was one; the result has no `[\n ]\s+` run left |
| Spaces.NormalizeFlag | src/lib.rs:48-53 | the flag after the call is true iff it was true and the text had no run to delete |
| Spaces.NormalizeLeavesNoRun | src/lib.rs:57-58 | the output has no `[\n ]\s+` run and no blank line |
| Spaces.NormalizeIdempotent | src/lib.rs:46-60 | normalising the output again with the flag cleared gives the same text and leaves the flag cleared |
| Acronyms.LetterRunEnd | src/lib.rs:44 | the greedy `[a-zA-Zа-яА-Я…]+`: every character up to the returned end is a stem letter and the next one is not |
| Acronyms.FindClose | src/lib.rs:44 | the lazy `.*?</pos>`: the first `</pos>` followed by a stem letter, with no newline crossed before it; None when no such `</pos>` comes before the next newline |
| Acronyms.MatchAtStart | src/lib.rs:44 | a match at the start of the text begins with `<pos><abr>`; its first group ends at the first `</pos>` followed by a stem letter, with no newline before it; its second group is the whole non-empty letter run after that; None exactly when the marker is missing or no such `</pos>` comes before the next newline |
| Acronyms.AcroRewrite | src/lib.rs:212 | `replace_all(data, "$2$1")` over the whole text, leftmost match first (stated by the lemmas below) |
| Acronyms.SampleMatch | src/lib.rs:44 | `<pos><abr>r</pos>łw` matches at its start, the first group ending after `</pos>` and the second taking both letters `łw` |
| Acronyms.AcroRewritePermutes | src/lib.rs:212 | the rewrite only moves characters: the same multiset and the same length |
| Acronyms.AcroRewriteWithoutMarker | src/lib.rs:212 | a text without `<pos><abr>` is left unchanged |
| Acronyms.AcroRewriteSwaps | src/lib.rs:212 | for a match at the start, the output begins with the stem letters followed by the whole marker group (`$2$1`) |
| Acronyms.AcroRewriteCopies | src/lib.rs:212 | the text before the first position where a match starts is copied unchanged |
| Acronyms.AcroRewriteSwapsAt | src/lib.rs:212 | for the first match in the text, at any position: the text before it, then its stem letters, then its marker group, then the rewrite of what follows the letters |
| Formatting.NodeVal | src/lib.rs:29-40 | nodeval succeeds exactly on a text node or an element whose first child is text, and yields that text; otherwise InvalidNode |
| Formatting.Headword | src/lib.rs:121 | the new title of a `k`: MissingChild without children, otherwise nodeval of the first child, which succeeds exactly when that child is text or an element with a text first child, and fails with InvalidNode |
| Formatting.Acronym | src/lib.rs:116-119 | the markup of an `abr`: succeeds exactly when the first child is text naming a key of the table, with the expansion as the title attribute; MissingChild, NotText and UndefinedAbbreviation(key) exactly in their three failure cases |
| Formatting.Format | src/lib.rs:92-143 | format_node as a function of the node, the title and the flag (stated by FormatPos … FormatAllIgnoresTitle) |
| Formatting.FormatAll | src/lib.rs:104-135 | the loop over the children, threading title and flag (stated by FormatAllAppend, FormatAllStep and the FormatAll lemmas) |
| Formatting.Renderable | src/lib.rs:116-121 | every reached `abr` and `k` can be resolved (related to Format by FormatOkIffRenderable) |
| Formatting.FormatAllAppend | src/lib.rs:104-108 | the children loop over xs + ys is the loop over xs followed, from the state it reached, by the loop over ys |
| Formatting.ContinuePrepend | src/lib.rs:104-108 | output emitted before the children loop stays in front of all the loop then emits |
| Formatting.FormatAllStep | src/lib.rs:123-127 | one more child appends its output and carries on its title and flag; an error of that child is the error of the whole loop |
| Formatting.FormatNeverRaisesFlag | src/lib.rs:92-143 | formatting a node never turns the flag from false to true |
| Formatting.FormatAllNeverRaisesFlag | src/lib.rs:104-108 | the same for a sequence of siblings |
| Formatting.FormatPos | src/lib.rs:101-110 | `pos` formats its children with the flag cleared, wraps them in the part-of-speech span, and leaves the flag false |
| Formatting.FormatBr | src/lib.rs:111-115 | `br` emits `<br/>` iff the flag is set, nothing otherwise, and changes neither flag nor title |
| Formatting.FormatAbr | src/lib.rs:116-120 | `abr` succeeds iff its first child is text naming a key of the table, emits the acronym markup with the expansion, and clears the flag; an unknown key is UndefinedAbbreviation |
| Formatting.FormatK | src/lib.rs:121 | `k` succeeds iff nodeval of its first child does, sets the title to it, emits nothing and keeps the flag |
| Formatting.FormatPassthrough | src/lib.rs:122-137 | `ar` emits its children's output unwrapped; any other tag is rebuilt by name around its children, without attributes |
| Formatting.FormatTitle | src/lib.rs:92-143 | after formatting, the title is the text of the last `<k>` reached in document order, or the incoming title when there is none |
| Formatting.FormatAllTitle | src/lib.rs:123-127 | the same for a sequence of siblings |
| Formatting.FormatOkIffRenderable | src/lib.rs:116-121 | formatting fails exactly when some reached `abr` or `k` cannot be resolved, whatever the title and flag |
| Formatting.FormatAllOkIffRenderable | src/lib.rs:123-127 | the children loop succeeds iff every child is renderable |
| Formatting.FormatIgnoresTitle | src/lib.rs:92-143 | the output and the final flag do not depend on the incoming title |
| Formatting.FormatAllIgnoresTitle | src/lib.rs:123-127 | the same for a sequence of siblings |
| Loading.FoldAppend | src/lib.rs:152-164 | a stop-at-first-error loop over xs + ys is the loop over xs and then, unless it failed, over ys |
| Loading.FoldStep | src/lib.rs:152-164 | one more turn of such a loop ends where the step on the next element ends, and a failing step ends the whole loop |
| Loading.AbbreviationEntry | src/lib.rs:167-183 | an `<abr_def>` needs exactly two children, a `k` and a `v` in either order, both with text; the pair is (text of k, text of v); wrong arity is UnexpectedAbbreviationLength |
| Loading.AddAbbreviation | src/lib.rs:167-185 | add_abbreviation passes exactly when the entry is well formed, and then stores the key with its value, keeping every other key; on failure the table is unchanged and the error is the entry's |
| Loading.AbbreviationsStep | src/lib.rs:153-162 | one child of `<abbreviations>`: passes exactly on text or a well-formed `abr_def`, storing its definition; any other element or node fails with UnexpectedAbbreviationsChild and changes nothing |
| Loading.ParseAbbreviations | src/lib.rs:151-165 | the loop over the children (stated by ParseAbbreviationsResult) |
| Loading.InsertAllAppend | src/lib.rs:183 | storing ps + qs is storing ps and then qs |
| Loading.ParseAbbreviationsResult | src/lib.rs:151-165 | parse_abbreviations passes iff every child is text or a well-formed `abr_def`, and then stores all definitions in order; on failure the definitions before the first bad child are kept |
| Loading.InsertAllKeepsKeys | src/lib.rs:183 | storing pairs never removes a key |
| Loading.InsertAllLast | src/lib.rs:183 | a key ends with the value of its last definition: a duplicate overwrites |
| Loading.InsertAllUntouched | src/lib.rs:183 | a key that no pair names keeps its value |
| Loading.ParseLayout | src/lib.rs:152-164 | definitions separated by indentation text are all stored in order |
| Loading.SampleAbbreviationTable | src/lib.rs:248-270 | the test's table maps "m" to "rodzaj męski" |
| Loading.AddArticle | src/lib.rs:145-149 | add_article on the pair of maps (stated by AddArticleResult) |
| Loading.RootStep | src/lib.rs:78-86 | one child of `<xdxf>`: a child that is neither `abbreviations` nor `ar` changes nothing and passes |
| Loading.ParseRoot | src/lib.rs:75-90 | the loop of parse_root (stated by ParseRootKeepsKeys, ParseRootIgnoresOthers, ParseRootSkips) |
| Loading.DocumentStep | src/lib.rs:216-219 | one top-level node: parse_root on an `xdxf` element, nothing otherwise |
| Loading.FeedDocument | src/lib.rs:215-220 | the loop of feed_str over the top-level nodes (stated by FeedDocumentKeepsKeys, FeedDocumentWithoutRoot) |
| Loading.FeedText | src/lib.rs:211-221 | feed_str: rewrite, trim, parse, dispatch; a rejected text is MalformedXml (stated by FeedTextKeepsKeys) |
| Loading.AddArticleResult | src/lib.rs:145-149 | add_article stores the rendered article under the last headword and changes nothing else; an unrenderable article fails and changes nothing |
| Loading.ParseAbbreviationsKeepsKeys | src/lib.rs:151-165 | the table only grows, whether the parse succeeds or fails |
| Loading.ParseRootKeepsKeys | src/lib.rs:75-90 | neither map loses a key in parse_root |
| Loading.FeedDocumentKeepsKeys | src/lib.rs:215-220 | neither map loses a key in the document loop |
| Loading.FeedTextKeepsKeys | src/lib.rs:211-221 | a feed, successful or not, never removes an entry from either map |
| Loading.FeedDocumentWithoutRoot | src/lib.rs:215-220 | a document without a top-level `xdxf` element succeeds and changes nothing |
| Loading.ParseRootIgnoresOthers | src/lib.rs:78-86 | children of `<xdxf>` other than `abbreviations` and `ar` are ignored |
| Loading.ParseRootSkips | src/lib.rs:78-86 | one such child, anywhere among the others, can be removed without changing the result |
| Index.Utf8Len | src/lib.rs:225 | `str::len`: the number of UTF-8 bytes (stated by Utf8LenBounds, ShortPolishPrefixPasses) |
| Index.Less | src/lib.rs:233 | the iteration order of the trie's keys (stated by LessIrreflexive, LessTransitive, LessTotal, SharedStem) |
| Index.IsPrefixListing | src/lib.rs:228-236 | the result of lookup: strictly ascending, every entry from the map under the prefix, every such key present (stated by PrefixListingUnique) |
| Index.Utf8LenBounds | src/lib.rs:225 | a text has between one and four bytes per character |
| Index.ShortPolishPrefixPasses | src/lib.rs:225 | the two-character prefix "żó" is 4 bytes long, so the guard lets it through |
| Index.LessIrreflexive | src/lib.rs:233 | the key order is irreflexive |
| Index.LessTransitive | src/lib.rs:233 | the key order is transitive |
| Index.LessTotal | src/lib.rs:233 | any two different keys are ordered |
| Index.PrefixListingUnique | src/lib.rs:228-236 | there is only one sorted listing of the entries under a prefix |
| Index.SortedUnique | src/lib.rs:233 | two strictly sorted sequences with the same elements are equal |
| Index.SharedStem | src/lib.rs:233 | keys with a common stem compare as their remainders |
| Index.ListingStep | src/lib.rs:233-235 | pushing the least pending entry keeps the pushed entries sorted, correct and exactly those under the prefix that are no longer pending |
| Index.Least | src/lib.rs:233 | the next key of the iteration is in the set and below every other key of it |
| Index.SampleLookup | src/lib.rs:272-274 | with the test's two headwords, `lookup("żół")` lists both, "żółwi" first |
| Dictionary.Xdxf.constructor | src/lib.rs:68-73 | a new dictionary has both maps empty |
| Dictionary.Xdxf.FormatNode | src/lib.rs:92-143 | the recursive method computes exactly Format on the current table |
| Dictionary.Xdxf.FormatChildren | src/lib.rs:123-127 | the loop over children computes exactly FormatAll |
| Dictionary.Xdxf.AddArticle | src/lib.rs:145-149 | the maps and outcome after the call are Loading.AddArticle of the maps before |
| Dictionary.Xdxf.AddAbbreviation | src/lib.rs:167-185 | the table and outcome are Loading.AddAbbreviation of the old table; the dictionary is untouched |
| Dictionary.Xdxf.ParseAbbreviations | src/lib.rs:151-165 | the loop computes Loading.ParseAbbreviations; the dictionary is untouched |
| Dictionary.Xdxf.ParseRoot | src/lib.rs:75-90 | the loop computes Loading.ParseRoot on both maps |
| Dictionary.Xdxf.FeedStr | src/lib.rs:211-221 | feed_str computes Loading.FeedText: rewrite, trim, parse, then dispatch |
| Dictionary.Xdxf.FeedDocument | src/lib.rs:214-220 | the loop over the top-level nodes computes Loading.FeedDocument on both maps |
| Dictionary.Xdxf.LoadStr | src/lib.rs:196-200 | load_str fails with the feed's error, or returns a new dictionary holding the maps fed from empty |
| Dictionary.Xdxf.Lookup | src/lib.rs:224-237 | empty for a prefix under 3 UTF-8 bytes; otherwise exactly the entries whose key starts with the prefix, values included, strictly ascending by key |

## Left out

- `load_file` and `feed_file` (src/lib.rs:187-194, 202-209): file I/O, outside the model.
- The XML parser (sxd_document). It becomes a parameter `parse: string -> Option<seq<Node>>`,
  and None is its rejection (`MalformedXml`).
  - Only local names of elements are kept; namespaces and attributes are not modelled.
  - Comments and processing instructions are `Other`.
  - The XML declaration and the document root are the parser's concern.
- The regex crate: the three patterns are hand-written matchers with leftmost-first semantics.
  Their equivalence to the crate's engine is not proved.
- The radix trie.
  - It is modelled by the map it stores, with `Less` (code-point order) as its iteration order.
  - That this order coincides with the trie's byte-wise order on UTF-8 is assumed from UTF-8's
    design, not proved.
  - `get_descendant` returning None for no match gives the same empty result as an empty listing.
- Crate set-up and error helpers (src/lib.rs:1-27): the text of the error messages, including
  the `Debug` rendering of nodes, is not modelled. Only the kind of error is.
- Concurrency: the source has none beyond the process-wide compiled patterns, which are
  constants here.
- The end-to-end article of the test (src/lib.rs:275) is not proved.
  - The rewrite at src/lib.rs:212 moves `łw` in front of `<pos><abr>rzecz.</abr></pos>`, so the
    expected string (`...</span>łw ...`) does not follow from the code as written.
  - The model follows the code.
- Dictionary.Xdxf.AddArticle: in the source, `add_article` always returns Ok, and rendering
  panics on a missing child, on an `abr` whose first child is not text, on an undefined
  abbreviation, and on a `k` whose first child gives nodeval no text (src/lib.rs:118-121). The
  model returns `MissingChild`, `NotText`, `UndefinedAbbreviation` or `InvalidNode` as a failure
  of the call, and the enclosing loops stop there.
- Dictionary.Xdxf.FeedStr: the maps keep whatever an interrupted feed stored before its error,
  as in the source. No roll-back is modelled.
