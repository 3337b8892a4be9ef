# Inline markdown-to-HTML rewriter, in Dafny

This project models the inline rewriter of `public/src/parser.py` and proves
properties of the model. `convert_to_html` hands the text to `parse`, which
repeats two steps until nothing is left to rewrite:

1. `get_foremost_symbol` chooses a delimiter kind:
   - bold `**`, italic `_` or code `` ` ``;
   - only kinds whose delimiter occurs at least twice count;
   - among those, it takes the kind whose delimiter occurs first.
2. `parse_delimiter` rewrites one pair of that delimiter into the kind's HTML
   element (`<b>`, `<i>`, `<code>`):
   - with an even count, the first occurrence and the next non-overlapping
     one;
   - with an odd count, the first and the last occurrence.

The project has two modules:

- `py_strings.dfy` (module `PyStrings`) defines the Python string methods the
  rewriter is built from, as Python defines them on `str`:
  - `find`, and `find` from an offset;
  - `rfind`;
  - the non-overlapping, left-to-right `count`.
- `parser.dfy` (module `Parser`) follows the code:
  - the enumeration `TextType` and the three lookup tables;
  - the two split functions and `parse_delimiter`, as functions;
  - `get_foremost_symbol`, as a method with a `for` loop over the kinds;
  - `parse`, as a method with a `while true` loop.

The two loops are proved against specification functions:

- `ForemostAmong` and `Foremost` specify `get_foremost_symbol`.
- `Converted` specifies `parse`. It terminates because every rewrite removes
  two delimiters' worth of `*`, `_` and `` ` `` characters. The tags it
  inserts contain none of them.

Where the design description and the code disagree, the model follows the
code:

- The design describes block segmentation, paragraph wrapping and link and
  image rewriting. None of these exist in `parser.py`.
- The design expects `"**bold text**"` to become `"<p><b>bold text</b></p>"`.
  The code yields `"<b>bold text</b>"`, and that is the result `BoldExample`
  states.

## Model

| member | source | states |
|---|---|---|
| PyStrings.FindFrom | public/src/parser.py:29 | `find` from an offset returns -1 or an occurrence at or after the offset. No occurrence lies between the offset and the result. An empty pattern is found at the offset. |
| PyStrings.Find | public/src/parser.py:28 | `find` returns -1 or the first occurrence. No occurrence precedes it. An empty pattern is found at 0. |
| PyStrings.FindFromIsNext | public/src/parser.py:29 | An occurrence at or after the offset, with none between the offset and it, is exactly what `find` from that offset returns. |
| PyStrings.FindIsFirst | public/src/parser.py:28 | An occurrence with none before it is exactly what `find` returns. |
| PyStrings.RFind | public/src/parser.py:56 | `rfind` returns -1 or the last occurrence. No occurrence follows it. An empty pattern is found at the length. |
| PyStrings.CountFrom | public/src/parser.py:44 | The non-overlapping count is zero exactly when `find` from the offset fails. For a non-empty pattern it is at most the length of what remains. |
| PyStrings.CountAtLeastTwo | public/src/parser.py:44 | `count` is at least 2 exactly when the first occurrence is followed by another one that starts at or after its end. |
| PyStrings.LastAfterFirst | public/src/parser.py:55-56 | With a count of at least 2, `rfind` starts at or after the end of the occurrence `find` returns. |
| PyStrings.CountIsNonOverlapping | public/src/parser.py:44 | `"****"` counts 2 occurrences of `"**"` and `"***"` counts 1: occurrences do not overlap. |
| Parser.TextTypeSymbol | public/src/parser.py:89-98 | `get_text_type_symbol` raises ValueError exactly for TEXT, LINK and IMAGE. Otherwise it gives a non-empty delimiter made only of `*`, `_` and `` ` ``. |
| Parser.IsSymbolValid | public/src/parser.py:110-115 | `is_symbol_valid` is true exactly for the kinds that `get_text_type_symbol` accepts. |
| Parser.Tag | public/src/parser.py:101-108 | `get_tag` gives a non-empty element name without delimiter characters. |
| Parser.LookupTables | public/src/parser.py:89-108 | Each delimiter consists only of marks, and the inserted tags contain none. Different kinds have different tags and delimiters that begin with different characters. |
| Parser.SplitTextDelimiterWrapsFirstPair | public/src/parser.py:27-38 | For any first pair (i, j) — the first occurrence and the next non-overlapping one — the result is `text[:i]`, the opening tag, `text[i+len:j]`, the closing tag, then `text[j+len:]`. |
| Parser.SplitTextDelimiterWithoutPair | public/src/parser.py:28-32 | Without a first pair, the text comes back unchanged. |
| Parser.SplitTextDelimiterBelowTwo | public/src/parser.py:28-32 | With a count below 2, the text comes back unchanged. |
| Parser.SplitTextDelimiterChanges | public/src/parser.py:33-38 | With a first pair, the result is the wrapped text. Its length is the text's, minus two delimiters, plus the two tags. It differs from the text. |
| Parser.SplitTextDelimiterRewrites | public/src/parser.py:27-38 | Count below 2: unchanged. Otherwise `find` and `find` after the first occurrence form the first pair, the result wraps it, has the stated length and differs from the text. |
| Parser.SplitTextOuterDelimiterWrapsOuterPair | public/src/parser.py:54-65 | For the first and last occurrences (i, j), when they differ, the result is `text[:i]`, the opening tag, `text[i+len:j]`, the closing tag, then `text[j+len:]`. |
| Parser.SplitTextOuterDelimiterWithoutPair | public/src/parser.py:55-59 | When the delimiter is missing, or its first and last occurrences coincide, the text comes back unchanged. |
| Parser.SplitTextOuterDelimiterRewrites | public/src/parser.py:54-65 | With a count of at least 2: `find` and `rfind` form an outer pair that does not overlap, and the result wraps it. The length changes by the tags minus two delimiters, and the result differs from the text. |
| Parser.EncloseKeepsOccurrence | public/src/parser.py:61-65 | An occurrence of the delimiter strictly inside the cut pair survives, inside the tags and shifted, so later passes see it. |
| Parser.ParseDelimiter | public/src/parser.py:41-51 | `parse_delimiter` raises ValueError exactly for kinds without a delimiter. Otherwise it changes the text exactly when the delimiter's count is above 1. |
| Parser.ParseDelimiterWrapsPair | public/src/parser.py:44-48 | With an even count, `parse_delimiter` wraps the first pair. With an odd count above 1, it wraps the pair formed by the first and last occurrences. |
| Parser.SplitTextDelimiterRemovesMarks | public/src/parser.py:33-38 | A first-pair rewrite removes the delimiter's marks twice and adds none. |
| Parser.SplitTextOuterDelimiterRemovesMarks | public/src/parser.py:60-65 | An outer-pair rewrite removes the delimiter's marks twice and adds none. |
| Parser.ParseDelimiterRemovesPair | public/src/parser.py:41-51 | Each rewrite lowers the number of `*`, `_` and `` ` `` characters by twice the delimiter's length. This is the termination measure of `parse`. |
| Parser.PresentSymbolIsRewritten | public/src/parser.py:118-119 | The corrected `is_symbol_present` holds exactly when the delimiter occurs twice without overlap, and exactly when `parse_delimiter` would change the text. |
| Parser.IsSymbolPresentAsWrittenRaises | public/src/parser.py:118-119 | As written, `is_symbol_present` raises TypeError for bold on `"**b**"`, where bold is present. |
| Parser.ForemostAmong | public/src/parser.py:68-86 | The kind held after visiting some kinds is one of them and is present. |
| Parser.ForemostAmongIsEarliest | public/src/parser.py:75-84 | None exactly when none of the visited kinds is present. Otherwise the held kind's first occurrence is no later than that of any present visited kind. |
| Parser.FirstOccurrencesDiffer | public/src/parser.py:77-81 | Two present kinds have first occurrences at different indices, so the strict comparison never has to break a tie. |
| Parser.ForemostIsEarliest | public/src/parser.py:68-86 | The choice is None exactly when no kind is present. Otherwise it is BOLD, ITALIC or CODE, it is present, and its first occurrence is strictly earlier than every other present kind's. |
| Parser.GetForemostSymbol | public/src/parser.py:68-86 | The loop returns the specified choice, with the same None case and the same strict earliest property. |
| Parser.Converted | public/src/parser.py:17-24 | The result of the fixed-point loop has no kind left present, and has no more marks than the input. |
| Parser.ConvertedUnchangedIff | public/src/parser.py:17-24 | `parse` leaves a text unchanged exactly when no kind is present in it. |
| Parser.ConvertedIdempotent | public/src/parser.py:17-24 | `parse` applied to its own output changes nothing. |
| Parser.Parse | public/src/parser.py:17-24 | The loop terminates and returns the specified result, in which no kind is present. |
| Parser.ConvertToHtml | public/src/parser.py:13-14 | `convert_to_html` returns what `parse` returns. |
| Parser.MarkFreeIsFixed | public/src/parser.py:17-24 | A text without `*`, `_` or `` ` `` passes through unchanged. |
| Parser.WrappedSpan | public/src/parser.py:17-38 | A delimiter, then text without delimiter characters, then the same delimiter, converts to the kind's element around that text. |
| Parser.LoneDelimiter | public/src/parser.py:44-51 | A single delimiter before text without delimiter characters passes through unchanged. |
| Parser.BoldExample | public/src/parser.py:13-14 | `"**bold text**"` converts to `"<b>bold text</b>"`. |
| Parser.ItalicExample | public/src/parser.py:13-14 | `"_italic_"` converts to `"<i>italic</i>"`. |
| Parser.LonelyExample | public/src/parser.py:13-14 | `"**lonely"` converts to itself. |

## Left out

- The module-level demo at `public/src/parser.py:122-128` builds a sample
  string and prints the conversion. It is I/O and not modelled.
- `Parser.Tag` requires BOLD, ITALIC or CODE. For any other kind, `get_tag`
  falls through and returns `None`, which the f-string would render as
  `"None"`. The split functions demand a kind with a tag for the same reason.
  `parse_delimiter` only reaches them after `get_text_type_symbol` has
  accepted the kind, so no path of `parse` is lost.
- The `float("inf")` starting value of `foremost_index` is `|text| + 1` in
  `GetForemostSymbol`. No index returned by `find` reaches that value.
- Python slicing clamps out-of-range bounds. The model writes every slice
  with in-range bounds, which holds on every path the code takes. The one
  slice that can have its lower bound past its upper bound is the middle
  slice of `split_text_outer_delimiter`. `Slice` gives the empty string
  there, as Python does.
- Python strings are sequences of code points; here they are `seq<char>`.
  No normalisation or encoding is involved.
- Link and image rewriting, block segmentation (headings, fenced code,
  quotes) and paragraph wrapping are described in the design. They are not
  part of `parser.py`, so they are not part of this model. The LINK and
  IMAGE kinds are modelled only as kinds that are always skipped.
- `is_symbol_present` is never called by the rewriter. It is modelled as
  written by `Parser.IsSymbolPresentAsWritten` and corrected by
  `Parser.IsSymbolPresent`.

## Findings

| source | as written | input that shows it | evidently intended | confidence | as-written member | corrected member |
|---|---|---|---|---|---|---|
| public/src/parser.py:118-119 | `text.count(symbol)` passes the TextType member itself to `str.count`. For BOLD, ITALIC and CODE this raises TypeError, so `is_symbol_present` can only return False or raise. | `is_symbol_present("**b**", TextType.BOLD)` raises, though `"**"` occurs twice. | Count the kind's delimiter, `text.count(get_text_type_symbol(symbol)) > 1`. This is the test `get_foremost_symbol` applies. | medium, not executed | Parser.IsSymbolPresentAsWrittenRaises | Parser.PresentSymbolIsRewritten |
