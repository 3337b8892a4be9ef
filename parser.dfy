/**
 * The inline markdown-to-HTML rewriter of public/src/parser.py: a fixed-point
 * loop that picks the delimiter kind (bold "**", italic "_", code "`") whose
 * first occurrence comes earliest among those occurring at least twice, and
 * rewrites one pair of that delimiter into an HTML tag, until no kind is left.
 */
module Parser {
  import opened PyStrings

  /** The TextType enumeration, in declaration order. */
  datatype TextType = Text | Bold | Italic | Code | Link | Image

  /** list(TextType): the order in which get_foremost_symbol visits the kinds. */
  const AllTextTypes: seq<TextType> := [Text, Bold, Italic, Code, Link, Image]

  datatype Option<T> = None | Some(value: T)

  /** The exceptions the core can raise. */
  datatype Error =
    | UnknownTextType(textType: TextType)  // ValueError from get_text_type_symbol
    | CountOfTextType                      // TypeError: str.count given a TextType, not a str

  datatype Result<T> = Ok(value: T) | Err(error: Error)

  // ---------------------------------------------------------------------------
  // The termination measure: characters that can belong to a delimiter
  // ---------------------------------------------------------------------------

  predicate IsMark(c: char)
  {
    c == '*' || c == '_' || c == '`'
  }

  /** The number of '*', '_' and '`' characters in s. */
  function MarkCount(s: string): nat
  {
    if s == [] then 0 else (if IsMark(s[0]) then 1 else 0) + MarkCount(s[1..])
  }

  lemma {:induction false} MarkCountConcat(a: string, b: string)
    ensures MarkCount(a + b) == MarkCount(a) + MarkCount(b)
  {
    if a != [] {
      assert (a + b)[1..] == a[1..] + b;
      MarkCountConcat(a[1..], b);
    } else {
      assert a + b == b;
    }
  }

  /** A string made only of delimiter characters has as many marks as characters. */
  lemma {:induction false} MarkCountOfMarks(s: string)
    requires forall k :: 0 <= k < |s| ==> IsMark(s[k])
    ensures MarkCount(s) == |s|
  {
    if s != [] {
      MarkCountOfMarks(s[1..]);
    }
  }

  /** A string without delimiter characters has no marks. */
  lemma {:induction false} MarkCountOfNoMarks(s: string)
    requires forall k :: 0 <= k < |s| ==> !IsMark(s[k])
    ensures MarkCount(s) == 0
  {
    if s != [] {
      MarkCountOfNoMarks(s[1..]);
    }
  }

  // ---------------------------------------------------------------------------
  // Lookup tables
  // ---------------------------------------------------------------------------

  /** get_text_type_symbol: the delimiter of a kind; ValueError for the kinds without one. */
  function TextTypeSymbol(textType: TextType): (r: Result<string>)
    ensures r.Err? <==> textType in {Text, Link, Image}
    ensures r.Err? ==> r.error == UnknownTextType(textType)
    ensures r.Ok? ==> r.value != [] && forall k :: 0 <= k < |r.value| ==> IsMark(r.value[k])
  {
    match textType
    case Bold => Ok("**")
    case Italic => Ok("_")
    case Code => Ok("`")
    case _ => Err(UnknownTextType(textType))
  }

  /** is_symbol_valid: the kinds the lookup tables are defined for. */
  function IsSymbolValid(symbol: TextType): (r: bool)
    ensures r <==> TextTypeSymbol(symbol).Ok?
  {
    match symbol
    case Bold | Italic | Code => true
    case _ => false
  }

  /** The delimiter of a kind the tables are defined for. */
  function Delimiter(textType: TextType): string
    requires IsSymbolValid(textType)
  {
    TextTypeSymbol(textType).value
  }

  /** get_tag: the HTML element name of a kind. */
  function Tag(textType: TextType): (tag: string)
    requires IsSymbolValid(textType)
    ensures tag != [] && forall k :: 0 <= k < |tag| ==> !IsMark(tag[k])
  {
    match textType
    case Bold => "b"
    case Italic => "i"
    case Code => "code"
  }

  function OpenTag(tag: string): string
  {
    "<" + tag + ">"
  }

  function CloseTag(tag: string): string
  {
    "</" + tag + ">"
  }

  /** The f-string f"{before}<{tag}>{middle}</{tag}>{after}". */
  function Enclose(before: string, middle: string, after: string, tag: string): string
  {
    before + OpenTag(tag) + middle + CloseTag(tag) + after
  }

  /** The kinds' tables agree, and the tags they insert contain no delimiter character. */
  lemma LookupTables(textType: TextType)
    requires IsSymbolValid(textType)
    ensures MarkCount(Delimiter(textType)) == |Delimiter(textType)| > 0
    ensures MarkCount(OpenTag(Tag(textType))) == 0 && MarkCount(CloseTag(Tag(textType))) == 0
    ensures forall other :: IsSymbolValid(other) && other != textType ==>
      Tag(other) != Tag(textType) && Delimiter(other)[0] != Delimiter(textType)[0]
  {
    MarkCountOfMarks(Delimiter(textType));
    var tag := Tag(textType);
    MarkCountOfNoMarks(OpenTag(tag));
    MarkCountOfNoMarks(CloseTag(tag));
  }

  // ---------------------------------------------------------------------------
  // Pairs of delimiter occurrences
  // ---------------------------------------------------------------------------

  /** i is the first occurrence of d in s, and j the next one that does not overlap it. */
  ghost predicate IsFirstPair(s: string, d: string, i: int, j: int)
  {
    && OccursAt(s, d, i) && (forall p :: 0 <= p < i ==> !OccursAt(s, d, p))
    && i + |d| <= j && OccursAt(s, d, j) && (forall p :: i + |d| <= p < j ==> !OccursAt(s, d, p))
  }

  /** i is the first occurrence of d in s, j the last one, and they are different. */
  ghost predicate IsOuterPair(s: string, d: string, i: int, j: int)
  {
    && OccursAt(s, d, i) && (forall p :: 0 <= p < i ==> !OccursAt(s, d, p))
    && OccursAt(s, d, j) && (forall p :: j < p ==> !OccursAt(s, d, p))
    && i != j
  }

  /** s[lo:hi] for in-range bounds: empty when lo is past hi, as a Python slice is. */
  function Slice(s: string, lo: nat, hi: nat): string
    requires lo <= |s| && hi <= |s|
  {
    if lo <= hi then s[lo..hi] else []
  }

  /** Cutting a string at two non-overlapping occurrences of d. */
  lemma Decompose(s: string, d: string, i: int, j: int)
    requires OccursAt(s, d, i) && OccursAt(s, d, j) && i + |d| <= j
    ensures s == s[..i] + d + s[i + |d|..j] + d + s[j + |d|..]
  {
    OccursAtSlice(s, d, i);
    OccursAtSlice(s, d, j);
    assert s == s[..i] + s[i..i + |d|] + s[i + |d|..j] + s[j..j + |d|] + s[j + |d|..];
  }

  /** Replacing two non-overlapping occurrences of d by the two tags changes the length by the difference in size. */
  lemma EncloseLength(s: string, d: string, i: int, j: int, tag: string)
    requires OccursAt(s, d, i) && OccursAt(s, d, j) && i + |d| <= j
    ensures |Enclose(s[..i], s[i + |d|..j], s[j + |d|..], tag)| + 2 * |d| == |s| + |OpenTag(tag)| + |CloseTag(tag)|
  {
  }

  /** Replacing two non-overlapping occurrences of d by tags without marks removes the marks of d twice. */
  lemma EncloseRemovesMarks(s: string, d: string, i: int, j: int, tag: string)
    requires OccursAt(s, d, i) && OccursAt(s, d, j) && i + |d| <= j
    requires MarkCount(OpenTag(tag)) == 0 && MarkCount(CloseTag(tag)) == 0
    ensures MarkCount(Enclose(s[..i], s[i + |d|..j], s[j + |d|..], tag)) + 2 * MarkCount(d) == MarkCount(s)
  {
    var before, middle, after := s[..i], s[i + |d|..j], s[j + |d|..];
    var open, close := OpenTag(tag), CloseTag(tag);
    Decompose(s, d, i, j);
    MarkCountConcat(before, d);
    MarkCountConcat(before + d, middle);
    MarkCountConcat(before + d + middle, d);
    MarkCountConcat(before + d + middle + d, after);
    MarkCountConcat(before, open);
    MarkCountConcat(before + open, middle);
    MarkCountConcat(before + open + middle, close);
    MarkCountConcat(before + open + middle + close, after);
  }

  /** A first pair, when there is one, is the one split_text_delimiter finds. */
  lemma FirstPairIsFound(s: string, d: string)
    ensures forall i, j :: IsFirstPair(s, d, i, j) ==> i == Find(s, d) && j == FindFrom(s, d, i + |d|)
  {
  }

  /** An outer pair, when there is one, is the one split_text_outer_delimiter finds. */
  lemma OuterPairIsFound(s: string, d: string)
    ensures forall i, j :: IsOuterPair(s, d, i, j) ==> i == Find(s, d) && j == RFind(s, d)
    ensures Find(s, d) != -1 && RFind(s, d) != -1 && Find(s, d) != RFind(s, d) ==>
      IsOuterPair(s, d, Find(s, d), RFind(s, d))
  {
  }

  // ---------------------------------------------------------------------------
  // Rewriting one pair
  // ---------------------------------------------------------------------------

  /** split_text_delimiter: the text between the first two non-overlapping delimiters, wrapped in the kind's tag. */
  function SplitTextDelimiter(text: string, delimiter: string, textType: TextType): string
    requires IsSymbolValid(textType)
  {
    var start := Find(text, delimiter);
    var end := FindFrom(text, delimiter, start + |delimiter|);
    if start == -1 || end == -1 then
      text
    else
      var tag := Tag(textType);
      var before := text[..start];
      var middle := text[start + |delimiter|..end];
      var after := text[end + |delimiter|..];
      Enclose(before, middle, after, tag)
  }

  /** Unfolding split_text_delimiter once both occurrences are found. */
  lemma SplitTextDelimiterAtFound(text: string, delimiter: string, textType: TextType)
    requires IsSymbolValid(textType)
    requires Find(text, delimiter) != -1 && FindFrom(text, delimiter, Find(text, delimiter) + |delimiter|) != -1
    ensures var i := Find(text, delimiter);
      var j := FindFrom(text, delimiter, i + |delimiter|);
      SplitTextDelimiter(text, delimiter, textType) ==
        Enclose(text[..i], text[i + |delimiter|..j], text[j + |delimiter|..], Tag(textType))
  {
  }

  /**
   * split_text_delimiter wraps the text between the first occurrence of the
   * delimiter and the next non-overlapping one in the kind's tag.
   */
  lemma SplitTextDelimiterWrapsFirstPair(text: string, delimiter: string, textType: TextType, i: int, j: int)
    requires IsSymbolValid(textType) && IsFirstPair(text, delimiter, i, j)
    ensures SplitTextDelimiter(text, delimiter, textType) ==
      Enclose(text[..i], text[i + |delimiter|..j], text[j + |delimiter|..], Tag(textType))
  {
    FindIsFirst(text, delimiter, i);
    FindFromIsNext(text, delimiter, i + |delimiter|, j);
    SplitTextDelimiterAtFound(text, delimiter, textType);
  }

  /** Without a first pair, split_text_delimiter returns the text unchanged. */
  lemma SplitTextDelimiterWithoutPair(text: string, delimiter: string, textType: TextType)
    requires IsSymbolValid(textType)
    ensures (forall i, j :: !IsFirstPair(text, delimiter, i, j)) ==>
      SplitTextDelimiter(text, delimiter, textType) == text
  {
    var start := Find(text, delimiter);
    var end := FindFrom(text, delimiter, start + |delimiter|);
    if start != -1 && end != -1 {
      assert IsFirstPair(text, delimiter, start, end);
    }
  }

  /** With fewer than two non-overlapping delimiters, split_text_delimiter returns the text unchanged. */
  lemma SplitTextDelimiterBelowTwo(text: string, delimiter: string, textType: TextType)
    requires IsSymbolValid(textType) && |delimiter| > 0 && Count(text, delimiter) < 2
    ensures SplitTextDelimiter(text, delimiter, textType) == text
  {
    assert forall i, j :: !IsFirstPair(text, delimiter, i, j) by {
      CountAtLeastTwo(text, delimiter);
      FirstPairIsFound(text, delimiter);
    }
    SplitTextDelimiterWithoutPair(text, delimiter, textType);
  }

  /**
   * Rewriting a first pair replaces two delimiters by the two tags, so the
   * result differs from the text: the tags add an odd number of characters
   * and the two delimiters an even one.
   */
  lemma SplitTextDelimiterChanges(text: string, delimiter: string, textType: TextType, i: int, j: int)
    requires IsSymbolValid(textType) && IsFirstPair(text, delimiter, i, j)
    ensures var r, tag := SplitTextDelimiter(text, delimiter, textType), Tag(textType);
      && r == Enclose(text[..i], text[i + |delimiter|..j], text[j + |delimiter|..], tag)
      && |r| + 2 * |delimiter| == |text| + |OpenTag(tag)| + |CloseTag(tag)|
      && r != text
  {
    var tag := Tag(textType);
    SplitTextDelimiterWrapsFirstPair(text, delimiter, textType, i, j);
    EncloseLength(text, delimiter, i, j, tag);
    assert |OpenTag(tag)| + |CloseTag(tag)| == 2 * |tag| + 5;
  }

  /**
   * With a non-empty delimiter, split_text_delimiter rewrites exactly when the
   * delimiter occurs twice without overlap, i.e. when str.count is at least 2;
   * it then removes the delimiter twice and inserts the two tags.
   */
  lemma SplitTextDelimiterRewrites(text: string, delimiter: string, textType: TextType)
    requires IsSymbolValid(textType) && |delimiter| > 0
    ensures var r := SplitTextDelimiter(text, delimiter, textType);
      && (Count(text, delimiter) < 2 ==> r == text)
      && (Count(text, delimiter) >= 2 ==>
            && var i := Find(text, delimiter);
            && var j := FindFrom(text, delimiter, i + |delimiter|);
            && IsFirstPair(text, delimiter, i, j)
            && r == Enclose(text[..i], text[i + |delimiter|..j], text[j + |delimiter|..], Tag(textType))
            && |r| + 2 * |delimiter| == |text| + |OpenTag(Tag(textType))| + |CloseTag(Tag(textType))|
            && r != text)
  {
    if Count(text, delimiter) >= 2 {
      var i := Find(text, delimiter);
      var j := FindFrom(text, delimiter, i + |delimiter|);
      assert IsFirstPair(text, delimiter, i, j) by {
        CountAtLeastTwo(text, delimiter);
      }
      SplitTextDelimiterChanges(text, delimiter, textType, i, j);
    } else {
      SplitTextDelimiterBelowTwo(text, delimiter, textType);
    }
  }

  /** split_text_outer_delimiter: the text between the first and the last delimiter, wrapped in the kind's tag. */
  function SplitTextOuterDelimiter(text: string, delimiter: string, textType: TextType): string
    requires IsSymbolValid(textType)
  {
    var start := Find(text, delimiter);
    var end := RFind(text, delimiter);
    if start == -1 || end == -1 || start == end then
      text
    else
      var tag := Tag(textType);
      var before := text[..start];
      var middle := Slice(text, start + |delimiter|, end);
      var after := text[end + |delimiter|..];
      Enclose(before, middle, after, tag)
  }

  /**
   * split_text_outer_delimiter wraps the text between the first and the last
   * occurrence of the delimiter in the kind's tag.
   */
  lemma SplitTextOuterDelimiterWrapsOuterPair(text: string, delimiter: string, textType: TextType, i: int, j: int)
    requires IsSymbolValid(textType) && IsOuterPair(text, delimiter, i, j)
    ensures SplitTextOuterDelimiter(text, delimiter, textType) ==
      Enclose(text[..i], Slice(text, i + |delimiter|, j), text[j + |delimiter|..], Tag(textType))
  {
    assert i == Find(text, delimiter) && j == RFind(text, delimiter) by {
      OuterPairIsFound(text, delimiter);
    }
  }

  /**
   * Without an outer pair, that is when the delimiter is missing or occurs at
   * one index only, split_text_outer_delimiter returns the text unchanged.
   */
  lemma SplitTextOuterDelimiterWithoutPair(text: string, delimiter: string, textType: TextType)
    requires IsSymbolValid(textType)
    ensures (forall i, j :: !IsOuterPair(text, delimiter, i, j)) ==>
      SplitTextOuterDelimiter(text, delimiter, textType) == text
  {
    OuterPairIsFound(text, delimiter);
  }

  /**
   * When the delimiter occurs twice without overlap, split_text_outer_delimiter
   * removes the first and the last occurrence, keeps everything between them
   * and inserts the two tags.
   */
  lemma SplitTextOuterDelimiterRewrites(text: string, delimiter: string, textType: TextType)
    requires IsSymbolValid(textType) && |delimiter| > 0 && Count(text, delimiter) >= 2
    ensures var i, j := Find(text, delimiter), RFind(text, delimiter);
      && IsOuterPair(text, delimiter, i, j) && i + |delimiter| <= j
      && var r := SplitTextOuterDelimiter(text, delimiter, textType);
      && r == Enclose(text[..i], text[i + |delimiter|..j], text[j + |delimiter|..], Tag(textType))
      && |r| + 2 * |delimiter| == |text| + |OpenTag(Tag(textType))| + |CloseTag(Tag(textType))|
      && r != text
  {
    LastAfterFirst(text, delimiter);
    var i, j := Find(text, delimiter), RFind(text, delimiter);
    var tag := Tag(textType);
    assert IsOuterPair(text, delimiter, i, j);
    SplitTextOuterDelimiterWrapsOuterPair(text, delimiter, textType, i, j);
    EncloseLength(text, delimiter, i, j, tag);
    assert |OpenTag(tag)| + |CloseTag(tag)| == 2 * |tag| + 5;
  }

  /**
   * An occurrence of d lying wholly between the two cut points survives,
   * inside the tags, in the rewritten text: with the cut points at the first
   * and last occurrence, the interior delimiters are left for later passes.
   */
  lemma EncloseKeepsOccurrence(s: string, d: string, i: int, j: int, tag: string, p: int)
    requires 0 <= i && i + |d| <= p && p + |d| <= j && j + |d| <= |s|
    requires OccursAt(s, d, p)
    ensures OccursAt(Enclose(s[..i], s[i + |d|..j], s[j + |d|..], tag), d, p - |d| + |OpenTag(tag)|)
  {
    var before, middle, after := s[..i], s[i + |d|..j], s[j + |d|..];
    var k := p - |d| + |OpenTag(tag)|;
    OccursInSlice(s, d, p, i + |d|, j);
    OccursInConcatRight(before + OpenTag(tag), middle, d, p - i - |d|);
    OccursInConcatLeft(before + OpenTag(tag) + middle, CloseTag(tag), d, k);
    OccursInConcatLeft(before + OpenTag(tag) + middle + CloseTag(tag), after, d, k);
  }

  /**
   * parse_delimiter: looks up the kind's delimiter (ValueError for a kind
   * without one), leaves the text unchanged unless the delimiter occurs at
   * least twice, and otherwise rewrites the first pair when the count is even
   * and the outer pair when it is odd.
   */
  function ParseDelimiter(text: string, textType: TextType): (r: Result<string>)
    ensures r.Err? <==> !IsSymbolValid(textType)
    ensures r.Err? ==> r.error == UnknownTextType(textType)
    ensures r.Ok? ==> (r.value == text <==> Count(text, Delimiter(textType)) <= 1)
  {
    match TextTypeSymbol(textType)
    case Err(e) => Err(e)
    case Ok(delimiter) =>
      if Count(text, delimiter) > 1 then
        if Count(text, delimiter) % 2 == 0 then
          SplitTextDelimiterRewrites(text, delimiter, textType);
          Ok(SplitTextDelimiter(text, delimiter, textType))
        else
          SplitTextOuterDelimiterRewrites(text, delimiter, textType);
          Ok(SplitTextOuterDelimiter(text, delimiter, textType))
      else
        Ok(text)
  }

  /**
   * Which pair parse_delimiter rewrites: with an even count of at least two,
   * the first occurrence and the next non-overlapping one; with an odd count
   * above one, the first and the last occurrence, whatever lies between.
   */
  lemma ParseDelimiterWrapsPair(text: string, textType: TextType)
    requires IsSymbolValid(textType) && Count(text, Delimiter(textType)) > 1
    ensures var d, tag, r := Delimiter(textType), Tag(textType), ParseDelimiter(text, textType).value;
      && (Count(text, d) % 2 == 0 ==>
            var i := Find(text, d); var j := FindFrom(text, d, i + |d|);
            && IsFirstPair(text, d, i, j)
            && r == Enclose(text[..i], text[i + |d|..j], text[j + |d|..], tag))
      && (Count(text, d) % 2 == 1 ==>
            var i, j := Find(text, d), RFind(text, d);
            && IsOuterPair(text, d, i, j) && i + |d| <= j
            && r == Enclose(text[..i], text[i + |d|..j], text[j + |d|..], tag))
  {
    var d := Delimiter(textType);
    LookupTables(textType);
    if Count(text, d) % 2 == 1 {
      assert ParseDelimiter(text, textType) == Ok(SplitTextOuterDelimiter(text, d, textType));
      SplitTextOuterDelimiterRewrites(text, d, textType);
    } else {
      assert ParseDelimiter(text, textType) == Ok(SplitTextDelimiter(text, d, textType));
      SplitTextDelimiterRewrites(text, d, textType);
    }
  }

  /** split_text_delimiter removes the marks of the delimiter twice when it rewrites. */
  lemma SplitTextDelimiterRemovesMarks(text: string, delimiter: string, textType: TextType)
    requires IsSymbolValid(textType) && |delimiter| > 0 && Count(text, delimiter) >= 2
    requires MarkCount(OpenTag(Tag(textType))) == 0 && MarkCount(CloseTag(Tag(textType))) == 0
    ensures MarkCount(SplitTextDelimiter(text, delimiter, textType)) + 2 * MarkCount(delimiter) == MarkCount(text)
  {
    var i := Find(text, delimiter);
    var j := FindFrom(text, delimiter, i + |delimiter|);
    assert IsFirstPair(text, delimiter, i, j) by {
      CountAtLeastTwo(text, delimiter);
    }
    SplitTextDelimiterChanges(text, delimiter, textType, i, j);
    EncloseRemovesMarks(text, delimiter, i, j, Tag(textType));
  }

  /** split_text_outer_delimiter removes the marks of the delimiter twice when it rewrites. */
  lemma SplitTextOuterDelimiterRemovesMarks(text: string, delimiter: string, textType: TextType)
    requires IsSymbolValid(textType) && |delimiter| > 0 && Count(text, delimiter) >= 2
    requires MarkCount(OpenTag(Tag(textType))) == 0 && MarkCount(CloseTag(Tag(textType))) == 0
    ensures MarkCount(SplitTextOuterDelimiter(text, delimiter, textType)) + 2 * MarkCount(delimiter) == MarkCount(text)
  {
    var i, j := Find(text, delimiter), RFind(text, delimiter);
    var r := SplitTextOuterDelimiter(text, delimiter, textType);
    assert OccursAt(text, delimiter, i) && OccursAt(text, delimiter, j) && i + |delimiter| <= j &&
           r == Enclose(text[..i], text[i + |delimiter|..j], text[j + |delimiter|..], Tag(textType)) by {
      SplitTextOuterDelimiterRewrites(text, delimiter, textType);
    }
    EncloseRemovesMarks(text, delimiter, i, j, Tag(textType));
  }

  /** Each rewrite parse_delimiter performs removes two delimiters' worth of marks. */
  lemma ParseDelimiterRemovesPair(text: string, textType: TextType)
    requires IsSymbolValid(textType) && Count(text, Delimiter(textType)) >= 2
    ensures MarkCount(ParseDelimiter(text, textType).value) + 2 * |Delimiter(textType)| == MarkCount(text)
    ensures MarkCount(ParseDelimiter(text, textType).value) < MarkCount(text)
  {
    var d := Delimiter(textType);
    LookupTables(textType);
    if Count(text, d) % 2 == 0 {
      SplitTextDelimiterRemovesMarks(text, d, textType);
    } else {
      SplitTextOuterDelimiterRemovesMarks(text, d, textType);
    }
  }

  // ---------------------------------------------------------------------------
  // Choosing the kind to rewrite
  // ---------------------------------------------------------------------------

  /**
   * The test get_foremost_symbol applies to each kind: the kind has a
   * delimiter and it occurs at least twice. This is also what
   * is_symbol_present evidently means (see IsSymbolPresentAsWritten).
   */
  function IsSymbolPresent(text: string, symbol: TextType): bool
  {
    IsSymbolValid(symbol) && Count(text, Delimiter(symbol)) > 1
  }

  /**
   * A kind is present exactly when its delimiter occurs twice without
   * overlap, and a present kind is one that parse_delimiter actually rewrites.
   */
  lemma PresentSymbolIsRewritten(text: string, symbol: TextType)
    requires IsSymbolValid(symbol)
    ensures var d := Delimiter(symbol);
      IsSymbolPresent(text, symbol) <==> Find(text, d) != -1 && FindFrom(text, d, Find(text, d) + |d|) != -1
    ensures IsSymbolPresent(text, symbol) <==> ParseDelimiter(text, symbol).value != text
  {
    LookupTables(symbol);
    CountAtLeastTwo(text, Delimiter(symbol));
  }

  /**
   * is_symbol_present as written: for a kind with a delimiter it passes the
   * TextType itself to str.count, which raises TypeError; for any other
   * kind the short-circuit returns False.
   */
  function IsSymbolPresentAsWritten(text: string, symbol: TextType): Result<bool>
  {
    if !IsSymbolValid(symbol) then Ok(false) else Err(CountOfTextType)
  }

  /** As written, is_symbol_present raises for bold on "**b**", where bold is present. */
  lemma IsSymbolPresentAsWrittenRaises()
    ensures IsSymbolPresent("**b**", Bold)
    ensures IsSymbolPresentAsWritten("**b**", Bold) == Err(CountOfTextType)
  {
    OccursAtSlice("**b**", "**", 0);
    OccursAtSlice("**b**", "**", 3);
    assert FindFrom("**b**", "**", 2) == 3 by {
      OccursAtSlice("**b**", "**", 2);
    }
    CountAtLeastTwo("**b**", "**");
  }

  /**
   * The kind get_foremost_symbol holds after visiting kinds in order: a
   * present kind replaces the current one only if its delimiter's first
   * occurrence is strictly earlier.
   */
  function ForemostAmong(text: string, kinds: seq<TextType>): (r: Option<TextType>)
    ensures r.Some? ==> r.value in kinds && IsSymbolPresent(text, r.value)
    decreases |kinds|
  {
    if kinds == [] then None
    else
      var best := ForemostAmong(text, kinds[..|kinds| - 1]);
      var textType := kinds[|kinds| - 1];
      if IsSymbolPresent(text, textType) &&
         (best.None? || Find(text, Delimiter(textType)) < Find(text, Delimiter(best.value)))
      then Some(textType)
      else best
  }

  /** The kind get_foremost_symbol returns. */
  function Foremost(text: string): Option<TextType>
  {
    ForemostAmong(text, AllTextTypes)
  }

  /** ForemostAmong picks a present kind with the earliest first occurrence, if there is one. */
  lemma {:induction false} ForemostAmongIsEarliest(text: string, kinds: seq<TextType>)
    ensures ForemostAmong(text, kinds).None? <==> forall t :: t in kinds ==> !IsSymbolPresent(text, t)
    ensures ForemostAmong(text, kinds).Some? ==>
      forall t :: t in kinds && IsSymbolPresent(text, t) ==>
        Find(text, Delimiter(ForemostAmong(text, kinds).value)) <= Find(text, Delimiter(t))
    decreases |kinds|
  {
    if kinds != [] {
      var init := kinds[..|kinds| - 1];
      ForemostAmongIsEarliest(text, init);
      assert kinds == init + [kinds[|kinds| - 1]];
    }
  }

  /** The delimiters of two present kinds first occur at different indices. */
  lemma FirstOccurrencesDiffer(text: string, t: TextType, u: TextType)
    requires IsSymbolPresent(text, t) && IsSymbolPresent(text, u) && t != u
    ensures Find(text, Delimiter(t)) != Find(text, Delimiter(u))
  {
    LookupTables(t);
    var dt, du := Delimiter(t), Delimiter(u);
    CountAtLeastTwo(text, dt);
    CountAtLeastTwo(text, du);
    var i, j := Find(text, dt), Find(text, du);
    OccursAtSlice(text, dt, i);
    OccursAtSlice(text, du, j);
    assert text[i] == text[i..i + |dt|][0] == dt[0];
    assert text[j] == text[j..j + |du|][0] == du[0];
  }

  /**
   * get_foremost_symbol returns None exactly when no kind is present, and
   * otherwise a present kind whose delimiter occurs strictly before that of
   * every other present kind.
   */
  lemma ForemostIsEarliest(text: string)
    ensures Foremost(text).None? <==> forall t :: !IsSymbolPresent(text, t)
    ensures Foremost(text).Some? ==>
      && Foremost(text).value in {Bold, Italic, Code}
      && IsSymbolPresent(text, Foremost(text).value)
      && forall t :: IsSymbolPresent(text, t) && t != Foremost(text).value ==>
           Find(text, Delimiter(Foremost(text).value)) < Find(text, Delimiter(t))
  {
    ForemostAmongIsEarliest(text, AllTextTypes);
    forall t: TextType ensures t in AllTextTypes {
      match t
      case Text => assert AllTextTypes[0] == t;
      case Bold => assert AllTextTypes[1] == t;
      case Italic => assert AllTextTypes[2] == t;
      case Code => assert AllTextTypes[3] == t;
      case Link => assert AllTextTypes[4] == t;
      case Image => assert AllTextTypes[5] == t;
    }
    if Foremost(text).Some? {
      var f := Foremost(text).value;
      forall t | IsSymbolPresent(text, t) && t != f
        ensures Find(text, Delimiter(f)) < Find(text, Delimiter(t))
      {
        FirstOccurrencesDiffer(text, f, t);
      }
    }
  }

  /** One more kind visited by get_foremost_symbol. */
  lemma ForemostAmongStep(text: string, n: nat)
    requires n < |AllTextTypes|
    ensures var best, textType := ForemostAmong(text, AllTextTypes[..n]), AllTextTypes[n];
      ForemostAmong(text, AllTextTypes[..n + 1]) ==
        if IsSymbolPresent(text, textType) &&
           (best.None? || Find(text, Delimiter(textType)) < Find(text, Delimiter(best.value)))
        then Some(textType)
        else best
  {
    assert AllTextTypes[..n + 1][..n] == AllTextTypes[..n];
  }

  /** get_foremost_symbol. */
  method GetForemostSymbol(text: string) returns (foremost: Option<TextType>)
    ensures foremost == Foremost(text)
    ensures foremost.None? <==> forall t :: !IsSymbolPresent(text, t)
    ensures foremost.Some? ==>
      && IsSymbolPresent(text, foremost.value)
      && forall t :: IsSymbolPresent(text, t) && t != foremost.value ==>
           Find(text, Delimiter(foremost.value)) < Find(text, Delimiter(t))
  {
    foremost := None;
    var foremostIndex := |text| + 1;  // stands for float("inf"): no first index reaches it
    for n := 0 to |AllTextTypes|
      invariant foremost == ForemostAmong(text, AllTextTypes[..n])
      invariant foremostIndex == if foremost.None? then |text| + 1 else Find(text, Delimiter(foremost.value))
    {
      var textType := AllTextTypes[n];
      ForemostAmongStep(text, n);
      if textType in [Text, Link, Image] {
        continue;
      }
      if Count(text, TextTypeSymbol(textType).value) < 2 {
        continue;
      }
      var symbol := TextTypeSymbol(textType).value;
      var currentIndex := Find(text, symbol);
      if 0 <= currentIndex < foremostIndex {
        foremostIndex := currentIndex;
        foremost := Some(textType);
      }
    }
    assert AllTextTypes[..|AllTextTypes|] == AllTextTypes;
    ForemostIsEarliest(text);
  }

  // ---------------------------------------------------------------------------
  // The fixed-point loop
  // ---------------------------------------------------------------------------

  /**
   * The text parse returns: rewrite the foremost kind until no kind is
   * present. Each rewrite removes at least two marks, so this terminates.
   */
  function Converted(text: string): (r: string)
    ensures forall t :: !IsSymbolPresent(r, t)
    ensures MarkCount(r) <= MarkCount(text)
    decreases MarkCount(text)
  {
    ForemostIsEarliest(text);
    match Foremost(text)
    case None => text
    case Some(textType) =>
      ParseDelimiterRemovesPair(text, textType);
      Converted(ParseDelimiter(text, textType).value)
  }

  /** parse leaves a text unchanged exactly when no kind is present in it. */
  lemma ConvertedUnchangedIff(text: string)
    ensures Converted(text) == text <==> forall t :: !IsSymbolPresent(text, t)
  {
    ForemostIsEarliest(text);
    if Foremost(text).Some? {
      var textType := Foremost(text).value;
      ParseDelimiterRemovesPair(text, textType);
      assert MarkCount(Converted(text)) < MarkCount(text);
    }
  }

  /** parse is idempotent: its output is already a fixed point. */
  lemma ConvertedIdempotent(text: string)
    ensures Converted(Converted(text)) == Converted(text)
  {
    ConvertedUnchangedIff(Converted(text));
  }

  /** parse: rewrite the foremost kind until get_foremost_symbol returns None. */
  method Parse(text: string) returns (htmlText: string)
    ensures htmlText == Converted(text)
    ensures forall t :: !IsSymbolPresent(htmlText, t)
  {
    htmlText := text;
    while true
      invariant Converted(htmlText) == Converted(text)
      decreases MarkCount(htmlText)
    {
      var textType := GetForemostSymbol(htmlText);
      if textType == None {
        break;
      }
      ParseDelimiterRemovesPair(htmlText, textType.value);
      htmlText := ParseDelimiter(htmlText, textType.value).value;
    }
  }

  /** convert_to_html. */
  method ConvertToHtml(text: string) returns (html: string)
    ensures html == Converted(text)
    ensures forall t :: !IsSymbolPresent(html, t)
  {
    html := Parse(text);
  }

  // ---------------------------------------------------------------------------
  // Worked examples
  // ---------------------------------------------------------------------------

  /** A string without '*', '_' or '`' has no marks. */
  lemma {:induction false} NoMarkCharacters(s: string)
    requires '*' !in s && '_' !in s && '`' !in s
    ensures MarkCount(s) == 0
  {
    if s != [] {
      assert s[0] in s;
      assert forall c :: c in s[1..] ==> c in s;
      NoMarkCharacters(s[1..]);
    }
  }

  /** A string with a mark somewhere has a positive mark count. */
  lemma {:induction false} MarkAtIndex(s: string, k: nat)
    requires k < |s| && IsMark(s[k])
    ensures MarkCount(s) > 0
  {
    if k > 0 {
      MarkAtIndex(s[1..], k - 1);
    }
  }

  /** The only delimiter character s contains, if any, is c. */
  ghost predicate OnlyMarkIs(s: string, c: char)
  {
    forall k :: 0 <= k < |s| && IsMark(s[k]) ==> s[k] == c
  }

  /** A kind whose delimiter starts with another delimiter character than the only one in s is not present. */
  lemma OtherKindNotPresent(s: string, c: char, textType: TextType)
    requires IsSymbolValid(textType) && OnlyMarkIs(s, c) && Delimiter(textType)[0] != c
    ensures !IsSymbolPresent(s, textType)
  {
    CountAtLeastTwo(s, Delimiter(textType));
  }

  /** A text without delimiter characters is left as it is by parse. */
  lemma MarkFreeIsFixed(s: string)
    requires MarkCount(s) == 0
    ensures Converted(s) == s
  {
    forall t | IsSymbolPresent(s, t) ensures false {
      var d := Delimiter(t);
      LookupTables(t);
      CountAtLeastTwo(s, d);
      var i := Find(s, d);
      OccursAtSlice(s, d, i);
      assert s[i] == s[i..i + |d|][0] == d[0];
      MarkAtIndex(s, i);
    }
    ConvertedUnchangedIff(s);
  }

  /** Characters of a mark-free text are not marks. */
  lemma MarkFreeCharacters(x: string)
    requires MarkCount(x) == 0
    ensures forall k :: 0 <= k < |x| ==> !IsMark(x[k])
  {
    forall k | 0 <= k < |x| && IsMark(x[k]) ensures false {
      MarkAtIndex(x, k);
    }
  }

  /** The characters of d + x + d, for a delimiter d and a mark-free x. */
  lemma WrappedCharacters(textType: TextType, x: string)
    requires IsSymbolValid(textType) && MarkCount(x) == 0
    ensures var d := Delimiter(textType); var s := d + x + d;
      && OnlyMarkIs(s, d[0])
      && forall k :: |d| <= k < |d| + |x| ==> !IsMark(s[k])
  {
    LookupTables(textType);
    MarkFreeCharacters(x);
  }

  /** In d + x + d the two ends form the first pair of d. */
  lemma WrappedSpanFirstPair(textType: TextType, x: string)
    requires IsSymbolValid(textType) && MarkCount(x) == 0
    ensures var d := Delimiter(textType); IsFirstPair(d + x + d, d, 0, |d| + |x|)
  {
    var d := Delimiter(textType);
    var n, m := |d|, |x|;
    var s := d + x + d;
    OccursAtSelf(d);
    OccursInConcatLeft(d, x, d, 0);
    OccursInConcatLeft(d + x, d, d, 0);
    OccursInConcatRight(d + x, d, d, 0);
    MarkFreeCharacters(x);
    forall p | n <= p < n + m ensures !OccursAt(s, d, p) {
      assert s[p] == x[p - n];
    }
  }

  /** In d + x + d the delimiter d occurs exactly twice, at the two ends. */
  lemma WrappedSpanPair(textType: TextType, x: string)
    requires IsSymbolValid(textType) && MarkCount(x) == 0
    ensures var d := Delimiter(textType); var s := d + x + d;
      && IsFirstPair(s, d, 0, |d| + |x|)
      && Count(s, d) == 2
  {
    var d := Delimiter(textType);
    var n, m := |d|, |x|;
    var s := d + x + d;
    LookupTables(textType);
    WrappedSpanFirstPair(textType, x);
    FirstPairIsFound(s, d);
    assert CountFrom(s, d, n + m + n) == 0;
    assert CountFrom(s, d, n) == 1;
  }

  /** In d + x + d the kind of d is the foremost one. */
  lemma WrappedSpanForemost(textType: TextType, x: string)
    requires IsSymbolValid(textType) && MarkCount(x) == 0
    ensures Foremost(Delimiter(textType) + x + Delimiter(textType)) == Some(textType)
  {
    var d := Delimiter(textType);
    var s := d + x + d;
    WrappedCharacters(textType, x);
    LookupTables(textType);
    forall u | IsSymbolValid(u) && u != textType ensures !IsSymbolPresent(s, u) {
      OtherKindNotPresent(s, d[0], u);
    }
    WrappedSpanPair(textType, x);
    assert IsSymbolPresent(s, textType);
    ForemostIsEarliest(s);
  }

  /** With nothing before and after, the rewrite is just the element. */
  lemma EncloseWhole(x: string, tag: string)
    ensures Enclose([], x, [], tag) == OpenTag(tag) + x + CloseTag(tag)
  {
    var open, close := OpenTag(tag), CloseTag(tag);
    assert [] + open == open;
    assert open + x + close + [] == open + x + close;
  }

  /** parse_delimiter turns d + x + d into the kind's element around x. */
  lemma WrappedSpanRewrite(textType: TextType, x: string)
    requires IsSymbolValid(textType) && MarkCount(x) == 0
    ensures ParseDelimiter(Delimiter(textType) + x + Delimiter(textType), textType).value ==
            OpenTag(Tag(textType)) + x + CloseTag(Tag(textType))
  {
    var d, tag := Delimiter(textType), Tag(textType);
    var n, m := |d|, |x|;
    var s := d + x + d;
    assert Count(s, d) == 2 && IsFirstPair(s, d, 0, n + m) by {
      WrappedSpanPair(textType, x);
    }
    assert ParseDelimiter(s, textType) == Ok(SplitTextDelimiter(s, d, textType));
    assert SplitTextDelimiter(s, d, textType) == Enclose(s[..0], s[n..n + m], s[n + m + n..], tag) by {
      SplitTextDelimiterWrapsFirstPair(s, d, textType, 0, n + m);
    }
    assert s[..0] == [] && s[n..n + m] == x && s[n + m + n..] == [];
    EncloseWhole(x, tag);
  }

  /**
   * A span of one kind around a text without delimiter characters becomes
   * that kind's element: "**x**" gives "<b>x</b>", "_x_" gives "<i>x</i>".
   */
  lemma WrappedSpan(textType: TextType, x: string)
    requires IsSymbolValid(textType) && MarkCount(x) == 0
    ensures Converted(Delimiter(textType) + x + Delimiter(textType)) ==
            OpenTag(Tag(textType)) + x + CloseTag(Tag(textType))
  {
    var tag := Tag(textType);
    var out := OpenTag(tag) + x + CloseTag(tag);
    WrappedSpanForemost(textType, x);
    WrappedSpanRewrite(textType, x);
    LookupTables(textType);
    MarkCountConcat(OpenTag(tag), x);
    MarkCountConcat(OpenTag(tag) + x, CloseTag(tag));
    MarkFreeIsFixed(out);
  }

  /** A lone delimiter before a text without delimiter characters is left alone: "**x" stays "**x". */
  lemma LoneDelimiter(textType: TextType, x: string)
    requires IsSymbolValid(textType) && MarkCount(x) == 0
    ensures Converted(Delimiter(textType) + x) == Delimiter(textType) + x
  {
    var d := Delimiter(textType);
    var s := d + x;
    LookupTables(textType);
    MarkFreeCharacters(x);
    assert OnlyMarkIs(s, d[0]);
    forall u | IsSymbolValid(u) && u != textType ensures !IsSymbolPresent(s, u) {
      OtherKindNotPresent(s, d[0], u);
    }
    forall p | |d| <= p ensures !OccursAt(s, d, p) {
      if p + |d| <= |s| {
        assert s[p] == x[p - |d|];
      }
    }
    CountAtLeastTwo(s, d);
    ConvertedUnchangedIff(s);
  }

  /** The documented example "**bold text**". */
  lemma BoldExample(text: string)
    requires text == "**bold text**"
    ensures Converted(text) == "<b>" + "bold text" + "</b>"
  {
    var x := text[2..11];
    assert x == "bold text";
    assert MarkCount(x) == 0 by { NoMarkCharacters(x); }
    assert text == Delimiter(Bold) + x + Delimiter(Bold);
    assert OpenTag(Tag(Bold)) == "<b>" && CloseTag(Tag(Bold)) == "</b>";
    WrappedSpan(Bold, x);
  }

  /** The documented example "_italic_". */
  lemma ItalicExample(text: string)
    requires text == "_italic_"
    ensures Converted(text) == "<i>" + "italic" + "</i>"
  {
    var x := text[1..7];
    assert x == "italic";
    assert MarkCount(x) == 0 by { NoMarkCharacters(x); }
    assert text == Delimiter(Italic) + x + Delimiter(Italic);
    assert OpenTag(Tag(Italic)) == "<i>" && CloseTag(Tag(Italic)) == "</i>";
    WrappedSpan(Italic, x);
  }

  /** The documented example "**lonely": an unpaired delimiter passes through. */
  lemma LonelyExample(text: string)
    requires text == "**lonely"
    ensures Converted(text) == text
  {
    var x := text[2..];
    assert x == "lonely";
    NoMarkCharacters(x);
    LoneDelimiter(Bold, x);
    assert text == Delimiter(Bold) + x;
  }
}
