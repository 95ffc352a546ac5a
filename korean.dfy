/** `fetch_korean_text`: the Easy-to-Read Korean text scraped from the passage
    page. The request and the HTML parser are outside the model: the page is
    given as the four candidate containers the parser's searches returned, and a
    container as its `span.text` elements and its remaining text. */
module Korean {
  import opened Wrappers
  import opened Text

  /** One `span.text`: the text of its `sup.versenum` when it has one, and
      `span.get_text(strip=True)` once that verse number has been removed. */
  datatype Span = Span(verseNum: Option<string>, text: string)

  /** A passage container: its `span.text` elements in document order, and
      `get_text(separator=' ', strip=True)` of what is left of it after the verse
      numbers, headings and publisher notes have been removed. */
  datatype Container = Container(spans: seq<Span>, remainingText: string)

  /** What the request came back with. `Raised` is an exception with its message;
      otherwise the status and the results of the four container searches, in the
      order the script tries them. */
  datatype Page =
    | Raised(message: string)
    | Page(status: nat, passageCol: Option<Container>, passageContent: Option<Container>,
           passages: Option<Container>, anyPassage: Option<Container>)

  const NoContainerError := "Error: No passage container found"
  const ExtractError := "Error: Could not extract passage text"
  /** The fallback text is accepted only when it is longer than this. */
  const FallbackMinLength := 100
  /** An unnumbered span contributes only when its cleaned text is longer than this. */
  const UnnumberedMinLength := 3

  predicate IsErrorText(s: string)
  {
    |s| >= 7 && s[..7] == "Error: "
  }

  function Candidates(page: Page): seq<Option<Container>>
    requires page.Page?
  {
    [page.passageCol, page.passageContent, page.passages, page.anyPassage]
  }

  /** The first candidate that was found. */
  function FirstPresent<T>(candidates: seq<Option<T>>): (r: Option<T>)
    ensures r.None? <==> forall i | 0 <= i < |candidates| :: candidates[i].None?
    ensures r.Some? ==>
      exists i | 0 <= i < |candidates| ::
        candidates[i] == r && forall j | 0 <= j < i :: candidates[j].None?
  {
    if candidates == [] then None
    else if candidates[0].Some? then candidates[0]
    else
      var r := FirstPresent(candidates[1..]);
      assert r.Some? ==> exists i | 1 <= i < |candidates| ::
        candidates[i] == r && forall j | 0 <= j < i :: candidates[j].None? by {
        if r.Some? {
          var k :| 0 <= k < |candidates[1..]| && candidates[1..][k] == r
            && forall j | 0 <= j < k :: candidates[1..][j].None?;
          forall j | 0 <= j < k + 1 ensures candidates[j].None? {
            if j > 0 { assert candidates[j] == candidates[1..][j - 1]; }
          }
        }
      }
      r
  }

  /** The loop over the candidates that stops at the first one found. */
  method SelectContainer<T>(candidates: seq<Option<T>>) returns (chosen: Option<T>)
    ensures chosen == FirstPresent(candidates)
  {
    chosen := None;
    var i := 0;
    while i < |candidates|
      invariant 0 <= i <= |candidates|
      invariant chosen.None? ==> FirstPresent(candidates[i..]) == FirstPresent(candidates)
      invariant chosen.Some? ==> chosen == FirstPresent(candidates)
      invariant chosen.Some? ==> i == |candidates|
    {
      assert candidates[i..][1..] == candidates[i + 1..];
      if candidates[i].Some? {
        chosen := candidates[i];
        break;
      }
      i := i + 1;
    }
    assert chosen.None? ==> candidates[i..] == [];
  }

  /** The segment one span contributes, if any: a numbered span gives
      `**num** text` when its cleaned text is non-empty, an unnumbered one its
      cleaned text when that is longer than three characters. */
  function Segment(span: Span): Option<string>
  {
    var cleaned := StripFootnotes(span.text);
    match span.verseNum
    case Some(num) => if cleaned != "" then Some("**" + num + "** " + cleaned) else None
    case None => if |cleaned| > UnnumberedMinLength then Some(cleaned) else None
  }

  function SegmentList(span: Span): seq<string>
  {
    match Segment(span)
    case Some(segment) => [segment]
    case None => []
  }

  /** The `verses_data` list the loop builds, in document order. */
  function Segments(spans: seq<Span>): (r: seq<string>)
    ensures |r| <= |spans|
  {
    if spans == [] then [] else SegmentList(spans[0]) + Segments(spans[1..])
  }

  /** `verses_data` is built span by span: the segments of a concatenation are the
      concatenation of the segments, so document order is kept. */
  lemma {:induction false} SegmentsAppend(first: seq<Span>, later: seq<Span>)
    ensures Segments(first + later) == Segments(first) + Segments(later)
    decreases |first|
  {
    if first == [] {
      assert first + later == later;
    } else {
      assert (first + later)[1..] == first[1..] + later;
      SegmentsAppend(first[1..], later);
    }
  }

  /** What one span contributes, both directions: a numbered span contributes
      exactly when its cleaned text is non-empty, an unnumbered one exactly when
      its cleaned text is longer than three characters. */
  lemma SpanContribution(span: Span)
    ensures span.verseNum.Some? ==>
      (Segments([span]) != [] <==> StripFootnotes(span.text) != "")
    ensures span.verseNum.Some? && StripFootnotes(span.text) != "" ==>
      Segments([span]) == ["**" + span.verseNum.value + "** " + StripFootnotes(span.text)]
    ensures span.verseNum.None? ==>
      (Segments([span]) != [] <==> |StripFootnotes(span.text)| > 3)
    ensures span.verseNum.None? && |StripFootnotes(span.text)| > 3 ==>
      Segments([span]) == [StripFootnotes(span.text)]
  {
    assert [span][1..] == [];
  }

  /** Every segment has text in it. */
  lemma {:induction false} SegmentsNonEmpty(spans: seq<Span>)
    ensures forall k | 0 <= k < |Segments(spans)| :: Segments(spans)[k] != ""
    decreases |spans|
  {
    if spans != [] {
      SegmentsNonEmpty(spans[1..]);
    }
  }

  /** The loop over the `span.text` elements that appends to `verses_data`. */
  method ExtractSegments(spans: seq<Span>) returns (segments: seq<string>)
    ensures segments == Segments(spans)
  {
    segments := [];
    for i := 0 to |spans|
      invariant segments == Segments(spans[..i])
    {
      var span := spans[i];
      var text := StripFootnotes(span.text);
      match span.verseNum {
        case Some(num) =>
          if text != "" {
            segments := segments + ["**" + num + "** " + text];
          }
        case None =>
          if |text| > UnnumberedMinLength {
            segments := segments + [text];
          }
      }
      assert spans[..i + 1] == spans[..i] + [span];
      SegmentsAppend(spans[..i], [span]);
      assert [span][1..] == [];
    }
    assert spans[..|spans|] == spans;
  }

  /** The last strategy: the container's whole text, whitespace collapsed and
      footnote markers removed, accepted only when longer than 100 characters. */
  function FallbackText(remainingText: string): string
  {
    var text := StripFootnotes(CollapseWhitespace(remainingText));
    if |text| > FallbackMinLength then text else ExtractError
  }

  /** The text `fetch_korean_text` returns. */
  function KoreanText(page: Page): string
  {
    match page
    case Raised(message) => "Error: " + message
    case Page(status, _, _, _, _) =>
      if status != 200 then "Error: HTTP " + Decimal(status)
      else match FirstPresent(Candidates(page))
        case None => NoContainerError
        case Some(container) =>
          var segments := Segments(container.spans);
          if segments != [] then Join(segments, " ") else FallbackText(container.remainingText)
  }

  /** `fetch_korean_text` with its early returns. */
  method FetchKoreanText(page: Page) returns (text: string)
    ensures text == KoreanText(page)
  {
    if page.Raised? {
      return "Error: " + page.message;
    }
    if page.status != 200 {
      return "Error: HTTP " + Decimal(page.status);
    }
    var container := SelectContainer(Candidates(page));
    if container.None? {
      return NoContainerError;
    }
    var segments := ExtractSegments(container.value.spans);
    if segments != [] {
      return Join(segments, " ");
    }
    var fallback := StripFootnotes(CollapseWhitespace(container.value.remainingText));
    if |fallback| > FallbackMinLength {
      return fallback;
    }
    return ExtractError;
  }

  // ---------------------------------------------------------------------------
  // Properties of the extraction

  /** The scraper never hands back an empty text. */
  lemma KoreanTextNonEmpty(page: Page)
    ensures KoreanText(page) != ""
  {
    if page.Page? && page.status == 200 && FirstPresent(Candidates(page)).Some? {
      var container := FirstPresent(Candidates(page)).value;
      var segments := Segments(container.spans);
      if segments != [] {
        SegmentsNonEmpty(container.spans);
        assert segments[0] != "";
        JoinNonEmpty(segments, " ");
      }
    }
  }

  /** A request that raised, a status other than 200, and a page without any of
      the four containers each give an `Error: ` text; the last exactly
      "Error: No passage container found". */
  lemma KoreanErrors(page: Page)
    ensures page.Raised? ==> IsErrorText(KoreanText(page))
    ensures page.Page? && page.status != 200 ==>
      IsErrorText(KoreanText(page)) && KoreanText(page) == "Error: HTTP " + Decimal(page.status)
    ensures page.Page? && page.status == 200
            && page.passageCol.None? && page.passageContent.None?
            && page.passages.None? && page.anyPassage.None?
            ==> KoreanText(page) == NoContainerError
  {
    if page.Page? && page.status == 200 {
      var c := Candidates(page);
      assert c[0] == page.passageCol && c[1] == page.passageContent;
      assert c[2] == page.passages && c[3] == page.anyPassage;
    }
  }

  /** Earlier candidates take priority: a `passage-col` container that was found
      is the one used, whatever the other searches returned. */
  lemma PassageColFirst(page: Page, other: Page)
    requires page.Page? && other.Page? && page.status == other.status
    requires page.passageCol.Some? && other.passageCol == page.passageCol
    ensures KoreanText(page) == KoreanText(other)
  {
  }

  /** Non-empty segments are returned before the fallback runs: whichever of
      the four candidates was chosen, the text is its segments joined by single
      spaces, and two pages whose chosen containers have the same spans give the
      same text whatever their remaining texts. */
  lemma SegmentsBeforeFallback(page: Page, other: Page)
    requires page.Page? && page.status == 200 && FirstPresent(Candidates(page)).Some?
    requires Segments(FirstPresent(Candidates(page)).value.spans) != []
    requires other.Page? && other.status == 200 && FirstPresent(Candidates(other)).Some?
    requires FirstPresent(Candidates(other)).value.spans == FirstPresent(Candidates(page)).value.spans
    ensures KoreanText(page) == Join(Segments(FirstPresent(Candidates(page)).value.spans), " ")
    ensures KoreanText(other) == KoreanText(page)
  {
  }

  /** The fallback accepts the cleaned text exactly when it is longer than 100
      characters; what it accepts is obtained from the collapsed container text
      by deleting characters only, and otherwise it gives exactly
      "Error: Could not extract passage text". */
  lemma FallbackOutcome(remainingText: string)
    ensures FallbackText(remainingText) != ExtractError
            <==> |StripFootnotes(CollapseWhitespace(remainingText))| > FallbackMinLength
    ensures FallbackText(remainingText) == ExtractError
            || (|FallbackText(remainingText)| > FallbackMinLength
                && IsSubsequence(FallbackText(remainingText), CollapseWhitespace(remainingText)))
    ensures FallbackText(remainingText) != ExtractError ==>
      FallbackText(remainingText) == OutsideMarkers(CollapseWhitespace(remainingText), 0)
  {
    StripFootnotesSubsequence(CollapseWhitespace(remainingText));
    StripFootnotesExact(CollapseWhitespace(remainingText));
  }

  /** Collapsing the container text beforehand does not change the fallback. */
  lemma FallbackAfterCollapse(remainingText: string)
    ensures FallbackText(CollapseWhitespace(remainingText)) == FallbackText(remainingText)
  {
    CollapseIdempotent(remainingText);
  }

  /** The fallback does not depend on how the page laid out its whitespace: a
      whitespace run may be replaced by any other non-empty whitespace run. */
  lemma FallbackIgnoresLayout(a: string, w1: string, w2: string, b: string)
    requires w1 != [] && IsBlank(w1) && w2 != [] && IsBlank(w2)
    requires a == [] || !IsSpace(a[|a| - 1])
    requires b == [] || !IsSpace(b[0])
    ensures FallbackText(a + w1 + b) == FallbackText(a + w2 + b)
  {
    CollapseRun(a, w1, b);
    CollapseRun(a, w2, b);
  }

  /** The collapse alone leaves no two whitespace characters in a row; removing a
      footnote marker afterwards can bring two spaces together again. */
  lemma FallbackMayJoinSpaces(s: string)
    requires s == "a [b] c"
    ensures CollapseWhitespace(s) == s
    ensures StripFootnotes(CollapseWhitespace(s)) == "a  c"
  {
    assert Collapsed(s) by {
      assert !IsSpace('a') && !IsSpace('[') && !IsSpace('b') && !IsSpace(']') && !IsSpace('c');
    }
    CollapseFixesCollapsed(s);
    StripFootnotesJoinsNeighbours(s);
  }
}
