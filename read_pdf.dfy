/**
 * The PDF reader tool: fetch the document, append each page's extracted
 * text and a newline to an accumulator, and return the stripped result.
 *
 * Fetching and parsing the document (the HTTP request, the byte buffer and
 * the PDF reader) are one input function from the URL to either the
 * exception they raise or the per-page extraction outcomes, each of which
 * is the page's text or the exception its extraction raises.
 */
module PdfText {
  import opened Wrappers
  import opened PyStr

  /** A page's extract_text(): its text, or the message of the exception it raised. */
  type PageOutcome = Result<string, string>

  /** What fetching and opening the document gives: its pages, or the exception raised on the way. */
  type Document = Result<seq<PageOutcome>, string>

  /** The accumulator after `texts += page + "\\n"` for each text in turn. */
  function Accumulated(texts: seq<string>): (acc: string)
    ensures |acc| >= |texts|
    ensures |texts| > 0 ==> acc[|acc| - 1] == '\n'
    decreases |texts|
  {
    if |texts| == 0 then ""
    else Accumulated(texts[..|texts| - 1]) + texts[|texts| - 1] + "\n"
  }

  /** The summed lengths of the page texts. */
  function TotalLength(texts: seq<string>): nat
    decreases |texts|
  {
    if |texts| == 0 then 0
    else TotalLength(texts[..|texts| - 1]) + |texts[|texts| - 1]|
  }

  /** Each page adds its own text plus one newline. */
  lemma {:induction false} AccumulatedLength(texts: seq<string>)
    ensures |Accumulated(texts)| == TotalLength(texts) + |texts|
    decreases |texts|
  {
    if |texts| > 0 {
      AccumulatedLength(texts[..|texts| - 1]);
    }
  }

  /** Read from the front: the first page's text and newline, then the rest. */
  lemma {:induction false} AccumulatedCons(x: string, rest: seq<string>)
    ensures Accumulated([x] + rest) == x + "\n" + Accumulated(rest)
    decreases |rest|
  {
    if |rest| > 0 {
      var init := rest[..|rest| - 1];
      assert ([x] + rest)[..|rest|] == [x] + init;
      AccumulatedCons(x, init);
    }
  }

  /** The accumulator is the pages joined by newlines, with one final newline. */
  lemma {:induction false} AccumulatedIsJoin(texts: seq<string>)
    requires |texts| > 0
    ensures Accumulated(texts) == Join(texts, "\n") + "\n"
    decreases |texts|
  {
    if |texts| == 1 {
      assert texts[..0] == [];
    } else {
      AccumulatedIsJoin(texts[1..]);
      AccumulatedCons(texts[0], texts[1..]);
      assert texts == [texts[0]] + texts[1..];
    }
  }

  /**
   * The page texts, or the first extraction failure in page order: no
   * text is kept once a page fails.
   */
  function Extracted(pages: seq<PageOutcome>): (r: Result<seq<string>, string>)
    ensures r.Ok? <==> forall k :: 0 <= k < |pages| ==> pages[k].Ok?
    decreases |pages|
  {
    if |pages| == 0 then Ok([])
    else
      var init := pages[..|pages| - 1];
      var last := pages[|pages| - 1];
      match Extracted(init)
      case Err(e) => Err(e)
      case Ok(texts) =>
        match last
        case Err(e) => Err(e)
        case Ok(t) => Ok(texts + [t])
  }

  /** With no failure, the texts are the pages' texts, one per page, in page order. */
  lemma {:induction false} ExtractedTexts(pages: seq<PageOutcome>)
    requires Extracted(pages).Ok?
    ensures |Extracted(pages).value| == |pages|
    ensures forall k :: 0 <= k < |pages| ==> Extracted(pages).value[k] == pages[k].value
    decreases |pages|
  {
    if |pages| > 0 {
      ExtractedTexts(pages[..|pages| - 1]);
    }
  }

  /** A failure reports the exception of the first page that failed. */
  lemma {:induction false} ExtractedFirstFailure(pages: seq<PageOutcome>)
    requires Extracted(pages).Err?
    ensures exists k :: 0 <= k < |pages| && pages[k] == Err(Extracted(pages).error)
                        && forall j :: 0 <= j < k ==> pages[j].Ok?
    decreases |pages|
  {
    var init, last := pages[..|pages| - 1], pages[|pages| - 1];
    if Extracted(init).Err? {
      assert Extracted(pages) == Extracted(init);
      ExtractedFirstFailure(init);
      var k :| 0 <= k < |init| && init[k] == Err(Extracted(init).error)
               && forall j :: 0 <= j < k ==> init[j].Ok?;
      assert pages[k] == init[k];
      assert forall j :: 0 <= j < k ==> pages[j] == init[j];
    } else {
      assert last.Err? && Extracted(pages) == Err(last.error);
      var k := |pages| - 1;
      assert forall j :: 0 <= j < k ==> pages[j] == init[j] && init[j].Ok?;
      assert pages[k] == Err(Extracted(pages).error);
    }
  }

  /** Once some page has failed, the pages after it change nothing. */
  lemma {:induction false} FailureSticks(pages: seq<PageOutcome>, i: nat)
    requires i <= |pages|
    requires Extracted(pages[..i]).Err?
    ensures Extracted(pages) == Extracted(pages[..i])
    decreases |pages| - i
  {
    if i < |pages| {
      assert pages[..i + 1][..i] == pages[..i];
      FailureSticks(pages, i + 1);
    } else {
      assert pages[..i] == pages;
    }
  }

  /**
   * read_pdf(url): the stripped accumulator when every step succeeds; the
   * first exception otherwise, with no partial text.
   */
  function ReadOutcome(doc: Document): (r: Result<string, string>)
    ensures r.Ok? ==> NoEdgeSpace(r.value)
    ensures doc == Ok([]) ==> r == Ok("")
    ensures r.Ok? <==> doc.Ok? && forall k :: 0 <= k < |doc.value| ==> doc.value[k].Ok?
    ensures doc.Err? ==> r == Err(doc.error)
  {
    match doc
    case Err(e) => Err(e)
    case Ok(pages) =>
      match Extracted(pages)
      case Err(e) => Err(e)
      case Ok(texts) => Ok(Strip(Accumulated(texts)))
  }

  /** A join of non-empty page texts that neither start nor end with whitespace has no whitespace at its ends. */
  lemma JoinNoEdgeSpace(texts: seq<string>)
    requires |texts| > 0
    requires forall k :: 0 <= k < |texts| ==> texts[k] != "" && NoSpace(texts[k])
    ensures NoEdgeSpace(Join(texts, "\n"))
  {
    JoinEdges(texts, "\n");
    var first, final := texts[0], texts[|texts| - 1];
    assert !IsSpace(first[0]) && !IsSpace(final[|final| - 1]);
  }

  /**
   * When every page's text is non-empty and free of whitespace, the result
   * is the page texts joined by single newlines.
   */
  lemma SpaceFreePagesJoin(pages: seq<PageOutcome>)
    requires forall k :: 0 <= k < |pages| ==> pages[k].Ok? && pages[k].value != "" && NoSpace(pages[k].value)
    ensures ReadOutcome(Ok(pages)) == Ok(Join(Extracted(pages).value, "\n"))
  {
    var texts := Extracted(pages).value;
    ExtractedTexts(pages);
    if |texts| > 0 {
      AccumulatedIsJoin(texts);
      var j := Join(texts, "\n");
      JoinNoEdgeSpace(texts);
      assert AllSpace("\n");
      StripUnique("", j, "\n");
      assert "" + j + "\n" == Accumulated(texts);
    }
  }

  /**
   * The tool itself: the page loop with its accumulator, then the strip.
   * An exception at any step is re-raised.
   */
  method ReadPdf(url: string, fetch: string -> Document) returns (r: Result<string, string>)
    ensures r == ReadOutcome(fetch(url))
  {
    var doc := fetch(url);
    if doc.Err? {
      return Err(doc.error);
    }
    var pages := doc.value;
    var texts := "";
    ghost var done: seq<string> := [];
    for i := 0 to |pages|
      invariant Extracted(pages[..i]) == Ok(done)
      invariant texts == Accumulated(done)
    {
      assert pages[..i + 1][..i] == pages[..i];
      if pages[i].Err? {
        FailureSticks(pages, i + 1);
        return Err(pages[i].error);
      }
      texts := texts + pages[i].value + "\n";
      done := done + [pages[i].value];
    }
    assert pages[..|pages|] == pages;
    r := Ok(Strip(texts));
  }
}
