/**
 * The arXiv search tool: normalising the topic into a query, rejecting
 * forbidden characters before any request, building the request URL,
 * checking the HTTP response, turning the Atom feed into paper records,
 * and the agent-facing tool that wraps the search.
 *
 * The HTTP GET and the XML parser are foreign: they are parameters
 * (`fetch` and `fromString`), and the parsed document is an ElementTree-like
 * element tree.
 */
module ArxivTool {
  import opened Wrappers
  import opened PyStr

  /** The Python exceptions raised on the way, with their messages. */
  datatype PyError =
    | ValueError(message: string)
    | ParseError
    | AttributeError(message: string)

  /** An HTTP response as `requests` reports it. */
  datatype Response = Response(ok: bool, statusCode: int, text: string)

  /**
   * An XML element as ElementTree represents it: the tag in Clark notation
   * ("{namespace}local"), the attributes, the text (None when absent) and
   * the child elements in document order.
   */
  datatype Element = Element(tag: string, attrib: map<string, string>, text: Option<string>, children: seq<Element>)

  /** The dictionary built for one Atom entry. */
  datatype Paper = Paper(
    title: Option<string>,
    summary: string,
    authors: seq<Option<string>>,
    categories: seq<Option<string>>,
    pdfLink: Option<string>)

  /** The dictionary {"entries": [...]} returned by the parser and the search. */
  type Papers = map<string, seq<Paper>>

  const AtomNs := "http://www.w3.org/2005/Atom"

  /** The Clark-notation tag that the prefixed name "atom:<local>" resolves to. */
  function Atom(local: string): string {
    "{" + AtomNs + "}" + local
  }

  /** Python's dict.get(key). */
  function Get(m: map<string, string>, key: string): Option<string> {
    if key in m then Some(m[key]) else None
  }

  // ---------------------------------------------------------------------
  // Query normalisation and the forbidden-character check
  // ---------------------------------------------------------------------

  /**
   * "+".join(topic.lower().split()): the lowercased topic's
   * whitespace-separated words joined by '+'.  The result never holds
   * whitespace, and a one-word topic is simply lowercased.
   */
  function NormaliseQuery(topic: string): (query: string)
    ensures NoSpace(query)
    ensures topic != "" && NoSpace(topic) ==> query == Lower(topic)
  {
    var words := Split(Lower(topic));
    JoinNoSpace(words, "+");
    if topic != "" && NoSpace(topic) then
      SplitSingleWord(Lower(topic));
      Join(words, "+")
    else
      Join(words, "+")
  }

  /** The characters the check loop tests, in the order it tests them. */
  const Forbidden: seq<char> := ['(', ')', '"', ' ']

  /**
   * The first of the candidates, in the candidates' own order, that occurs
   * in s; None when none occurs.
   */
  function FirstIn(candidates: seq<char>, s: string): (r: Option<char>)
    ensures r.None? <==> forall k :: 0 <= k < |candidates| ==> candidates[k] !in s
    ensures forall k :: 0 <= k < |candidates| && candidates[k] in s
                        && (forall j :: 0 <= j < k ==> candidates[j] !in s)
                        ==> r == Some(candidates[k])
    decreases |candidates|
  {
    if |candidates| == 0 then None
    else if candidates[0] in s then Some(candidates[0])
    else FirstIn(candidates[1..], s)
  }

  /**
   * The loop over '()" ' that raises on the first forbidden character it
   * meets.  It reports the first character in the fixed order ( ) " space,
   * not the first one in the query.
   */
  method CheckQuery(query: string) returns (bad: Option<char>)
    ensures bad == FirstIn(Forbidden, query)
  {
    for i := 0 to |Forbidden|
      invariant forall j :: 0 <= j < i ==> Forbidden[j] !in query
    {
      if Forbidden[i] in query {
        return Some(Forbidden[i]);
      }
    }
    return None;
  }

  /** The check can never report a space on a normalised query: that branch of the loop is dead. */
  lemma NormalisedQueryPassesSpaceCheck(topic: string)
    ensures FirstIn(Forbidden, NormaliseQuery(topic)) != Some(' ')
  {
    var query := NormaliseQuery(topic);
    assert ' ' !in query by {
      forall i | 0 <= i < |query| ensures query[i] != ' ' {
        assert !IsSpace(query[i]);
      }
    }
  }

  function InvalidCharMessage(c: char, query: string): string {
    "Invalid character '" + [c] + "' in query: " + query
  }

  // ---------------------------------------------------------------------
  // The request URL
  // ---------------------------------------------------------------------

  const Endpoint := "https://export.arxiv.org/api/query?"
  const QueryKey := "search_query=all:"
  const MaxKey := "&max_results="
  const SortBy := "&sortBy=submittedDate"
  const SortOrder := "&sortOrder=descending"

  /** The URL of the search request. */
  function QueryUrl(query: string, maxResults: int): string {
    (Endpoint + QueryKey) + (query + MaxKey + IntToStr(maxResults)) + (SortBy + SortOrder)
  }

  /**
   * Reads a search URL back into its query and result limit: the fixed
   * prefix and suffix, and the limit after the last '&' of the middle part.
   */
  function ParseQueryUrl(url: string): Option<(string, int)> {
    var head := Endpoint + QueryKey;
    var tail := SortBy + SortOrder;
    if |url| < |head| + |tail| || url[..|head|] != head || url[|url| - |tail|..] != tail then None
    else ParseLimit(url[|head|..|url| - |tail|])
  }

  /** Splits `<query>&max_results=<n>` at its last '&'. */
  function ParseLimit(mid: string): Option<(string, int)> {
    match LastIndexOf(mid, '&')
    case None => None
    case Some(k) =>
      if StartsWith(mid[k..], MaxKey) then
        match ParseInt(mid[k + |MaxKey|..])
        case Some(n) => Some((mid[..k], n))
        case None => None
      else None
  }

  lemma IntToStrHasNoAmpersand(i: int)
    ensures '&' !in IntToStr(i)
  {
    var d := NatToStr(if i < 0 then -i else i);
    assert forall j :: 0 <= j < |d| ==> d[j] != '&';
    if i < 0 {
      assert IntToStr(i) == "-" + d;
      assert forall j :: 0 <= j < |"-" + d| ==> ("-" + d)[j] != '&' by {
        forall j | 0 <= j < |"-" + d| ensures ("-" + d)[j] != '&' {
          if j > 0 { assert ("-" + d)[j] == d[j - 1]; }
        }
      }
    }
  }

  /** The part of the URL after the query: '&', then no further '&'. */
  lemma LimitPartHasOneAmpersand(query: string, maxResults: int)
    ensures var mid := query + MaxKey + IntToStr(maxResults);
      && mid[|query|] == '&'
      && forall j :: |query| < j < |mid| ==> mid[j] != '&'
  {
    var digits := IntToStr(maxResults);
    var mid := query + MaxKey + digits;
    var after := MaxKey[1..] + digits;
    IntToStrHasNoAmpersand(maxResults);
    assert '&' !in MaxKey[1..];
    assert '&' !in after;
    assert mid[|query| + 1..] == after;
    forall j | |query| < j < |mid| ensures mid[j] != '&' {
      assert mid[j] == after[j - |query| - 1];
    }
  }

  /** The limit part reads back into the query and the limit, whatever the query holds. */
  lemma ParseLimitRoundTrip(query: string, maxResults: int)
    ensures ParseLimit(query + MaxKey + IntToStr(maxResults)) == Some((query, maxResults))
  {
    var digits := IntToStr(maxResults);
    var mid := query + MaxKey + digits;
    LimitPartHasOneAmpersand(query, maxResults);
    LastIndexOfIs(mid, '&', |query|);
    CutThree(query, MaxKey, digits);
    assert mid[|query|..][..|MaxKey|] == MaxKey;
    assert mid[|query| + |MaxKey|..] == digits;
    IntToStrRoundTrip(maxResults);
  }

  /**
   * The URL holds the query and the limit in the order the source writes
   * them: reading it back gives them again, whatever the query holds.
   */
  lemma QueryUrlRoundTrip(query: string, maxResults: int)
    ensures ParseQueryUrl(QueryUrl(query, maxResults)) == Some((query, maxResults))
  {
    var head := Endpoint + QueryKey;
    var tail := SortBy + SortOrder;
    var mid := query + MaxKey + IntToStr(maxResults);
    var url := QueryUrl(query, maxResults);
    assert url == head + mid + tail;
    CutThree(head, mid, tail);
    assert |url| >= |head| + |tail|;
    assert url[..|head|] == head && url[|url| - |tail|..] == tail;
    assert url[|head|..|url| - |tail|] == mid;
    assert ParseQueryUrl(url) == ParseLimit(mid);
    ParseLimitRoundTrip(query, maxResults);
  }

  function BadResponseMessage(resp: Response): string {
    "Bad response from arXiv API: " + IntToStr(resp.statusCode) + "\n" + resp.text
  }

  // ---------------------------------------------------------------------
  // Extracting the entries of the Atom feed
  // ---------------------------------------------------------------------

  /** The elements of els whose tag is tag, in order. */
  function Matching(els: seq<Element>, tag: string): (found: seq<Element>)
    ensures |found| <= |els|
    ensures forall k :: 0 <= k < |found| ==> found[k].tag == tag && found[k] in els
    ensures forall k :: 0 <= k < |els| && els[k].tag == tag ==> els[k] in found
    ensures (forall k :: 0 <= k < |els| ==> els[k].tag != tag) ==> found == []
    decreases |els|
  {
    if |els| == 0 then []
    else (if els[0].tag == tag then [els[0]] else []) + Matching(els[1..], tag)
  }

  /** Filtering keeps document order: it distributes over concatenation. */
  lemma {:induction false} MatchingAppend(a: seq<Element>, b: seq<Element>, tag: string)
    ensures Matching(a + b, tag) == Matching(a, tag) + Matching(b, tag)
    decreases |a|
  {
    if |a| > 0 {
      var head := if a[0].tag == tag then [a[0]] else [];
      assert (a + b)[0] == a[0];
      assert (a + b)[1..] == a[1..] + b;
      assert Matching(a + b, tag) == head + Matching(a[1..] + b, tag);
      MatchingAppend(a[1..], b, tag);
      assert head + (Matching(a[1..], tag) + Matching(b, tag)) == (head + Matching(a[1..], tag)) + Matching(b, tag);
    } else {
      assert a + b == b;
    }
  }

  /** ElementTree's e.findall(tag) for a single prefixed tag: the matching direct children. */
  function FindAll(e: Element, tag: string): seq<Element> {
    Matching(e.children, tag)
  }

  /**
   * ElementTree's e.findtext(tag): None when no direct child has the tag,
   * otherwise the first such child's text, "" when it has none.
   */
  function FindText(e: Element, tag: string): (r: Option<string>)
    ensures r.None? <==> forall k :: 0 <= k < |e.children| ==> e.children[k].tag != tag
  {
    var found := FindAll(e, tag);
    if |found| == 0 then None
    else match found[0].text
      case Some(t) => Some(t)
      case None => Some("")
  }

  /** The first child with the tag heads the filtered list. */
  lemma {:induction false} MatchingFirst(els: seq<Element>, tag: string, k: nat)
    requires k < |els| && els[k].tag == tag
    requires forall j :: 0 <= j < k ==> els[j].tag != tag
    ensures Matching(els, tag) != [] && Matching(els, tag)[0] == els[k]
    decreases k
  {
    if k > 0 {
      MatchingFirst(els[1..], tag, k - 1);
    }
  }

  /**
   * `findtext` reads the first child with the tag: its text, or "" when
   * it has none.
   */
  lemma FindTextIsFirst(e: Element, tag: string, k: nat)
    requires k < |e.children| && e.children[k].tag == tag
    requires forall j :: 0 <= j < k ==> e.children[j].tag != tag
    ensures FindText(e, tag) == Some(if e.children[k].text.Some? then e.children[k].text.value else "")
  {
    MatchingFirst(e.children, tag, k);
  }

  predicate IsPdfLink(link: Element) {
    Get(link.attrib, "type") == Some("application/pdf")
  }

  /**
   * href is the "href" attribute of the first link whose type is
   * application/pdf (possibly absent), and None when no link has that type.
   */
  predicate IsFirstPdfHref(links: seq<Element>, href: Option<string>) {
    && ((forall k :: 0 <= k < |links| ==> !IsPdfLink(links[k])) ==> href == None)
    && (forall k :: 0 <= k < |links| && IsPdfLink(links[k])
                    && (forall j :: 0 <= j < k ==> !IsPdfLink(links[j]))
                    ==> href == Get(links[k].attrib, "href"))
  }

  /** The for/break loop that picks the PDF link of an entry. */
  method FirstPdfLink(links: seq<Element>) returns (href: Option<string>)
    ensures IsFirstPdfHref(links, href)
  {
    href := None;
    for i := 0 to |links|
      invariant href == None
      invariant forall j :: 0 <= j < i ==> !IsPdfLink(links[j])
    {
      if Get(links[i].attrib, "type") == Some("application/pdf") {
        href := Get(links[i].attrib, "href");
        break;
      }
    }
  }

  /** p is the record the parser builds for entry. */
  ghost predicate PaperOf(entry: Element, p: Paper) {
    var authors := FindAll(entry, Atom("author"));
    var categories := FindAll(entry, Atom("category"));
    var summary := FindText(entry, Atom("summary"));
    && p.title == FindText(entry, Atom("title"))
    && summary.Some? && p.summary == Strip(summary.value)
    && |p.authors| == |authors|
    && (forall k :: 0 <= k < |authors| ==> p.authors[k] == FindText(authors[k], Atom("name")))
    && |p.categories| == |categories|
    && (forall k :: 0 <= k < |categories| ==> p.categories[k] == Get(categories[k].attrib, "term"))
    && IsFirstPdfHref(FindAll(entry, Atom("link")), p.pdfLink)
  }

  const NoStripMessage := "'NoneType' object has no attribute 'strip'"

  /**
   * The body of the parser's loop for one entry: None where
   * `findtext("atom:summary").strip()` raises because the entry has no
   * summary.
   */
  method ParseEntry(entry: Element) returns (p: Option<Paper>)
    ensures p.None? <==> FindText(entry, Atom("summary")).None?
    ensures p.Some? ==> PaperOf(entry, p.value)
  {
    var authorElems := FindAll(entry, Atom("author"));
    var authors := seq(|authorElems|, k requires 0 <= k < |authorElems| => FindText(authorElems[k], Atom("name")));
    var categoryElems := FindAll(entry, Atom("category"));
    var categories := seq(|categoryElems|, k requires 0 <= k < |categoryElems| => Get(categoryElems[k].attrib, "term"));
    var pdfLink := FirstPdfLink(FindAll(entry, Atom("link")));
    var title := FindText(entry, Atom("title"));
    var summary := FindText(entry, Atom("summary"));
    if summary.None? {
      return None;
    }
    return Some(Paper(title, Strip(summary.value), authors, categories, pdfLink));
  }

  /**
   * What parse_arxiv_xml gives for a parsed document: one record per
   * atom:entry child, in document order, under the single key "entries";
   * or the AttributeError of calling strip() on the missing summary of an
   * entry that has none.
   */
  ghost predicate ParsedFeed(root: Element, r: Result<Papers, PyError>) {
    var entries := FindAll(root, Atom("entry"));
    if forall k :: 0 <= k < |entries| ==> FindText(entries[k], Atom("summary")).Some? then
      && r.Ok?
      && r.value.Keys == {"entries"}
      && |r.value["entries"]| == |entries|
      && forall k :: 0 <= k < |entries| ==> PaperOf(entries[k], r.value["entries"][k])
    else
      r == Err(AttributeError(NoStripMessage))
  }

  lemma PapersExtend(found: seq<Element>, entries: seq<Paper>, p: Paper)
    requires |entries| < |found|
    requires forall k :: 0 <= k < |entries| ==> PaperOf(found[k], entries[k])
    requires PaperOf(found[|entries|], p)
    ensures forall k :: 0 <= k < |entries| + 1 ==> PaperOf(found[k], (entries + [p])[k])
  {
    forall k | 0 <= k < |entries| + 1 ensures PaperOf(found[k], (entries + [p])[k]) {
      if k < |entries| {
        assert (entries + [p])[k] == entries[k];
      } else {
        assert (entries + [p])[k] == p;
      }
    }
  }

  /** parse_arxiv_xml over the element tree that ET.fromstring produced. */
  method ParseArxivXml(root: Element) returns (r: Result<Papers, PyError>)
    ensures ParsedFeed(root, r)
  {
    var found := FindAll(root, Atom("entry"));
    var entries: seq<Paper> := [];
    for i := 0 to |found|
      invariant |entries| == i
      invariant forall k :: 0 <= k < i ==> PaperOf(found[k], entries[k])
    {
      var paper := ParseEntry(found[i]);
      if paper.None? {
        assert !PaperOf(found[i], Paper(None, "", [], [], None));
        return Err(AttributeError(NoStripMessage));
      }
      PapersExtend(found, entries, paper.value);
      entries := entries + [paper.value];
    }
    var papers := map["entries" := entries];
    assert papers.Keys == {"entries"} && papers["entries"] == entries;
    r := Ok(papers);
  }

  /** A feed without entries parses into an empty list under "entries", not into an error. */
  lemma EmptyFeedParses(root: Element)
    requires forall k :: 0 <= k < |root.children| ==> root.children[k].tag != Atom("entry")
    ensures ParsedFeed(root, Ok(map["entries" := []]))
  {
    assert FindAll(root, Atom("entry")) == [];
  }

  // ---------------------------------------------------------------------
  // The search and the agent-facing tool
  // ---------------------------------------------------------------------

  /**
   * The outcome of search_arxiv_paper: the URL requested (None when the
   * query was rejected before any request) and the result or the exception.
   */
  ghost predicate SearchOutcome(topic: string, maxResults: int, fetch: string -> Response,
                                fromString: string -> Option<Element>,
                                requested: Option<string>, r: Result<Papers, PyError>)
  {
    var query := NormaliseQuery(topic);
    match FirstIn(Forbidden, query)
    case Some(c) =>
      requested == None && r == Err(ValueError(InvalidCharMessage(c, query)))
    case None =>
      var url := QueryUrl(query, maxResults);
      var resp := fetch(url);
      && requested == Some(url)
      && (if !resp.ok then r == Err(ValueError(BadResponseMessage(resp)))
          else match fromString(resp.text)
            case None => r == Err(ParseError)
            case Some(root) => ParsedFeed(root, r))
  }

  /** search_arxiv_paper(topic, max_results). */
  method SearchArxivPaper(topic: string, maxResults: int, fetch: string -> Response,
                          fromString: string -> Option<Element>)
    returns (requested: Option<string>, r: Result<Papers, PyError>)
    ensures SearchOutcome(topic, maxResults, fetch, fromString, requested, r)
  {
    var query := NormaliseQuery(topic);
    var bad := CheckQuery(query);
    if bad.Some? {
      return None, Err(ValueError(InvalidCharMessage(bad.value, query)));
    }
    var url := QueryUrl(query, maxResults);
    requested := Some(url);
    var response := fetch(url);
    if !response.ok {
      return requested, Err(ValueError(BadResponseMessage(response)));
    }
    var root := fromString(response.text);
    if root.None? {
      return requested, Err(ParseError);
    }
    r := ParseArxivXml(root.value);
  }

  const DefaultMaxResults := 5

  function NoPapersMessage(topic: string): string {
    "No papers found for topic: " + topic
  }

  /** The emptiness test as written, `len(papers) == 0`: it counts the keys of the dict. */
  predicate KeysEmpty(papers: Papers) {
    |papers| == 0
  }

  /** The emptiness test the "no papers" message means: the list of entries is empty. */
  predicate EntriesEmpty(papers: Papers) {
    "entries" in papers && |papers["entries"]| == 0
  }

  /**
   * Whatever a parsed feed holds, the test as written never fires, while
   * the empty feed is one on which the intended test does.
   */
  lemma KeysEmptyNeverFires(root: Element, r: Result<Papers, PyError>)
    requires ParsedFeed(root, r) && r.Ok?
    ensures !KeysEmpty(r.value)
    ensures FindAll(root, Atom("entry")) == [] ==> EntriesEmpty(r.value)
  {
    assert "entries" in r.value.Keys;
  }

  /**
   * The arxiv_search tool as written: its emptiness test counts the keys of
   * the dictionary, which always has the key "entries", so it passes on
   * whatever the search returned, an empty list of entries included.
   */
  method ArxivSearch(topic: string, fetch: string -> Response, fromString: string -> Option<Element>)
    returns (requested: Option<string>, r: Result<Papers, PyError>)
    ensures SearchOutcome(topic, DefaultMaxResults, fetch, fromString, requested, r)
    ensures r.Ok? ==> "entries" in r.value
  {
    var papers;
    requested, papers := SearchArxivPaper(topic, DefaultMaxResults, fetch, fromString);
    if papers.Err? {
      return requested, papers;
    }
    r := if KeysEmpty(papers.value) then Err(ValueError(NoPapersMessage(topic))) else papers;
  }

  /**
   * arxiv_search with the emptiness test on the list of entries, as its
   * message intends: an empty result raises the "no papers" ValueError.
   */
  method ArxivSearchChecked(topic: string, fetch: string -> Response, fromString: string -> Option<Element>)
    returns (requested: Option<string>, r: Result<Papers, PyError>)
    ensures r.Ok? ==> "entries" in r.value && |r.value["entries"]| > 0
    ensures || SearchOutcome(topic, DefaultMaxResults, fetch, fromString, requested, r)
            || (&& SearchOutcome(topic, DefaultMaxResults, fetch, fromString, requested, Ok(map["entries" := []]))
                && r == Err(ValueError(NoPapersMessage(topic))))
  {
    var papers;
    requested, papers := SearchArxivPaper(topic, DefaultMaxResults, fetch, fromString);
    if papers.Err? {
      return requested, papers;
    }
    if EntriesEmpty(papers.value) {
      assert papers.value == map["entries" := []];
      return requested, Err(ValueError(NoPapersMessage(topic)));
    }
    r := papers;
  }
}
