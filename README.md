# AI Researcher Agent tools, modelled in Dafny

This project models the deterministic core of the AI Researcher Agent. The
agent is a chat assistant that searches arXiv, reads papers and writes a
LaTeX paper. The model covers four of its pieces:

- **The arXiv search tool** (`arxiv_tool.dfy`, module `ArxivTool`). The topic
  becomes a query: lowercased, split on whitespace, joined with `+`. The query
  is checked for the forbidden characters `( ) " ` followed by a space. The
  request URL is built and the HTTP status is checked. The Atom feed becomes
  one record per entry, holding the title, the stripped summary, the authors,
  the category terms and the first PDF link. The `arxiv_search` tool wraps all
  of this with its emptiness test.
- **The LaTeX render tool** (`write_pdf.dfy`, module `LatexRender`). The output
  directory is a class whose file map the tool changes step by step. The tool
  writes `paper_<timestamp>.tex` and picks the engine: pdflatex, xelatex, the
  system MiKTeX or the user MiKTeX, whichever is found first. It runs the
  compiler, reports a failing run with the last 2000 characters of stderr and
  then of stdout, and checks that the PDF exists. Last, it removes the seven
  auxiliary files.
- **The PDF reader tool** (`read_pdf.dfy`, module `PdfText`). A loop appends
  each page's text and a newline to an accumulator. The result is that
  accumulator stripped, or the first exception raised.
- **The chat front end's text handling** (`front_end.dfy`, module
  `ChatStream`). `_extract_text` turns message content into a string.
  `_stream_ai` turns the successive assistant texts into only their newly
  added segments. The caller appends the chunks it receives.

`py_str.dfy` (module `PyStr`) states the Python string operations these use:
`str.isspace`, `strip`, `split`, `join`, `lower`, `startswith`,
negative slicing, `rfind`, `str(int)`. `wrappers.dfy` holds `Option`, for
Python's `None`, and `Result`, for a value or a raised exception.

Everything outside the program's own logic comes in as an input:
- the HTTP response for a URL, a function returning a `Response`;
- `ET.fromstring`, a function from the response text to an element tree, or
  nothing on a parse error;
- the PDF download and `PyPDF2`, a function from the URL to the per-page
  extraction outcomes;
- `shutil.which`, `Path.exists` and the home directory, a `Host` record;
- the compiler run, a `CompileOutcome` record giving the exit code, the
  output and the files it wrote;
- the timestamp, a string;
- the graph stream, the sequence of the last message of each event.

## Model

| member | source | states |
|---|---|---|
| PyStr.Strip | read_pdf.py:34 | `str.strip()`: the result has no whitespace at either end, and the input is that result with only whitespace cut from each side |
| PyStr.StripUnique | read_pdf.py:34 | stripping whitespace + s + whitespace gives exactly s when s has no whitespace at its ends |
| PyStr.Split | arxiv_tool.py:12 | `str.split()`: every word is non-empty and free of whitespace |
| PyStr.SplitReconstructs | arxiv_tool.py:12 | interleaving the words with the whitespace runs between them gives back the input, so split drops only whitespace |
| PyStr.GapsBetweenWordsNonEmpty | arxiv_tool.py:12 | two consecutive words always had whitespace between them |
| PyStr.JoinNoSpace | arxiv_tool.py:12 | joining whitespace-free words with a whitespace-free separator gives a whitespace-free string |
| PyStr.Lower | arxiv_tool.py:12 | same length; each ASCII capital becomes its small letter (code point + 32), no capital is left, and every other character (whitespace included) is unchanged |
| PyStr.Tail | write_pdf.py:71-73 | `s[-n:]`: the last n characters, or all of s when it is shorter |
| PyStr.LastIndexOf | write_pdf.py:76 | `rfind`: None exactly when the character is absent, otherwise its last position |
| PyStr.IntToStrRoundTrip | arxiv_tool.py:20 | the decimal text of `max_results` parses back to the same integer |
| ArxivTool.NormaliseQuery | arxiv_tool.py:12 | the query never contains whitespace, and a single-word topic gives just its lowercased form |
| ArxivTool.NormalisedQueryPassesSpaceCheck | arxiv_tool.py:12-16 | the space branch of the character check can never fire on a normalised query |
| ArxivTool.FirstIn | arxiv_tool.py:13-16 | no character found exactly when none of the candidates occurs; otherwise the first candidate in the fixed order that occurs, not the first in the query |
| ArxivTool.CheckQuery | arxiv_tool.py:13-16 | the loop with its early exit reports exactly what FirstIn states, over `( ) "` followed by a space in that order |
| ArxivTool.QueryUrlRoundTrip | arxiv_tool.py:17-23 | the URL is the fixed endpoint, then `search_query=all:` and the query, `&max_results=` and the count, then the sort parameters; query and count can be read back from it |
| ArxivTool.Matching | arxiv_tool.py:45 | `findall` keeps every child with the tag and only those, never adds one, and gives nothing when no child has the tag |
| ArxivTool.MatchingAppend | arxiv_tool.py:45 | `findall` keeps document order: it distributes over concatenation |
| ArxivTool.FindText | arxiv_tool.py:66-67 | `findtext` gives None exactly when no direct child has the tag |
| ArxivTool.FindTextIsFirst | arxiv_tool.py:66-67 | otherwise it gives the text of the first child with the tag, or `""` when that child has no text |
| ArxivTool.FirstPdfLink | arxiv_tool.py:59-63 | the href of the first link typed `application/pdf`, later ones ignored, None when there is none |
| ArxivTool.ParseEntry | arxiv_tool.py:47-71 | title, stripped summary, one author name per author element and one term per category element in order, and the first PDF link; it fails exactly when the entry has no summary |
| ArxivTool.ParseArxivXml | arxiv_tool.py:36-72 | one record per `atom:entry` child, in order, under the single key `entries`; AttributeError when some entry lacks a summary |
| ArxivTool.EmptyFeedParses | arxiv_tool.py:45-72 | a feed with no `atom:entry` child parses into `{"entries": []}`, not into an error |
| ArxivTool.SearchArxivPaper | arxiv_tool.py:11-31 | a rejected query raises ValueError naming the character, before any request; otherwise the URL is requested; a non-ok response raises ValueError with status and body; otherwise the parsed feed is returned |
| ArxivTool.KeysEmptyNeverFires | arxiv_tool.py:92-94 | the test `len(papers) == 0` is false on every parsed feed, even a feed with no entries, where the intended test is true |
| ArxivTool.ArxivSearch | arxiv_tool.py:81-96 | as written: the outcome is exactly that of the search with 5 results, so the "no papers" error is never raised |
| ArxivTool.ArxivSearchChecked | arxiv_tool.py:81-96 | corrected: a successful result holds at least one entry; otherwise the search's own outcome, or ValueError "No papers found" for an empty feed |
| LatexRender.StemOfTexName | write_pdf.py:35-37 | the stem of `paper_<timestamp>.tex` is `paper_<timestamp>`, and with `.pdf` appended it is the PDF name |
| LatexRender.Stem | write_pdf.py:76 | pathlib's stem is a prefix of the name; when it is shorter than the name, the cut is at a last `.` that is neither the first nor the last character (StemCutsAtLastDot gives the converse) |
| LatexRender.StemCutsAtLastDot | write_pdf.py:76 | conversely, a last `.` that is neither the first nor the last character ends the stem: the stem is everything before it |
| LatexRender.EngineCandidates | write_pdf.py:42-47 | the four candidates in priority order: `which("pdflatex")`, `which("xelatex")`, the system MiKTeX path when it exists, the user MiKTeX path under the home directory when it exists |
| LatexRender.FirstTruthy | write_pdf.py:42-52 | the `or` chain: the first available engine in priority order, None when none is available |
| LatexRender.CompileCommand | write_pdf.py:55-64 | eight arguments: the engine, `-interaction=nonstopmode`, `-halt-on-error`, `-synctex=0`, `-quiet`, `-output-directory`, the directory, then the .tex path |
| LatexRender.FailureMessageSections | write_pdf.py:67-74 | the message is the header, then the stderr section, then the stdout section; each section is present exactly when its stream is non-empty |
| LatexRender.FailureMessageBounded | write_pdf.py:67-74 | the message is at most the header, two labels and 2 × 2000 characters long, and it is the bare header when both streams are empty |
| LatexRender.AuxNamesSeven | write_pdf.py:83-92 | there are exactly seven cleanup candidates, and neither the .tex nor the .pdf is one of them |
| LatexRender.CleanupKeepsOthers | write_pdf.py:93-98 | cleanup removes exactly the candidates whose removal succeeds; every other file keeps its contents |
| LatexRender.OutputDirectory.RemoveAuxFiles | write_pdf.py:93-98 | the loop over the candidates leaves the directory as CleanupKeepsOthers describes; a failed removal does not stop the loop |
| LatexRender.RenderSpec | write_pdf.py:30-100 | the .tex is always written first; the command is run only when an engine exists; success exactly when an engine exists, the exit code is 0 and the PDF exists; the returned path is `dir/paper_<timestamp>.pdf`; with no engine the error is the RuntimeError naming the missing engine and the directory is the old one plus the .tex; a non-zero exit gives the RuntimeError with the failure message and a missing PDF the FileNotFoundError with its path, both over the compiler's directory; an error removes no file and changes no file other than the .tex and the compiler's outputs |
| LatexRender.RenderCleansUp | write_pdf.py:83-100 | after a successful call no removable auxiliary file is left, a candidate whose removal failed is still there, and every non-candidate file keeps its contents |
| LatexRender.OutputDirectory.Render | write_pdf.py:15-103 | the mkdir, write, compile and cleanup steps leave the directory, command and result as RenderSpec states |
| PdfText.Accumulated | read_pdf.py:29-32 | the accumulator has at least one character per page and ends with a newline when there is a page |
| PdfText.AccumulatedLength | read_pdf.py:29-32 | the accumulator's length is the sum of the page lengths plus the page count |
| PdfText.AccumulatedIsJoin | read_pdf.py:29-32 | the accumulator is the page texts joined by newlines, plus one final newline |
| PdfText.ExtractedFirstFailure | read_pdf.py:30-37 | a failure reports the exception of the first page that failed |
| PdfText.ExtractedTexts | read_pdf.py:30-32 | without a failure there is one text per page, in page order |
| PdfText.FailureSticks | read_pdf.py:30-37 | once a page has failed, the pages after it do not change the outcome |
| PdfText.ReadOutcome | read_pdf.py:18-37 | the result has no whitespace at its ends; zero pages give `""`; a result is returned exactly when the fetch and every page succeed, and no partial text is returned |
| PdfText.SpaceFreePagesJoin | read_pdf.py:29-34 | pages that are non-empty and free of whitespace give their texts joined by single newlines |
| PdfText.ReadPdf | read_pdf.py:10-37 | the accumulation loop with its re-raise computes ReadOutcome |
| ChatStream.JoinStrs | front_end.py:45 | `"".join` succeeds exactly when every item is a str |
| ChatStream.ExtractPartsAppend | front_end.py:36-45 | a list's text is built part by part: the text of a split list is the texts of its halves in order |
| ChatStream.ExtractSinglePart | front_end.py:38-44 | a str part gives itself; a dict with `type == "text"` and a `text` key gives that text; every other part gives nothing |
| ChatStream.ExtractStrParts | front_end.py:36-45 | a list of str parts gives their in-order concatenation |
| ChatStream.ExtractText | front_end.py:32-46 | the loop over the parts followed by `"".join` computes the normalised text; a str is returned unchanged, and any other content gives `""` |
| ChatStream.Delta | front_end.py:61 | when the text extends `full`, `full` plus the segment is the text, otherwise the segment is the whole text; the segment is empty exactly when the text equals `full` or is itself empty |
| ChatStream.Counted | front_end.py:57-59 | a message counts exactly when it is an assistant message whose content normalises without error to a text that is not blank after `strip`; what counts is that stripped text, non-empty and with no whitespace at its ends |
| ChatStream.StreamSpecTidy | front_end.py:53-65 | no yielded segment is ever empty, and `full` has no whitespace at its ends |
| ChatStream.RunsToEnd | front_end.py:53-65 | the generator finishes exactly when no assistant message's content raises |
| ChatStream.NonAiMessageSkipped | front_end.py:57 | a non-assistant message changes neither the segments nor `full` |
| ChatStream.BlankAssistantSkipped | front_end.py:58-59 | an assistant message whose text strips to `""` changes neither the segments nor `full` |
| ChatStream.AssistantTextAdvances | front_end.py:58-64 | an assistant message with non-blank text makes its stripped text the new `full` and yields its delta against the old `full` when that is non-empty |
| ChatStream.FailureStops | front_end.py:53-65 | once the generator has raised, later events change nothing |
| ChatStream.FullIsLatest | front_end.py:58-64 | `full` is the latest counted text, or `""` when there is none; blank texts leave it unchanged |
| ChatStream.GrowingStreamReassembles | front_end.py:61-65 | when each counted text extends the previous one, the yielded segments concatenate to the final `full` |
| ChatStream.StreamAi | front_end.py:48-65 | the generator loop yields exactly StreamSpec's segments, and returns `full` or raises the TypeError |
| ChatStream.Accumulate | front_end.py:84-87 | `accumulated += chunk` over the chunks gives their concatenation, which is `full` for a growing stream |

## Left out

- Network I/O: `requests.get` in the search and in the reader. The response is an input. In the search the fetch always yields a response; a `requests.get` that raises (connection error, timeout) is not modelled there.
- `ET.fromstring` and namespace resolution. The element tree is an input and tags are the `{namespace}local` names ElementTree produces. A parse error is a `ParseError` with no detail.
- `PyPDF2.PdfReader` and `page.extract_text`. Their outcomes are inputs.
- The real filesystem, `shutil.which`, `Path.exists`, `subprocess.run` and `datetime.now`. They become the directory object, the `Host` record, the `CompileOutcome` record and a timestamp string.
- `Path.absolute()` and Windows separators: a path is joined as `dir + "/" + name`. Directory creation and `write_text` are assumed to succeed.
- The timestamp is used as given. A timestamp holding `/` would name a sub-directory in Python, and the model does not capture that. The tool's own `%Y%m%d_%H%M%S` format never contains one.
- PyStr.Lower: only the ASCII letters are lowercased, because the full Unicode case mapping is not modelled.
- ChatStream.ExtractText: the TypeError of `"".join` carries no message, because Python's message (the item index and its type) is not modelled.
- `event["messages"][-1]`: the model takes each event's last message as given. It does not model the event dictionaries.
- All `print` and `logging` output, including the module-level `print(read_pdf(url))` at import time.
- The LangGraph workflow (`ai_researcher2.py`), the command-line agent (`ai_researcher.py`) and the Streamlit page and session state around the streaming loop. They are framework orchestration with no logic of their own to prove.

## Findings

| source | as written | input that shows it | evidently intended | confidence | as-written member | corrected member |
|---|---|---|---|---|---|---|
| arxiv_tool.py:92-94 | `len(papers) == 0` counts the keys of the returned dict, and that dict always has the key `entries` | a topic whose feed has no `atom:entry`: the search returns `{"entries": []}` and no error is raised | raise "No papers found for topic" when the list of entries is empty | not executed | ArxivTool.KeysEmptyNeverFires | ArxivTool.ArxivSearchChecked |
