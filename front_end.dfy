/**
 * The chat front end's text handling: normalising an assistant message's
 * content to a string, turning the successive assistant texts of a graph
 * stream into only their newly added segments, and the caller's
 * accumulation of those segments.
 *
 * The graph stream itself is an input: the last message of each event, in
 * order.  Message content is modelled as a str, a list of parts, or
 * anything else; a part as a str, a dict of field values, or anything else.
 */
module ChatStream {
  import opened Wrappers
  import opened PyStr

  /** A dict field value: a str, or some other Python object. */
  datatype Value = Str(s: string) | NonStr

  /** One element of a list content. */
  datatype Part = StrPart(text: string) | DictPart(fields: map<string, Value>) | OtherPart

  /** A message's content: a str, a list of parts, or anything else. */
  datatype Content = Text(text: string) | Parts(parts: seq<Part>) | OtherContent

  /** The last message of a stream event: an AIMessage, or any other kind (tool, human, system). */
  datatype Message = AIMessage(content: Content) | OtherMessage

  /** The TypeError "".join raises on an item that is not a str. */
  datatype ExtractError = TypeError

  // ---------------------------------------------------------------------
  // _extract_text
  // ---------------------------------------------------------------------

  /** `p.get("type") == "text" and "text" in p` */
  predicate IsTextDict(fields: map<string, Value>) {
    "type" in fields && fields["type"] == Str("text") && "text" in fields
  }

  /** What one part appends to the `parts` list: nothing, or one value. */
  function PartValues(p: Part): seq<Value> {
    match p
    case StrPart(s) => [Str(s)]
    case DictPart(fields) => if IsTextDict(fields) then [fields["text"]] else []
    case OtherPart => []
  }

  /** The `parts` list after the loop over a list content. */
  function Collected(ps: seq<Part>): seq<Value>
    decreases |ps|
  {
    if |ps| == 0 then [] else Collected(ps[..|ps| - 1]) + PartValues(ps[|ps| - 1])
  }

  /** Python's "".join(values): the concatenation, or TypeError when some item is not a str. */
  function JoinStrs(values: seq<Value>): (r: Result<string, ExtractError>)
    ensures r.Ok? <==> forall k :: 0 <= k < |values| ==> values[k].Str?
    decreases |values|
  {
    if |values| == 0 then Ok("")
    else
      match JoinStrs(values[..|values| - 1])
      case Err(e) => Err(e)
      case Ok(init) =>
        match values[|values| - 1]
        case Str(s) => Ok(init + s)
        case NonStr => Err(TypeError)
  }

  /** _extract_text(content) */
  function ExtractSpec(content: Content): Result<string, ExtractError> {
    match content
    case Text(s) => Ok(s)
    case Parts(ps) => JoinStrs(Collected(ps))
    case OtherContent => Ok("")
  }

  /** Joining the texts of two consecutive pieces: an error in either, or the two texts in order. */
  function Combine(x: Result<string, ExtractError>, y: Result<string, ExtractError>): Result<string, ExtractError> {
    if x.Err? then x else if y.Err? then y else Ok(x.value + y.value)
  }

  lemma {:induction false} CollectedAppend(a: seq<Part>, b: seq<Part>)
    ensures Collected(a + b) == Collected(a) + Collected(b)
    decreases |b|
  {
    if |b| == 0 {
      assert a + b == a;
    } else {
      assert (a + b)[..|a + b| - 1] == a + b[..|b| - 1];
      CollectedAppend(a, b[..|b| - 1]);
    }
  }

  lemma {:induction false} JoinStrsAppend(a: seq<Value>, b: seq<Value>)
    ensures JoinStrs(a + b) == Combine(JoinStrs(a), JoinStrs(b))
    decreases |b|
  {
    if |b| == 0 {
      assert a + b == a;
      if JoinStrs(a).Ok? {
        assert JoinStrs(a).value + "" == JoinStrs(a).value;
      }
    } else {
      var init := b[..|b| - 1];
      var last := b[|b| - 1];
      assert (a + b)[..|a + b| - 1] == a + init;
      assert (a + b)[|a + b| - 1] == last;
      JoinStrsAppend(a, init);
      if JoinStrs(a).Ok? && JoinStrs(init).Ok? && last.Str? {
        assert JoinStrs(a + b) == Ok(JoinStrs(a + init).value + last.s);
        assert JoinStrs(b) == Ok(JoinStrs(init).value + last.s);
        assert JoinStrs(a).value + JoinStrs(init).value + last.s
            == JoinStrs(a).value + (JoinStrs(init).value + last.s);
      }
    }
  }

  /** "".join of one item: that str, or TypeError. */
  lemma JoinStrsSingle(v: Value)
    ensures JoinStrs([v]) == if v.Str? then Ok(v.s) else Err(TypeError)
  {
    assert [v][..0] == [];
    if v.Str? {
      assert "" + v.s == v.s;
    }
  }

  /**
   * A list content's text is built part by part, in order: the text of a
   * split list is the texts of its two halves, concatenated.
   */
  lemma ExtractPartsAppend(a: seq<Part>, b: seq<Part>)
    ensures ExtractSpec(Parts(a + b)) == Combine(ExtractSpec(Parts(a)), ExtractSpec(Parts(b)))
  {
    CollectedAppend(a, b);
    JoinStrsAppend(Collected(a), Collected(b));
  }

  /**
   * What one part contributes: a str part itself; a text dict its "text"
   * value (TypeError when that is not a str); every other part nothing.
   */
  lemma ExtractSinglePart(p: Part)
    ensures p.StrPart? ==> ExtractSpec(Parts([p])) == Ok(p.text)
    ensures p.DictPart? && IsTextDict(p.fields) && p.fields["text"].Str? ==>
              ExtractSpec(Parts([p])) == Ok(p.fields["text"].s)
    ensures p.DictPart? && IsTextDict(p.fields) && p.fields["text"].NonStr? ==>
              ExtractSpec(Parts([p])) == Err(TypeError)
    ensures p.OtherPart? || (p.DictPart? && !IsTextDict(p.fields)) ==> ExtractSpec(Parts([p])) == Ok("")
  {
    assert [p][..0] == [];
    assert Collected([p]) == PartValues(p);
    match p {
      case StrPart(t) =>
        JoinStrsSingle(Str(t));
      case DictPart(fields) =>
        if IsTextDict(fields) {
          JoinStrsSingle(fields["text"]);
        }
      case OtherPart =>
    }
  }

  /** A list of str parts gives their concatenation in list order. */
  lemma {:induction false} ExtractStrParts(texts: seq<string>)
    ensures ExtractSpec(Parts(seq(|texts|, k requires 0 <= k < |texts| => StrPart(texts[k])))) == Ok(Concat(texts))
    decreases |texts|
  {
    var ps := seq(|texts|, k requires 0 <= k < |texts| => StrPart(texts[k]));
    if |texts| > 0 {
      var init := texts[..|texts| - 1];
      ExtractStrParts(init);
      assert ps == seq(|init|, k requires 0 <= k < |init| => StrPart(init[k])) + [StrPart(texts[|texts| - 1])];
      ExtractPartsAppend(seq(|init|, k requires 0 <= k < |init| => StrPart(init[k])), [StrPart(texts[|texts| - 1])]);
      ExtractSinglePart(StrPart(texts[|texts| - 1]));
    }
  }

  /** The loop of _extract_text, appending to `parts`, then "".join(parts). */
  method ExtractText(content: Content) returns (r: Result<string, ExtractError>)
    ensures r == ExtractSpec(content)
  {
    match content {
      case Text(s) =>
        return Ok(s);
      case Parts(ps) =>
        var parts: seq<Value> := [];
        for i := 0 to |ps|
          invariant parts == Collected(ps[..i])
        {
          assert ps[..i + 1][..i] == ps[..i];
          match ps[i] {
            case StrPart(s) =>
              parts := parts + [Str(s)];
            case DictPart(fields) =>
              if IsTextDict(fields) {
                parts := parts + [fields["text"]];
              }
            case OtherPart =>
          }
        }
        assert ps[..|ps|] == ps;
        return JoinStrs(parts);
      case OtherContent =>
        return Ok("");
    }
  }

  // ---------------------------------------------------------------------
  // _stream_ai
  // ---------------------------------------------------------------------

  /**
   * The segment yielded for a new text: what it adds to `full` when it
   * extends it, the whole text otherwise.  It is empty exactly when the
   * text repeats `full` (or is itself empty).
   */
  function Delta(full: string, text: string): (segment: string)
    ensures StartsWith(text, full) ==> full + segment == text
    ensures !StartsWith(text, full) ==> segment == text
    ensures segment == "" <==> text == full || text == ""
  {
    if StartsWith(text, full) then
      assert text == full + text[|full|..];
      text[|full|..]
    else text
  }

  /** The generator's progress: the segments yielded so far, `full`, and whether it has raised. */
  datatype Streamed = Streamed(segments: seq<string>, full: string, failure: Option<ExtractError>)

  /** An assistant message whose content cannot be normalised: the TypeError propagates. */
  predicate Raises(msg: Message) {
    msg.AIMessage? && ExtractSpec(msg.content).Err?
  }

  /** The stripped text of an assistant message when it is non-empty: the texts that count. */
  function Counted(msg: Message): (text: Option<string>)
    ensures text.None? <==> msg.OtherMessage? || ExtractSpec(msg.content).Err?
                            || Strip(ExtractSpec(msg.content).value) == ""
    ensures text.Some? ==> text.value == Strip(ExtractSpec(msg.content).value)
    ensures text.Some? ==> text.value != "" && NoEdgeSpace(text.value)
  {
    match msg
    case OtherMessage => None
    case AIMessage(content) =>
      match ExtractSpec(content)
      case Err(_) => None
      case Ok(raw) => if Strip(raw) == "" then None else Some(Strip(raw))
  }

  /** A counted text arrives: yield its delta when non-empty, and it becomes `full`. */
  function Advance(st: Streamed, text: string): Streamed {
    var segment := Delta(st.full, text);
    Streamed(st.segments + (if segment != "" then [segment] else []), text, None)
  }

  /** One event of the loop, on a generator that has not raised. */
  function Step(st: Streamed, msg: Message): Streamed {
    if Raises(msg) then Streamed(st.segments, st.full, Some(ExtractSpec(msg.content).error))
    else
      match Counted(msg)
      case None => st
      case Some(text) => Advance(st, text)
  }

  /** _stream_ai over the given events, one event at a time, stopping at the first TypeError. */
  function StreamSpec(msgs: seq<Message>): Streamed
    decreases |msgs|
  {
    if |msgs| == 0 then Streamed([], "", None)
    else
      var prev := StreamSpec(msgs[..|msgs| - 1]);
      if prev.failure.Some? then prev else Step(prev, msgs[|msgs| - 1])
  }

  /** One more event: nothing once the generator has raised, otherwise one Step. */
  lemma StreamSpecSnoc(msgs: seq<Message>, msg: Message)
    ensures var prev := StreamSpec(msgs);
            StreamSpec(msgs + [msg]) == if prev.failure.Some? then prev else Step(prev, msg)
  {
    assert (msgs + [msg])[..|msgs|] == msgs;
  }

  /** What the generator keeps true: no yielded segment is empty, and `full` has no whitespace at its ends. */
  predicate Tidy(st: Streamed) {
    && (forall k :: 0 <= k < |st.segments| ==> st.segments[k] != "")
    && NoEdgeSpace(st.full)
  }

  lemma StepTidy(st: Streamed, msg: Message)
    requires Tidy(st)
    ensures Tidy(Step(st, msg))
  {
    if !Raises(msg) && Counted(msg).Some? {
      var text := Counted(msg).value;
      assert NoEdgeSpace(text);
      var segment := Delta(st.full, text);
      var next := Advance(st, text);
      assert next.segments == st.segments + (if segment != "" then [segment] else []);
    }
  }

  /** No yielded segment is ever empty, and `full` has no whitespace at its ends. */
  lemma {:induction false} StreamSpecTidy(msgs: seq<Message>)
    ensures Tidy(StreamSpec(msgs))
    decreases |msgs|
  {
    if |msgs| > 0 {
      var init := msgs[..|msgs| - 1];
      StreamSpecTidy(init);
      if StreamSpec(init).failure.None? {
        StepTidy(StreamSpec(init), msgs[|msgs| - 1]);
      }
    }
  }

  /** The generator runs to its end exactly when no assistant message raises. */
  lemma {:induction false} RunsToEnd(msgs: seq<Message>)
    ensures StreamSpec(msgs).failure.None? <==> forall k :: 0 <= k < |msgs| ==> !Raises(msgs[k])
    decreases |msgs|
  {
    if |msgs| > 0 {
      var init, last := msgs[..|msgs| - 1], msgs[|msgs| - 1];
      RunsToEnd(init);
      assert msgs == init + [last];
      StreamSpecSnoc(init, last);
      if forall k :: 0 <= k < |msgs| ==> !Raises(msgs[k]) {
        forall k | 0 <= k < |init|
          ensures !Raises(init[k])
        {
          assert init[k] == msgs[k];
        }
        assert !Raises(last);
      } else {
        var k :| 0 <= k < |msgs| && Raises(msgs[k]);
        if k < |init| {
          assert Raises(init[k]);
        } else {
          assert Raises(last);
        }
      }
    }
  }

  /** The texts that count, in stream order. */
  function AiTexts(msgs: seq<Message>): (texts: seq<string>)
    decreases |msgs|
  {
    if |msgs| == 0 then []
    else
      var rest := AiTexts(msgs[..|msgs| - 1]);
      match Counted(msgs[|msgs| - 1])
      case None => rest
      case Some(text) => rest + [text]
  }

  /** Only assistant messages matter: any other message leaves the generator as it was. */
  lemma NonAiMessageSkipped(msgs: seq<Message>, other: Message)
    requires other.OtherMessage?
    ensures StreamSpec(msgs + [other]) == StreamSpec(msgs)
    ensures AiTexts(msgs + [other]) == AiTexts(msgs)
  {
    assert (msgs + [other])[..|msgs|] == msgs;
  }

  /** An assistant message whose text strips to "" leaves the generator as it was. */
  lemma BlankAssistantSkipped(msgs: seq<Message>, content: Content)
    requires ExtractSpec(content).Ok? && Strip(ExtractSpec(content).value) == ""
    ensures StreamSpec(msgs + [AIMessage(content)]) == StreamSpec(msgs)
    ensures AiTexts(msgs + [AIMessage(content)]) == AiTexts(msgs)
  {
    assert (msgs + [AIMessage(content)])[..|msgs|] == msgs;
  }

  /**
   * An assistant message with non-blank text, on a generator that has not
   * raised: its stripped text becomes `full`, and its delta against the old
   * `full` is yielded when non-empty.
   */
  lemma AssistantTextAdvances(msgs: seq<Message>, content: Content)
    requires StreamSpec(msgs).failure.None?
    requires ExtractSpec(content).Ok? && Strip(ExtractSpec(content).value) != ""
    ensures var before := StreamSpec(msgs);
            var after := StreamSpec(msgs + [AIMessage(content)]);
            var text := Strip(ExtractSpec(content).value);
            var segment := Delta(before.full, text);
            && after.failure.None?
            && after.full == text
            && after.segments == before.segments + (if segment != "" then [segment] else [])
  {
    StreamSpecSnoc(msgs, AIMessage(content));
    assert !Raises(AIMessage(content));
    assert Counted(AIMessage(content)) == Some(Strip(ExtractSpec(content).value));
  }

  /** Once the generator has raised, later events change nothing. */
  lemma {:induction false} FailureStops(msgs: seq<Message>, i: nat)
    requires i <= |msgs|
    requires StreamSpec(msgs[..i]).failure.Some?
    ensures StreamSpec(msgs) == StreamSpec(msgs[..i])
    decreases |msgs| - i
  {
    if i < |msgs| {
      assert msgs[..i + 1][..i] == msgs[..i];
      FailureStops(msgs, i + 1);
    } else {
      assert msgs[..i] == msgs;
    }
  }

  /** `full` is the latest text that counts, or "" when there is none. */
  lemma {:induction false} FullIsLatest(msgs: seq<Message>)
    requires StreamSpec(msgs).failure.None?
    ensures var texts := AiTexts(msgs);
            StreamSpec(msgs).full == if texts == [] then "" else texts[|texts| - 1]
    decreases |msgs|
  {
    if |msgs| > 0 {
      var init, last := msgs[..|msgs| - 1], msgs[|msgs| - 1];
      assert msgs == init + [last];
      StreamSpecSnoc(init, last);
      FullIsLatest(init);
    }
  }

  /** A text that extends `full` adds exactly its new part to the yielded segments. */
  lemma AdvanceReassembles(st: Streamed, text: string)
    requires Concat(st.segments) == st.full
    requires StartsWith(text, st.full)
    ensures Concat(Advance(st, text).segments) == text
  {
    var segment := Delta(st.full, text);
    var added := if segment != "" then [segment] else [];
    ConcatAppend(st.segments, added);
    if segment != "" {
      assert Concat(added) == Concat([]) + segment;
    }
  }

  /** Each counted text starts with the one before it. */
  predicate Extends(texts: seq<string>) {
    forall k :: 0 < k < |texts| ==> StartsWith(texts[k], texts[k - 1])
  }

  /**
   * When every counted text extends the previous one, the yielded
   * segments concatenate to the final `full`.
   */
  lemma {:induction false} GrowingStreamReassembles(msgs: seq<Message>)
    requires StreamSpec(msgs).failure.None?
    requires Extends(AiTexts(msgs))
    ensures Concat(StreamSpec(msgs).segments) == StreamSpec(msgs).full
    decreases |msgs|
  {
    if |msgs| > 0 {
      var init := msgs[..|msgs| - 1];
      var ai := AiTexts(init);
      assert Extends(ai) by {
        assert forall k :: 0 <= k < |ai| ==> AiTexts(msgs)[k] == ai[k];
      }
      GrowingStreamReassembles(init);
      FullIsLatest(init);
      var last := msgs[|msgs| - 1];
      if Counted(last).Some? {
        var text := Counted(last).value;
        assert AiTexts(msgs) == ai + [text];
        assert StartsWith(text, StreamSpec(init).full) by {
          if |ai| > 0 {
            assert AiTexts(msgs)[|ai|] == text && AiTexts(msgs)[|ai| - 1] == ai[|ai| - 1];
          }
        }
        AdvanceReassembles(StreamSpec(init), text);
      }
    }
  }

  /**
   * The generator: yields (appends to `segments`) each non-empty new
   * segment and returns `full`, or raises the normalisation's TypeError.
   */
  method StreamAi(events: seq<Message>) returns (segments: seq<string>, r: Result<string, ExtractError>)
    ensures segments == StreamSpec(events).segments
    ensures StreamSpec(events).failure.None? ==> r == Ok(StreamSpec(events).full)
    ensures StreamSpec(events).failure.Some? ==> r == Err(StreamSpec(events).failure.value)
  {
    var full := "";
    segments := [];
    for i := 0 to |events|
      invariant StreamSpec(events[..i]) == Streamed(segments, full, None)
    {
      assert events[..i + 1][..i] == events[..i];
      var msg := events[i];
      if msg.AIMessage? {
        var extracted := ExtractText(msg.content);
        if extracted.Err? {
          FailureStops(events, i + 1);
          return segments, Err(extracted.error);
        }
        var text := Strip(extracted.value);
        if text != "" {
          var segment := if StartsWith(text, full) then text[|full|..] else text;
          if segment != "" {
            segments := segments + [segment];
          }
          full := text;
        }
      }
    }
    assert events[..|events|] == events;
    r := Ok(full);
  }

  /** The caller's loop: `accumulated += chunk` for each yielded chunk. */
  method Accumulate(chunks: seq<string>) returns (accumulated: string)
    ensures accumulated == Concat(chunks)
  {
    accumulated := "";
    for i := 0 to |chunks|
      invariant accumulated == Concat(chunks[..i])
    {
      assert chunks[..i + 1][..i] == chunks[..i];
      accumulated := accumulated + chunks[i];
    }
    assert chunks[..|chunks|] == chunks;
  }
}
