/**
 * `chat_with_ai`: the AI editing assistant's two model calls and the
 * rules that shape their output. The model calls, the JSON parser and the
 * web search are parameters; what is modelled is what the backend itself
 * does with their results: fence stripping, the choice of search context,
 * LaTeX formatting of the new note, the search mention and the fallback
 * replies for a missing API key and for any exception.
 */
module ChatService {
  import opened Wrappers
  import opened Text
  import opened LatexFormat

  const NoKeyText := "Error: Gemini API Key not configured."
  const ErrorPrefix := "Sorry, I encountered an error: "
  const MentionPrefix := "I searched for information. "
  const MentionPhrase := "searched for"
  const JsonFence := "```json"
  const MissingQueryContext := "\n\n--- SEARCH FAILED: Query missing ---\n"

  /** The text of the `KeyError` raised when the reply has no `response_text`. */
  const MissingResponseText := "'response_text'"

  function SearchResultsContext(results: string): string {
    "\n\n--- SEARCH RESULTS ---\n" + results + "\n----------------------\n"
  }

  /** The keys of the first call's JSON object that are read; each may be absent. */
  datatype Decision = Decision(action: Option<string>, tool: Option<string>, query: Option<string>)

  /** The keys of the second call's JSON object that are read or returned; each may be absent. */
  datatype ChatReply = ChatReply(
    responseText: Option<string>,
    updatedHtml: Option<string>,
    requiresConfirmation: Option<bool>)

  // ------------------------------------------------------------ fences

  /** `raw.strip().replace('```json', '').replace('```', '').strip()`, applied before parsing. */
  function StripFences(raw: string): string {
    Strip(RemoveAll(RemoveAll(Strip(raw), JsonFence), Fence))
  }

  /** Whatever the model wrapped its JSON in, no code fence reaches the parser. */
  lemma StripFencesLeavesNoFence(raw: string)
    ensures !Contains(StripFences(raw), Fence)
  {
    var removed := RemoveAll(RemoveAll(Strip(raw), JsonFence), Fence);
    RemoveFencesLeavesNone(RemoveAll(Strip(raw), JsonFence));
    if Contains(StripFences(raw), Fence) {
      StripKeepsOccurrences(removed, Fence);
    }
  }

  /** Text free of backticks and of outer whitespace, such as a bare JSON object, passes unchanged. */
  lemma StripFencesKeepsBareJson(json: string)
    requires '`' !in json
    requires json == [] || (!IsSpace(json[0]) && !IsSpace(json[|json| - 1]))
    ensures StripFences(json) == json
  {
    StripStripped(json);
    RemoveAllWithout(json, JsonFence);
    RemoveAllWithout(json, Fence);
  }

  /** A JSON object wrapped in a ```json code block comes out bare. */
  lemma StripFencesUnwrapsCodeBlock(json: string)
    requires json != [] && '`' !in json
    requires !IsSpace(json[0]) && !IsSpace(json[|json| - 1])
    ensures StripFences("```json\n" + json + "\n```") == json
  {
    var raw := "```json\n" + json + "\n```";
    StripStripped(raw);
    CodeBlockFencesRemoved(json);
    StripNewlines(json);
  }

  lemma CodeBlockFencesRemoved(json: string)
    requires '`' !in json
    ensures RemoveAll(RemoveAll("```json\n" + json + "\n```", JsonFence), Fence) == "\n" + json + "\n"
  {
    var body := "\n" + json + "\n";
    assert "```json\n" + json + "\n```" == JsonFence + (body + Fence);
    RemoveAllLeading(JsonFence, body + Fence);
    assert '`' !in body;
    RemoveAllAfterPlain(body, Fence, JsonFence);
    assert RemoveAll(Fence, JsonFence) == Fence;
    RemoveAllAfterPlain(body, Fence, Fence);
    RemoveAllLeading(Fence, []);
    assert Fence + [] == Fence;
    assert RemoveAll([], Fence) == [];
    assert body + [] == body;
  }

  lemma StripNewlines(json: string)
    requires json != [] && !IsSpace(json[0]) && !IsSpace(json[|json| - 1])
    ensures Strip("\n" + json + "\n") == json
  {
    var line := json + "\n";
    assert "\n" + json + "\n" == ['\n'] + line;
    TrimStartSkipsSpace('\n', line);
    assert TrimStart(line) == line by {
      assert line[0] == json[0];
    }
    TrimEndDropsSpace(json, '\n');
    assert TrimEnd(json) == json;
  }

  // ------------------------------------------------------------ the tool branch

  predicate WantsSearch(d: Decision) {
    d.action == Some("tool_use") && d.tool == Some("google_search")
  }

  /** A query counts only when present and non-empty (Python truthiness). */
  predicate HasQuery(d: Decision) {
    d.query.Some? && d.query.value != []
  }

  /**
   * The search context added to the second prompt and whether the reply
   * must mention the search. `search` stands for `execute_google_search`,
   * which reports its own failures as text and never raises.
   */
  function SearchStep(d: Decision, search: string -> string): (r: (string, bool))
    ensures r.1 <==> WantsSearch(d)
    ensures !WantsSearch(d) ==> r.0 == []
    ensures WantsSearch(d) && HasQuery(d) ==> r.0 == SearchResultsContext(search(d.query.value))
    ensures WantsSearch(d) && !HasQuery(d) ==> r.0 == MissingQueryContext
  {
    if WantsSearch(d) then
      if HasQuery(d) then (SearchResultsContext(search(d.query.value)), true)
      else (MissingQueryContext, true)
    else ([], false)
  }

  // ------------------------------------------------------------ the search mention

  lemma LowerMentionPrefix(t: string)
    ensures At(Lower(MentionPrefix + t), MentionPhrase, 2)
  {
    var s := MentionPrefix + t;
    LowerConcat(MentionPrefix, t);
    forall i | 0 <= i < |MentionPhrase|
      ensures Lower(s)[2 + i] == MentionPhrase[i]
    {
      assert s[2 + i] == MentionPrefix[2 + i];
    }
    assert Lower(s)[2..2 + |MentionPhrase|] == MentionPhrase;
  }

  /** Prefix the reply with the search mention unless it already says "searched for". */
  function MentionSearch(mentions: bool, text: string): (r: string)
    ensures mentions ==> Contains(Lower(r), MentionPhrase)
    ensures !mentions || Contains(Lower(text), MentionPhrase) ==> r == text
    ensures r == text || r == MentionPrefix + text
  {
    if mentions && !Contains(Lower(text), MentionPhrase) then
      assert Contains(Lower(MentionPrefix + text), MentionPhrase) by {
        LowerMentionPrefix(text);
      }
      MentionPrefix + text
    else text
  }

  /** Adding the mention twice is adding it once. */
  lemma MentionSearchIdempotent(mentions: bool, text: string)
    ensures MentionSearch(mentions, MentionSearch(mentions, text)) == MentionSearch(mentions, text)
  {
  }

  // ------------------------------------------------------------ shaping the reply

  /**
   * The steps after the second call is parsed: format LaTeX in the new
   * note if there is one, then add the search mention, which raises a
   * `KeyError` when a search was made and the reply has no text.
   */
  function Finalize(reply: ChatReply, mentions: bool): (r: Result<ChatReply, string>)
    ensures r.Err? <==> mentions && reply.responseText.None?
    ensures r.Err? ==> r.error == MissingResponseText
    ensures r.Ok? ==> r.value.requiresConfirmation == reply.requiresConfirmation
    ensures r.Ok? ==> r.value.updatedHtml.Some? == reply.updatedHtml.Some?
    ensures r.Ok? && reply.updatedHtml.Some? ==>
      r.value.updatedHtml.value == FormatLatexForTiptap(reply.updatedHtml.value)
    ensures r.Ok? ==> r.value.responseText.Some? == reply.responseText.Some?
    ensures r.Ok? && mentions ==> Contains(Lower(r.value.responseText.value), MentionPhrase)
    ensures r.Ok? && mentions ==> r.value.responseText == Some(MentionSearch(true, reply.responseText.value))
    ensures r.Ok? && !mentions ==> r.value.responseText == reply.responseText
  {
    var formatted :=
      if reply.updatedHtml.Some? then reply.(updatedHtml := Some(FormatLatexForTiptap(reply.updatedHtml.value)))
      else reply;
    if !mentions then Ok(formatted)
    else match formatted.responseText
      case None => Err(MissingResponseText)
      case Some(t) => Ok(formatted.(responseText := Some(MentionSearch(true, t))))
  }

  /** What follows a parsed decision: the search step, the second call, parsing and shaping. */
  function Respond(
    decision: Decision,
    search: string -> string,
    secondCall: (string, bool) -> Result<string, string>,
    parseReply: string -> Result<ChatReply, string>): Result<ChatReply, string>
  {
    var step := SearchStep(decision, search);
    var raw2 :- secondCall(step.0, step.1);
    var reply :- parseReply(StripFences(raw2));
    Finalize(reply, step.1)
  }

  /**
   * The body of the `try`: every failure of a model call, of JSON parsing
   * or of the reply shaping becomes the text of the exception.
   */
  function Attempt(
    firstCall: Result<string, string>,
    parseDecision: string -> Result<Decision, string>,
    search: string -> string,
    secondCall: (string, bool) -> Result<string, string>,
    parseReply: string -> Result<ChatReply, string>): Result<ChatReply, string>
  {
    var raw1 :- firstCall;
    var decision :- parseDecision(StripFences(raw1));
    Respond(decision, search, secondCall, parseReply)
  }

  function NoKeyReply(note: string): ChatReply {
    ChatReply(Some(NoKeyText), Some(note), Some(true))
  }

  function ErrorReply(note: string, error: string): ChatReply {
    ChatReply(Some(ErrorPrefix + error), Some(note), Some(true))
  }

  /**
   * `chat_with_ai`. `firstCall` and `secondCall` are the two model calls
   * (the second sees the search context and whether to mention the
   * search), `parseDecision`/`parseReply` are `json.loads` on the fenced
   * text, `search` is the web search.
   */
  method ChatWithAi(
    note: string,
    apiKeyConfigured: bool,
    firstCall: Result<string, string>,
    parseDecision: string -> Result<Decision, string>,
    search: string -> string,
    secondCall: (string, bool) -> Result<string, string>,
    parseReply: string -> Result<ChatReply, string>) returns (reply: ChatReply)
    ensures !apiKeyConfigured ==> reply == NoKeyReply(note)
    ensures apiKeyConfigured ==>
      var attempt := Attempt(firstCall, parseDecision, search, secondCall, parseReply);
      (attempt.Ok? ==> reply == attempt.value) &&
      (attempt.Err? ==> reply == ErrorReply(note, attempt.error))
    ensures !apiKeyConfigured || Attempt(firstCall, parseDecision, search, secondCall, parseReply).Err? ==>
      reply.updatedHtml == Some(note) && reply.requiresConfirmation == Some(true)
  {
    if !apiKeyConfigured {
      return NoKeyReply(note);
    }
    var attempt := TryChat(firstCall, parseDecision, search, secondCall, parseReply);
    if attempt.Err? {
      return ErrorReply(note, attempt.error);
    }
    reply := attempt.value;
  }

  /** The `try` block of `chat_with_ai`; an error result is the exception it raises. */
  method TryChat(
    firstCall: Result<string, string>,
    parseDecision: string -> Result<Decision, string>,
    search: string -> string,
    secondCall: (string, bool) -> Result<string, string>,
    parseReply: string -> Result<ChatReply, string>) returns (r: Result<ChatReply, string>)
    ensures r == Attempt(firstCall, parseDecision, search, secondCall, parseReply)
  {
    if firstCall.Err? {
      return Err(firstCall.error);
    }
    var decision := parseDecision(StripFences(firstCall.value));
    if decision.Err? {
      return Err(decision.error);
    }
    r := RespondTo(decision.value, search, secondCall, parseReply);
  }

  /** The rest of the `try` block once the decision is parsed. */
  method RespondTo(
    d: Decision,
    search: string -> string,
    secondCall: (string, bool) -> Result<string, string>,
    parseReply: string -> Result<ChatReply, string>) returns (r: Result<ChatReply, string>)
    ensures r == Respond(d, search, secondCall, parseReply)
  {
    var context := [];
    var mentions := false;
    if d.action == Some("tool_use") && d.tool == Some("google_search") {
      if d.query.Some? && d.query.value != [] {
        var results := search(d.query.value);
        context := SearchResultsContext(results);
        mentions := true;
      } else {
        context := MissingQueryContext;
        mentions := true;
      }
    }
    assert (context, mentions) == SearchStep(d, search);
    var secondRaw := secondCall(context, mentions);
    if secondRaw.Err? {
      return Err(secondRaw.error);
    }
    var parsed := parseReply(StripFences(secondRaw.value));
    if parsed.Err? {
      return Err(parsed.error);
    }
    r := ShapeReply(parsed.value, mentions);
  }

  /**
   * The statements after the second reply is parsed: the LaTeX of a new
   * note is formatted, then the search mention is added where needed.
   */
  method ShapeReply(parsed: ChatReply, mentions: bool) returns (r: Result<ChatReply, string>)
    ensures r == Finalize(parsed, mentions)
  {
    var reply := parsed;
    if reply.updatedHtml.Some? {
      reply := reply.(updatedHtml := Some(FormatLatexForTiptap(reply.updatedHtml.value)));
    }
    if mentions {
      if reply.responseText.None? {
        return Err(MissingResponseText);
      }
      if !Contains(Lower(reply.responseText.value), MentionPhrase) {
        reply := reply.(responseText := Some(MentionPrefix + reply.responseText.value));
      }
    }
    return Ok(reply);
  }
}
