/** One turn of `chat_page` in `app.py`: system-prompt assembly, conversion
    of the transcript into chat messages, the web-fallback decision, the
    final response and the transcript update. The chat model, the search
    provider and the vector index are function parameters. */
module Chat {
  import opened Results
  import opened Text
  import Rag
  import WebSearch

  /** The base instructions every system prompt starts with. */
  const SystemPrompt: string :=
    "You are a helpful AI assistant. If RAG context is provided between <context> tags, use it first.\n" +
    "If web results are provided between <web> tags, use them to ground your answer with brief citations (just the domain).\n" +
    "Write clearly and avoid making up facts.\n"

  const ConciseLine: string := "\nPrefer brief, to-the-point responses (3-5 sentences)."
  const DetailedLine: string := "\nProvide an in-depth, structured response when helpful."

  /** The phrase that marks a first answer as a refusal. */
  const RefusalPhrase: string := "I don't know"

  /** First answers shorter than this are taken to be insufficient. */
  const MinAnswerLength: nat := 40

  /** What follows the snippets in the prompt of the second call. */
  const WebInstruction: string :=
    "\n</web>\nUse the web snippets to answer and include brief source domains."

  /** How many web results the fallback asks for. */
  const WebResults: nat := 5

  /** The response-mode radio button. */
  datatype Mode = Concise | Detailed

  /** The sidebar switches that a turn reads. */
  datatype Settings = Settings(mode: Mode, useRag: bool, useWeb: bool)

  /** A transcript entry; the role is the string the page stores. */
  datatype Entry = Entry(role: string, content: string)

  datatype Message = SystemMessage(content: string) | HumanMessage(content: string) | AIMessage(content: string)

  /** The chat model, called with a list of messages; it may raise. */
  type ChatModel = seq<Message> -> Result<string>

  function ModeLine(mode: Mode): string {
    if mode == Concise then ConciseLine else DetailedLine
  }

  /** The retrieved context as it is placed in the system prompt. */
  function ContextBlock(ctx: string): string {
    "\n<context>\n" + ctx + "\n</context>"
  }

  /** The retrieval step raises: the similarity search of an existing index
      is called and fails. */
  predicate RetrievalFails(index: Option<Rag.Index>, useRag: bool, query: string) {
    index.Some? && useRag && index.value(query, Rag.TopK).Failure?
  }

  /** The retrieval step contributes a context block. */
  predicate HasContext(index: Option<Rag.Index>, useRag: bool, query: string) {
    index.Some? && useRag && index.value(query, Rag.TopK).Success? &&
    |index.value(query, Rag.TopK).value| > 0
  }

  /** A base prompt, the context block when the context is non-empty, and
      the mode sentence. */
  function AssemblePrompt(base: string, ctx: string, mode: Mode): (r: string)
    ensures base <= r
    ensures EndsWith(r, ModeLine(mode))
    ensures ctx != "" <==> |r| > |base| + |ModeLine(mode)|
    ensures ctx == "" ==> r == base + ModeLine(mode)
    ensures ctx != "" ==> r[|base|..|r| - |ModeLine(mode)|] == "\n<context>\n" + ctx + "\n</context>"
  {
    var m := ModeLine(mode);
    if ctx == "" then
      var r := base + m;
      assert r[|r| - |m|..] == m;
      r
    else
      var r := base + ContextBlock(ctx) + m;
      assert r[|r| - |m|..] == m;
      assert r[|base|..|r| - |m|] == ContextBlock(ctx);
      r
  }

  /** A text with a known head and tail is the head, its middle and the tail. */
  lemma Reassemble(r: string, head: string, middle: string, tail: string)
    requires head <= r && EndsWith(r, tail) && |head| + |tail| <= |r|
    requires r[|head|..|r| - |tail|] == middle
    ensures r == head + middle + tail
  {
    assert r == r[..|head|] + r[|head|..|r| - |tail|] + r[|r| - |tail|..];
  }

  /** The system prompt of a turn: the base prompt, the retrieved context when
      there is any, and exactly one response-mode sentence last. A raising
      similarity search leaves no prompt. */
  function BuildSystemPrompt(index: Option<Rag.Index>, useRag: bool, query: string, mode: Mode): (r: Result<string>)
    ensures r.Failure? <==> RetrievalFails(index, useRag, query)
    ensures r.Failure? ==> r.error == index.value(query, Rag.TopK).error
    ensures r.Success? ==> EndsWith(r.value, ModeLine(mode))
    ensures r.Success? && !HasContext(index, useRag, query) ==> r.value == SystemPrompt + ModeLine(mode)
    ensures HasContext(index, useRag, query) ==>
              r == Success(SystemPrompt + ContextBlock(Rag.FormatHits(index.value(query, Rag.TopK).value)) +
                           ModeLine(mode))
  {
    if !(index.Some? && useRag) then Success(AssemblePrompt(SystemPrompt, "", mode))
    else
      var ctx := Rag.RelevantContext(index, query, Rag.TopK);
      if ctx.Failure? then Failure(ctx.error)
      else
        var r := AssemblePrompt(SystemPrompt, ctx.value, mode);
        if ctx.value != "" then
          Reassemble(r, SystemPrompt, ContextBlock(ctx.value), ModeLine(mode));
          Success(r)
        else Success(r)
  }

  /** A text that ends with the sentence of `mode` ends with the brief
      sentence exactly in Concise mode and with the detailed one exactly in
      Detailed mode: the two sentences cannot be confused. */
  lemma ModeSentenceIdentifiesMode(r: string, mode: Mode)
    requires EndsWith(r, ModeLine(mode))
    ensures EndsWith(r, ConciseLine) <==> mode == Concise
    ensures EndsWith(r, DetailedLine) <==> mode == Detailed
  {
    var m := ModeLine(mode);
    assert r[|r| - 2] == m[|m| - 2];
    assert ConciseLine[|ConciseLine| - 2] == ')';
    assert DetailedLine[|DetailedLine| - 2] == 'l';
    if EndsWith(r, ConciseLine) {
      var tc := r[|r| - |ConciseLine|..];
      assert tc[|tc| - 2] == r[|r| - 2];
    }
    if EndsWith(r, DetailedLine) {
      var td := r[|r| - |DetailedLine|..];
      assert td[|td| - 2] == r[|r| - 2];
    }
  }

  /** Hence an assembled prompt tells the mode: it ends with the brief
      sentence exactly for Concise and with the detailed one otherwise. */
  lemma ModeLineIdentifiesMode(index: Option<Rag.Index>, useRag: bool, query: string, mode: Mode)
    ensures var r := BuildSystemPrompt(index, useRag, query, mode);
            r.Success? ==>
              (EndsWith(r.value, ConciseLine) <==> mode == Concise) &&
              (EndsWith(r.value, DetailedLine) <==> mode == Detailed)
  {
    var r := BuildSystemPrompt(index, useRag, query, mode);
    if r.Success? {
      ModeSentenceIdentifiesMode(r.value, mode);
    }
  }

  function MessageOf(e: Entry): Message {
    if e.role == "user" then HumanMessage(e.content) else AIMessage(e.content)
  }

  /** The message list of the first chat call: the system message, then one
      message per transcript entry in order, "user" entries as human
      messages and every other role as an AI message. */
  function ToMessages(system: string, transcript: seq<Entry>): (r: seq<Message>)
    ensures |r| == 1 + |transcript|
    ensures r[0] == SystemMessage(system)
    ensures forall i :: 0 <= i < |transcript| ==>
              r[i + 1].content == transcript[i].content &&
              !r[i + 1].SystemMessage? &&
              (r[i + 1].HumanMessage? <==> transcript[i].role == "user")
  {
    [SystemMessage(system)] + seq(|transcript|, i requires 0 <= i < |transcript| => MessageOf(transcript[i]))
  }

  /** The transcript entry a human or AI message stands for. */
  function EntryOf(m: Message): Entry {
    match m
    case HumanMessage(c) => Entry("user", c)
    case AIMessage(c) => Entry("assistant", c)
    case SystemMessage(c) => Entry("system", c)
  }

  /** Reads a message list back into its system prompt and transcript. */
  function FromMessages(ms: seq<Message>): (string, seq<Entry>)
    requires |ms| > 0
  {
    (ms[0].content, seq(|ms| - 1, i requires 0 <= i < |ms| - 1 => EntryOf(ms[i + 1])))
  }

  predicate KnownRole(e: Entry) {
    e.role == "user" || e.role == "assistant"
  }

  /** Every role is one the page writes. */
  predicate KnownRoles(transcript: seq<Entry>) {
    forall e :: e in transcript ==> KnownRole(e)
  }

  /** Conversion loses nothing for transcripts the page writes. */
  lemma MessagesRoundTrip(system: string, transcript: seq<Entry>)
    requires KnownRoles(transcript)
    ensures FromMessages(ToMessages(system, transcript)) == (system, transcript)
  {
    var ms := ToMessages(system, transcript);
    var back := FromMessages(ms).1;
    forall i | 0 <= i < |transcript|
      ensures back[i] == transcript[i]
    {
      assert transcript[i] in transcript;
      assert back[i] == EntryOf(ms[i + 1]);
      assert ms[i + 1] == MessageOf(transcript[i]);
    }
    assert back == transcript;
  }

  /** Appending an entry appends its message. */
  lemma ToMessagesSnoc(system: string, transcript: seq<Entry>, e: Entry)
    ensures ToMessages(system, transcript + [e]) == ToMessages(system, transcript) + [MessageOf(e)]
  {
    var t := transcript + [e];
    var a := ToMessages(system, t);
    var b := ToMessages(system, transcript) + [MessageOf(e)];
    forall i | 0 <= i < |a|
      ensures a[i] == b[i]
    {
      if 0 < i <= |transcript| {
        assert t[i - 1] == transcript[i - 1];
      }
    }
  }

  /** The web-fallback decision. */
  predicate NeedsWebFallback(useWeb: bool, resp: string)
    ensures !useWeb ==> !NeedsWebFallback(useWeb, resp)
    ensures useWeb && RefusalPhrase <= resp ==> NeedsWebFallback(useWeb, resp)
    ensures useWeb && |resp| < MinAnswerLength ==> NeedsWebFallback(useWeb, resp)
  {
    useWeb && (Contains(resp, RefusalPhrase) || |resp| < MinAnswerLength)
  }

  /** The fallback fires exactly when web search is on and the answer holds
      the refusal phrase somewhere or is shorter than 40 characters. */
  lemma NeedsWebFallbackIff(useWeb: bool, resp: string)
    ensures NeedsWebFallback(useWeb, resp) <==>
              useWeb && ((exists i :: OccursAt(resp, RefusalPhrase, i)) || |resp| < 40)
  {
    ContainsIff(resp, RefusalPhrase);
  }

  /** An answer of exactly 40 characters without the phrase is kept. */
  lemma NoFallbackAtForty(resp: string)
    requires |resp| == 40
    requires forall i :: !OccursAt(resp, RefusalPhrase, i)
    ensures !NeedsWebFallback(true, resp)
  {
    ContainsIff(resp, RefusalPhrase);
  }

  /** An answer that mentions the phrase triggers the fallback however long. */
  lemma FallbackOnPhrase(resp: string, i: nat)
    requires OccursAt(resp, RefusalPhrase, i)
    ensures NeedsWebFallback(true, resp)
  {
    ContainsIff(resp, RefusalPhrase);
  }

  /** "I don't know the capital." holds the phrase, so it triggers. */
  lemma CapitalExampleTriggers()
    ensures NeedsWebFallback(true, "I don't know the capital.")
  {
    FallbackOnPhrase("I don't know the capital.", 0);
  }

  function ModelErrorText(e: string): string {
    "(Model error: " + e + ")."
  }

  /** The answer of the first call: its content, or the inline error text. */
  function FirstResponse(outcome: Result<string>): (r: string)
    ensures outcome.Success? ==> r == outcome.value
    ensures outcome.Failure? ==> r == ModelErrorText(outcome.error)
  {
    match outcome
    case Success(c) => c
    case Failure(e) => ModelErrorText(e)
  }

  /** An occurrence inside `e` is an occurrence inside `a + e + b`. */
  lemma OccursInside(a: string, e: string, b: string, pat: string, i: nat)
    requires OccursAt(e, pat, i)
    ensures OccursAt(a + e + b, pat, |a| + i)
  {
    var s := a + e + b;
    assert s[|a| + i..|a| + i + |pat|] == e[i..i + |pat|];
  }

  /** The error text goes through the same check: a message shorter than 24
      characters makes it shorter than 40, so it fires by length. */
  lemma ShortModelErrorFallback(e: string)
    requires |e| < 24
    ensures NeedsWebFallback(true, FirstResponse(Failure(e)))
  {
    assert |ModelErrorText(e)| == 16 + |e|;
  }

  /** A model error whose message holds the phrase fires whatever its length. */
  lemma RefusingModelErrorFallback(e: string)
    requires Contains(e, RefusalPhrase)
    ensures NeedsWebFallback(true, FirstResponse(Failure(e)))
  {
    ContainsIff(e, RefusalPhrase);
    var i :| OccursAt(e, RefusalPhrase, i);
    OccursInside("(Model error: ", e, ").", RefusalPhrase, i);
    FallbackOnPhrase(ModelErrorText(e), 14 + i);
  }

  /** The system prompt of the web-grounded second call. */
  function WebPrompt(system: string, snippets: string): string {
    system + "\n<web>\n" + snippets + WebInstruction
  }

  function WebErrorNote(e: string): string {
    "\n(Web search error: " + e + ")"
  }

  /** The outcome of the web fallback once it fired. */
  datatype WebStep = WebStep(
    secondPrompt: Option<seq<Message>>,  // messages of the second chat call, if made
    response: string)                    // the answer after the fallback

  /** The fallback after the snippet search: a second call only for
      non-empty snippets; its reply replaces the answer, or its error is
      appended to the first answer. */
  function WebFallback(system: string, input: string, first: string, snippets: Result<string>,
                       chat: ChatModel): (w: WebStep)
    ensures w.secondPrompt.Some? <==> snippets.Success? && snippets.value != ""
    ensures w.secondPrompt.None? ==> w.response == first
    ensures w.secondPrompt.Some? ==>
              w.secondPrompt.value == [SystemMessage(WebPrompt(system, snippets.value)), HumanMessage(input)]
    ensures w.secondPrompt.Some? && chat(w.secondPrompt.value).Success? ==>
              w.response == chat(w.secondPrompt.value).value
    ensures w.secondPrompt.Some? && chat(w.secondPrompt.value).Failure? ==>
              w.response == first + WebErrorNote(chat(w.secondPrompt.value).error)
  {
    match snippets
    case Failure(_) => WebStep(None, first)
    case Success(s) =>
      if s == "" then WebStep(None, first)
      else
        var second := [SystemMessage(WebPrompt(system, s)), HumanMessage(input)];
        match chat(second)
        case Success(c) => WebStep(Some(second), c)
        case Failure(e) => WebStep(Some(second), first + WebErrorNote(e))
  }

  /** The stored answer is the first answer, the first answer with a web
      error note, or the whole reply of the second call. */
  lemma ResponseShapes(system: string, input: string, first: string, snippets: Result<string>, chat: ChatModel)
    ensures var w := WebFallback(system, input, first, snippets, chat);
            w.response == first ||
            (exists e :: w.response == first + WebErrorNote(e)) ||
            (w.secondPrompt.Some? && chat(w.secondPrompt.value) == Success(w.response))
  {
    var w := WebFallback(system, input, first, snippets, chat);
    if w.secondPrompt.Some? && chat(w.secondPrompt.value).Failure? {
      var e := chat(w.secondPrompt.value).error;
      assert w.response == first + WebErrorNote(e);
    }
  }

  /** The second call carries the first system prompt extended by the web
      block, and only the current input: the history is not resent. */
  lemma SecondPromptShape(system: string, input: string, first: string, snippets: Result<string>, chat: ChatModel)
    ensures var w := WebFallback(system, input, first, snippets, chat);
            w.secondPrompt.Some? ==>
              |w.secondPrompt.value| == 2 &&
              system + "\n<web>\n" <= w.secondPrompt.value[0].content &&
              w.secondPrompt.value[1] == HumanMessage(input)
  {
  }

  /** What happened during one turn. */
  datatype TurnTrace = TurnTrace(
    system: string,                      // system prompt of the first call
    firstPrompt: seq<Message>,           // messages of the first call
    first: string,                       // its answer or inline error
    searched: bool,                      // the snippet search was called
    secondPrompt: Option<seq<Message>>,  // messages of the second call, if made
    response: string)                    // what the assistant entry stores

  /** The run ends in an uncaught exception before any answer: the
      similarity search raises, or constructing the chat client does. */
  predicate TurnAborts(input: string, cfg: Settings, index: Option<Rag.Index>, client: Result<ChatModel>) {
    RetrievalFails(index, cfg.useRag, input) || client.Failure?
  }

  /** The per-turn logic after a non-empty input was taken. `client` is the
      outcome of constructing the chat client. The first call sees the whole
      transcript including the new input, and the snippet search runs exactly
      when the fallback fires. */
  function Respond(history: seq<Entry>, input: string, cfg: Settings, index: Option<Rag.Index>,
                   client: Result<ChatModel>, api: WebSearch.SearchApi): (r: Result<TurnTrace>)
    ensures r.Failure? <==> TurnAborts(input, cfg, index, client)
    ensures r.Success? ==>
              var t := r.value;
              var chat := client.value;
              t.system == BuildSystemPrompt(index, cfg.useRag, input, cfg.mode).value &&
              t.firstPrompt == ToMessages(t.system, history + [Entry("user", input)]) &&
              t.first == FirstResponse(chat(t.firstPrompt)) &&
              (t.searched <==> NeedsWebFallback(cfg.useWeb, t.first)) &&
              (!t.searched ==> t.secondPrompt.None? && t.response == t.first) &&
              (t.searched ==>
                 WebStep(t.secondPrompt, t.response) ==
                 WebFallback(t.system, input, t.first, WebSearch.SummarizedSnippets(input, WebResults, api), chat))
  {
    match BuildSystemPrompt(index, cfg.useRag, input, cfg.mode)
    case Failure(e) => Failure(e)
    case Success(system) =>
      match client
      case Failure(e) => Failure(e)
      case Success(chat) =>
        var prompt := ToMessages(system, history + [Entry("user", input)]);
        var first := FirstResponse(chat(prompt));
        if !NeedsWebFallback(cfg.useWeb, first) then
          Success(TurnTrace(system, prompt, first, false, None, first))
        else
          var w := WebFallback(system, input, first, WebSearch.SummarizedSnippets(input, WebResults, api), chat);
          Success(TurnTrace(system, prompt, first, true, w.secondPrompt, w.response))
  }

  /** With web search off the first answer is stored and the search provider
      is never asked. */
  lemma WebOffKeepsFirst(history: seq<Entry>, input: string, cfg: Settings, index: Option<Rag.Index>,
                         client: Result<ChatModel>, api: WebSearch.SearchApi)
    requires !cfg.useWeb
    ensures var r := Respond(history, input, cfg, index, client, api);
            r.Success? ==> !r.value.searched && r.value.secondPrompt.None? && r.value.response == r.value.first
  {
  }

  /** A search that raises or finds nothing leaves the first answer as is and
      makes no second chat call. */
  lemma EmptySearchKeepsFirst(history: seq<Entry>, input: string, cfg: Settings, index: Option<Rag.Index>,
                              client: Result<ChatModel>, api: WebSearch.SearchApi)
    requires api(input, WebResults).Failure? ||
             |WebSearch.ResultsOf(api(input, WebResults).value)| == 0
    ensures var r := Respond(history, input, cfg, index, client, api);
            r.Success? ==> r.value.secondPrompt.None? && r.value.response == r.value.first
  {
    var snippets := WebSearch.SummarizedSnippets(input, WebResults, api);
    assert snippets.Failure? || snippets.value == "";
  }

  /** A user action on the page. */
  datatype Action = Submit(input: string) | ClearChat

  /** The transcript after a turn: the user entry, then the assistant entry. */
  function AddTurn(transcript: seq<Entry>, input: string, resp: string): (t': seq<Entry>)
    ensures |t'| == |transcript| + 2
    ensures t'[..|transcript|] == transcript
    ensures t'[|transcript|] == Entry("user", input)
    ensures t'[|transcript| + 1] == Entry("assistant", resp)
  {
    transcript + [Entry("user", input), Entry("assistant", resp)]
  }

  /** The transcript after one run of the page. An empty input changes
      nothing. Otherwise the user entry is stored first; the assistant entry
      follows unless the run aborts, which leaves the user entry alone. */
  function Step(transcript: seq<Entry>, action: Action, cfg: Settings, index: Option<Rag.Index>,
                client: Result<ChatModel>, api: WebSearch.SearchApi): (t': seq<Entry>)
    ensures action == ClearChat ==> t' == []
    ensures action == Submit("") ==> t' == transcript
    ensures action.Submit? && action.input != "" && TurnAborts(action.input, cfg, index, client) ==>
              t' == transcript + [Entry("user", action.input)]
    ensures action.Submit? && action.input != "" && !TurnAborts(action.input, cfg, index, client) ==>
              t' == AddTurn(transcript, action.input,
                            Respond(transcript, action.input, cfg, index, client, api).value.response)
  {
    match action
    case ClearChat => []
    case Submit(input) =>
      if input == "" then transcript
      else
        match Respond(transcript, input, cfg, index, client, api)
        case Failure(_) => transcript + [Entry("user", input)]
        case Success(t) => AddTurn(transcript, input, t.response)
  }

  /** The page writes user and assistant entries in alternation. */
  predicate Alternating(transcript: seq<Entry>) {
    |transcript| % 2 == 0 &&
    forall i :: 0 <= i < |transcript| ==> transcript[i].role == (if i % 2 == 0 then "user" else "assistant")
  }

  /** Adding a turn keeps the transcript alternating. */
  lemma AddTurnKeepsAlternating(transcript: seq<Entry>, input: string, resp: string)
    requires Alternating(transcript)
    ensures Alternating(AddTurn(transcript, input, resp))
  {
    var t' := AddTurn(transcript, input, resp);
    forall i | 0 <= i < |t'|
      ensures t'[i].role == (if i % 2 == 0 then "user" else "assistant")
    {
      if i < |transcript| {
        assert t'[i] == t'[..|transcript|][i];
      }
    }
  }

  /** From an alternating transcript, a run keeps the alternation exactly
      when it does not abort after storing the user entry. */
  lemma StepAlternatingIff(transcript: seq<Entry>, action: Action, cfg: Settings, index: Option<Rag.Index>,
                           client: Result<ChatModel>, api: WebSearch.SearchApi)
    requires Alternating(transcript)
    ensures Alternating(Step(transcript, action, cfg, index, client, api)) <==>
              !(action.Submit? && action.input != "" && TurnAborts(action.input, cfg, index, client))
  {
    if action.Submit? && action.input != "" && !TurnAborts(action.input, cfg, index, client) {
      var resp := Respond(transcript, action.input, cfg, index, client, api).value.response;
      AddTurnKeepsAlternating(transcript, action.input, resp);
    }
  }

  /** Every run keeps the roles to "user" and "assistant", aborted or not,
      so the message conversion can always be read back. */
  lemma StepKeepsKnownRoles(transcript: seq<Entry>, action: Action, cfg: Settings, index: Option<Rag.Index>,
                            client: Result<ChatModel>, api: WebSearch.SearchApi)
    requires KnownRoles(transcript)
    ensures KnownRoles(Step(transcript, action, cfg, index, client, api))
  {
  }

  /** Alternating transcripts use only roles the page writes. */
  lemma AlternatingKnownRoles(transcript: seq<Entry>)
    requires Alternating(transcript)
    ensures KnownRoles(transcript)
  {
  }
}
