# NeoStats chatbot: turn logic, document loading and snippet formatting

This project is a Dafny model of the decision logic of the NeoStats AI chatbot. The chatbot is a Streamlit
app. It answers with a chat model, grounds answers in uploaded documents through a FAISS index (RAG), and
falls back to Tavily web search when the first answer looks weak. Every call into a hosted service is a
function parameter of the model:

- the chat model is `seq<Message> -> Result<string>`;
- the chat client is the `Result` of constructing `ChatGroq` (app.py:89-96), a `Result<ChatModel>`, since
  the constructor may raise;
- the Tavily client is `(query, max_results) -> Result<response>`;
- the vector index is `(query, k) -> Result<seq<page_content>>`, since its similarity search embeds the
  query through a remote service and may raise;
- the PDF and text loaders are `path -> Result<seq<Document>>`.

A Python exception becomes `Failure(msg)`, where `msg` is the exception's string form.

Modules:

- `Results` (`results.dfy`): the `Result` and `Option` outcomes.
- `Text` (`text.dfy`): the Python string operations the code uses. These are `in` on strings, `str.join`,
  `str(int)` and `str.lower`.
- `Rag` (`rag.dfy`): `os.path.splitext`, the case-insensitive loader dispatch of `load_docs_from_paths`,
  and the numbered context block of `relevant_context`.
- `WebSearch` (`websearch.dfy`): normalisation of Tavily results into `{title, url, content}` records,
  and the snippet text of `summarized_snippets`.
- `Chat` (`chat.dfy`): one run of `chat_page`. It covers system-prompt assembly, the transcript-to-message
  conversion, the web-fallback decision, the final response, and the transcript update, including Clear.

Behaviour of `app.py` and `utils/rag.py` that is easy to misread:

- `"I don't know the capital."` contains the refusal phrase, so it triggers the fallback
  (`Chat.CapitalExampleTriggers`).
- Loader failures are swallowed only for unrecognised extensions. A failing `.pdf`, `.txt` or `.md` load
  aborts the whole call (`Rag.StrictFailurePropagates`).
- A failing or empty web search leaves the first answer unchanged and adds no note. The
  `"(Web search error: …)"` note is added only when the second chat call raises.
- Normalisation does not cut the result list to `max_results`. Only the provider is asked for at most 5.
- The similarity search (app.py:79) and the construction of the chat client (app.py:89-96) are outside
  any `try`. When either raises, the run ends after the user entry was stored (app.py:71), so the
  transcript gains a user entry with no answer (`Chat.Step`, `Chat.StepAlternatingIff`).

## Model

| member | source | states |
|---|---|---|
| Text.Contains | app.py:112 | Python's `in` on strings, a scan of every suffix for the phrase as a prefix: the empty phrase is always found and a phrase longer than the text never is; `Text.ContainsIff` proves it means "some slice equals the phrase" |
| Text.ContainsIff | app.py:112 | the scan holds exactly when some slice of the answer equals the phrase |
| Text.Join | utils/rag.py:38 | `sep.join`: empty for no parts, the part itself for one, and starts with the first part otherwise |
| Text.JoinSnoc | utils/websearch.py:23 | one more part extends the joined text by the separator and that part |
| Text.JoinEmptyIff | utils/rag.py:38 | when the first part is non-empty, the join is empty exactly when there are no parts |
| Text.NatToString | utils/rag.py:38 | `str(i+1)` is a non-empty string of digits with no leading zero |
| Text.DecimalRoundTrip | utils/rag.py:38 | reading the digits back gives the number |
| Text.Lower | utils/rag.py:13 | `.lower()` keeps the length and leaves no ASCII capital |
| Text.LowerEqIff | utils/rag.py:13-17 | lower-casing equals a lower-case target exactly when each character matches it in either case |
| Rag.RFind | utils/rag.py:13 | `rfind` gives the last index holding the character, or -1 when the character is absent |
| Rag.Basename | utils/rag.py:13 | the last path component is a suffix with no '/' that follows a '/' or starts the path |
| Rag.SplitExt | utils/rag.py:13 | root plus extension is the path; the extension is empty or one dot followed by no dot and no '/' |
| Rag.SplitExtIff | utils/rag.py:13 | the extension is non-empty exactly when some dot of the file name follows a non-dot character |
| Rag.LoaderExamples | utils/rag.py:13-18 | `docs/report.PDF` goes to the PDF loader and `notes.Md` to the text loader |
| Rag.SplitExtExamples | utils/rag.py:13 | `.bashrc` (leading dot only) and `v1.2/README` (dot in a directory) have no extension |
| Rag.KindOf | utils/rag.py:13-18 | which branch of the dispatch a path takes: the PDF branch only for a lower-cased extension `.pdf`, the text branch only for `.txt` or `.md`, and both only for a non-empty extension; `Rag.KindOfIgnoresCase` characterises each branch |
| Rag.DispatchNeedsExtension | utils/rag.py:13-18 | only a file name with a real extension (a dot after a non-dot) reaches the PDF or text loader |
| Rag.KindOfIgnoresCase | utils/rag.py:13-18 | the PDF branch is taken exactly for `.pdf` in any case; the text branch exactly for `.txt` or `.md` in any case |
| Rag.SameKindUpToCase | utils/rag.py:13-18 | extensions that differ only in letter case go to the same loader |
| Rag.LoadPath | utils/rag.py:14-24 | PDF and text branches pass a loader failure on; the fallback branch never fails and adds nothing on failure |
| Rag.LoadDocsFromPaths | utils/rag.py:10-25 | fails exactly when some path fails; otherwise returns every path's documents in order (which error is raised is stated by `Rag.StrictFailurePropagates`) |
| Rag.GatheredAppend | utils/rag.py:11-25 | the documents of `a + b` are those of `a` followed by those of `b` |
| Rag.LoadDocsAppend | utils/rag.py:12-25 | loading `a + b` fails with `a`'s error if `a` fails, else with `b`'s, else concatenates the two results |
| Rag.UnknownFailureSkipped | utils/rag.py:19-24 | an unknown-extension path whose load raises is skipped, and later paths are still loaded |
| Rag.StrictFailurePropagates | utils/rag.py:14-18 | a raising `.pdf`/`.txt`/`.md` load after successful ones makes the whole call raise with its error |
| Rag.FormatHits | utils/rag.py:38 | the numbered hits are empty exactly when there are no hits, and otherwise start with `[1] ` and the first hit |
| Rag.FormatHitsSingle | utils/rag.py:38 | a single hit is rendered as `[1] ` and the hit, with nothing after it |
| Rag.RelevantContext | utils/rag.py:34-39 | `""` without an index; with one, raises exactly when the similarity search raises, with its error; otherwise it is the numbered hits, empty exactly when there are none |
| Rag.FormatHitsSnoc | utils/rag.py:38 | one more hit appends a blank line, `[n+1] ` and that hit, so numbering is 1-based in result order |
| WebSearch.Field | utils/websearch.py:13-15 | `get(key, "")` is the stored value, or `""` when the key is missing |
| WebSearch.ResultsOf | utils/websearch.py:11 | the hits are the value stored under "results", or none when the key is missing |
| WebSearch.NormalizeItem | utils/websearch.py:12-16 | a record's title, url and content are the hit's values, with `""` for missing keys |
| WebSearch.Normalize | utils/websearch.py:10-17 | exactly one record per hit, in order, with no truncation; no "results" key gives `[]` |
| WebSearch.NormalizeItemRoundTrip | utils/websearch.py:12-16 | normalising the dictionary of a record gives the record back |
| WebSearch.NormalizeItemDropsExtraKeys | utils/websearch.py:12-16 | keys other than title, url and content do not change the record |
| WebSearch.Search | utils/websearch.py:5-17 | raises exactly when the client raises, with its error; otherwise returns the normalised hits, one record per hit |
| WebSearch.Excerpt | utils/websearch.py:23 | `content[:300]` is a prefix of the content of length min(300, len) |
| WebSearch.SnippetEntry | utils/websearch.py:23 | a snippet starts with `- title — url` and a newline, and always ends with `...` |
| WebSearch.SnippetEntryExcerpt | utils/websearch.py:23 | between head and `...` sits the whole content when it fits, else its first 300 characters |
| WebSearch.FormatSnippets | utils/websearch.py:21-23 | empty exactly when there are no items; a single item gives exactly its snippet; more items start with the first item's snippet |
| WebSearch.FormatSnippetsSnoc | utils/websearch.py:23 | one more item appends a blank line and its snippet, so item order is kept |
| WebSearch.SummarizedSnippets | utils/websearch.py:19-23 | raises exactly when the search raises, with its error; otherwise is the formatted snippets of the normalised hits, `""` exactly when there are no hits |
| Chat.AssemblePrompt | app.py:76-86 | the prompt starts with the base text and ends with the mode sentence; with no context it is exactly the two; there is something between them exactly when the context is non-empty, and then it is the `<context>` block |
| Chat.BuildSystemPrompt | app.py:76-86 | raises exactly when retrieval runs and the similarity search raises; otherwise it is the base prompt, then the `<context>` block of the numbered hits when an index exists, RAG is on and there are hits, then the one mode sentence |
| Chat.ModeSentenceIdentifiesMode | app.py:83-86 | a text ending in one mode's sentence ends in the brief sentence exactly for Concise and in the detailed one exactly for Detailed |
| Chat.ModeLineIdentifiesMode | app.py:83-86 | a built prompt ends with the brief sentence exactly in Concise mode, and with the detailed one exactly otherwise |
| Chat.ToMessages | app.py:98-104 | one system message, then one message per entry in order with the same content; human exactly for role "user" |
| Chat.MessagesRoundTrip | app.py:98-104 | for user/assistant transcripts, the message list reads back to the system prompt and transcript |
| Chat.ToMessagesSnoc | app.py:99-104 | appending an entry appends its message |
| Chat.NeedsWebFallback | app.py:112 | the fallback condition: never with web search off; with it on, an answer starting with the phrase or under 40 characters fires; `Chat.NeedsWebFallbackIff` states the full condition |
| Chat.NeedsWebFallbackIff | app.py:112 | the fallback fires exactly when web search is on and the answer holds "I don't know" or is under 40 characters |
| Chat.NoFallbackAtForty | app.py:112 | an answer of exactly 40 characters without the phrase does not fire |
| Chat.FallbackOnPhrase | app.py:112 | an answer holding the phrase fires whatever its length |
| Chat.CapitalExampleTriggers | app.py:112 | "I don't know the capital." fires |
| Chat.FirstResponse | app.py:106-109 | the first answer is the reply's content, or `(Model error: e).` when the call raised |
| Chat.ShortModelErrorFallback | app.py:106-112 | a model error with a message under 24 characters fires the fallback by length |
| Chat.RefusingModelErrorFallback | app.py:106-112 | a model error whose message holds the phrase fires the fallback |
| Chat.WebFallback | app.py:113-124 | a second call is made exactly when the snippets are non-empty, with the web prompt and the input only; without it the first answer stays; its reply replaces the answer, or its error note is appended |
| Chat.Respond | app.py:71-124 | the run aborts exactly when the similarity search or the client construction raises; otherwise the first call gets the system prompt and the full history plus the input, the search runs exactly when the fallback fires, and the answer is the first answer without it and what the web fallback gives with it |
| Chat.ResponseShapes | app.py:113-124 | after the fallback the answer is the first answer, the first answer plus a web-error note, or the whole reply of the second call |
| Chat.WebOffKeepsFirst | app.py:112 | with web search off, a run that does not abort searches nothing and stores the first answer |
| Chat.EmptySearchKeepsFirst | app.py:113-117 | in a run that does not abort, a raising or empty search leaves the first answer and makes no second call |
| Chat.SecondPromptShape | app.py:117-122 | the second call has two messages: the first system prompt extended by `<web>`, and the current input only |
| Chat.Step | app.py:58-126 | Clear empties the transcript; empty input changes nothing; an aborted run adds only the user entry; otherwise the old entries are kept and one user and one assistant entry are added |
| Chat.AddTurn | app.py:71-126 | a turn keeps the old entries and adds exactly a user entry with the input, then an assistant entry with the answer |
| Chat.AddTurnKeepsAlternating | app.py:71-126 | adding a turn to an alternating transcript keeps it alternating |
| Chat.StepAlternatingIff | app.py:67-126 | from an alternating transcript, a run keeps the alternation of user and assistant entries exactly when it does not abort |
| Chat.StepKeepsKnownRoles | app.py:67-126 | every run, aborted or not, writes only the roles "user" and "assistant" |
| Chat.AlternatingKnownRoles | app.py:71-126 | an alternating transcript only uses the roles "user" and "assistant" |

## Left out

- The Streamlit UI is not modelled. This covers the sidebar widgets, page navigation, rendering and
  `st.experimental_rerun` (app.py:14-65, 127-139). Clear and submit are modelled as two separate actions.
  After Clear the page reruns, so no input is read in the same run.
- The upload block is not modelled (app.py:45-56). It writes temporary files and, while files are
  selected, re-runs `load_docs_from_paths` and `build_vectorstore` on every run, before the input is read
  at app.py:67. `Chat.Step` models a run in which that block completed. If it raises (a failing `.pdf`,
  `.txt` or `.md` load, or an embedding or FAISS error), the input is dropped and the transcript is
  unchanged.
- `build_vectorstore` is not modelled. Chunking with `RecursiveCharacterTextSplitter`, embedding, and the
  FAISS index are library calls. The `CHUNK_SIZE`/`CHUNK_OVERLAP` constants (1200/150) are not used. The
  index appears only through its similarity search, which is called with `TOP_K` = 4.
- The model assumes a built index is truthy. The `if st.session_state.vectorstore` test is modelled as
  "an index exists".
- The chat, embedding and Tavily network calls are not modelled beyond their success or error outcome. The
  similarity search and the chat-client constructor may raise.
- Chat.Respond: states when a run aborts but not with which error, because the page stores no error text
  for an aborted run.
- Provider selection in `AI_UseCase/models/llm.py` and `AI_UseCase/models/embeddings.py` is not modelled.
  `app.py` hard-codes its chat model and ignores the provider selector.
- Environment parsing in `AI_UseCase/config/config.py` is not modelled.
- PDF and text decoding inside the loaders is not modelled. A loader is an abstract function.
- `os.path.splitext` is modelled for POSIX paths only, with '/' as the separator. The Windows backslash
  separator is not handled.
- Text.Lower: lower-cases ASCII letters only, where Python's `str.lower` covers all of Unicode. This does
  not change the loader dispatch. The only non-ASCII character that lower-cases to ASCII is the Kelvin sign,
  which becomes 'k', and 'k' is in none of `.pdf`, `.txt` or `.md`.
- Tavily response values are modelled only as strings (for hit fields) and lists of hits (for response
  keys). Other value types are not modelled. What the source does with them:
  - a `"results"` value of `None` makes the loop at utils/websearch.py:11 raise `TypeError`;
  - a `content` that cannot be sliced, such as `None` or a number, makes `it['content'][:300]` at
    utils/websearch.py:23 raise `TypeError`;
  - in both cases `summarized_snippets` raises, app.py:113-116 turns that into `snippets = ""`, no
    second call is made and the first answer is kept;
  - only a non-string `title` or `url`, and a `content` that is a list, are formatted by Python's
    `str()` (the list after slicing to its first 300 elements).
- A missing chat input (`None`) and an empty one are both modelled as `""`. The page treats them alike.
