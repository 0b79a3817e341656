# Imagine chatbot — a Dafny model of its turn logic

The Imagine chatbot is a small Streamlit application. A user types a
question. The app can look the question up on the web: DuckDuckGo's instant
answer first, then a Wikipedia summary. It asks a Gemini model, through an
OpenAI-compatible client, to answer with that context. When the question asks
for a picture, it also fetches one from Pollinations, and it appends both the
question and the answer to the session's chat log.

This project models that logic and proves properties of it.

- `chatbot.py` is modelled as pure functions over the replies of the outside
  services:
  - the two search adapters and the combined search;
  - the image-intent keyword test;
  - the model call's request and answer;
  - the Pollinations URL, including `requests.utils.quote`, and the image
    reply.
- `app.py` in turn is modelled in two parts:
  - pure functions for what one turn computes: the context choice, the
    policy-line filter, the image gating, the assistant entry and the list of
    outside calls in order;
  - a `ChatSession` class whose `messages` field is the
    `st.session_state.messages` log. Its methods append to the log and clear
    it in place.

Each call to an outside service becomes a value: a `SearchReply`,
`Completion` or `ImageReply` for what came back, and a `Request` for what was
asked. A turn is therefore a function of the user's input, the two sidebar
settings and a `Replies` record.

Files:

- `options.dfy`: the `Option` type.
- `text.dfy`: the Python string operations the code uses, with their
  properties. These are `lower`, `strip`, `replace`, `in`, `split` and
  `join`. It also has `upper`, which the code never calls; it serves only to
  state that the keyword test ignores case.
- `quote.dfy`: UTF-8 encoding and percent-encoding (section 2.1 of RFC 3986),
  each with its decoder.
- `chatbot.dfy`: the `chatbot.py` functions.
- `app.dfy`: the `app.py` turn and the session log.

Two details of the code are followed literally, although a looser reading
of the app's purpose would suggest otherwise:

- Both search adapters accept exactly status 200 (`chatbot.py:28`, `:48`).
  Any other status, 2xx included, yields no result.
- The image is stored in the assistant entry only when the fetched body is
  non-empty (`app.py:116`). A 200 reply with an empty body leaves the entry
  without an image.

## Model

| member | source | states |
|---|---|---|
| Chatbot.SourcedRoundTrip | chatbot.py:31 | An adapter's text `Source: <name>` + blank line + snippet can be parsed back into exactly that name and snippet. |
| Chatbot.AdapterResultSpec | chatbot.py:19-55 | `DuckDuckGo` (web_search_duckduckgo) and `Wikipedia` (web_search_wikipedia), both through `AdapterResult`: either adapter (DuckDuckGo's `Abstract`, Wikipedia's `extract`) gives a result exactly when the reply is status 200 with a non-empty field. The result is then non-empty, names its source and carries the field unchanged. A raised call, another status or an absent or empty field gives none. |
| Chatbot.WikipediaTitle | chatbot.py:42 | The page title holds no space character. |
| Chatbot.WikipediaTitleShape | chatbot.py:42 | The title is the query with spaces turned into `_` character by character, after dropping the maximal leading and trailing runs of whitespace: the title neither begins nor ends with whitespace. The dropped runs hold no space, so spaces at the edges survive as `_`. |
| Chatbot.WikipediaUrl | chatbot.py:44 | The summary URL is the REST summary base followed by exactly the page title. |
| Chatbot.WebSearchCombined | chatbot.py:61-68 | `WebSearchCombined` (web_search_combined): the context is DuckDuckGo's result when there is one. Otherwise it is Wikipedia's, and otherwise the "No web data found" notice naming the query. |
| Chatbot.SearchRequests | chatbot.py:61-65 | The combined search always looks up DuckDuckGo first. It asks Wikipedia second, for the query's title URL, exactly when DuckDuckGo gave nothing. |
| Chatbot.DuckDuckGoWins | chatbot.py:62-64 | With a DuckDuckGo result, the Wikipedia reply cannot change the context, and the context reads back as a DuckDuckGo-sourced snippet. |
| Chatbot.WikipediaSecond | chatbot.py:65-67 | Without a DuckDuckGo result but with a Wikipedia one, the context reads back as the Wikipedia snippet. |
| Chatbot.CombinedRevealsSource | chatbot.py:61-68 | The context has a `Source:` header that parses exactly when one of the adapters found something, so the fallback notice is never taken for sourced data. |
| Chatbot.AnyKeywordInIff | chatbot.py:91-93 | `any(word in s for word in keywords)` holds exactly when some keyword occurs in `s` at some offset. |
| Chatbot.NeedsImageIff | chatbot.py:91-93 | `NeedsImage` (the `needs_image` test): a query needs an image exactly when one of the six keywords occurs in its lower-cased form. |
| Chatbot.NeedsImageIgnoresCase | chatbot.py:91 | The keyword test gives the same answer for a query and its upper-cased form. |
| Chatbot.NeedsImageNonEmpty | chatbot.py:91-93 | An empty query never needs an image. |
| Chatbot.NeedsImageByLeadingKeyword | chatbot.py:91-93 | A query without upper-case letters that begins with one of the keywords needs an image. |
| Chatbot.NeedsImageDrawExample | chatbot.py:91-93 | "draw a dragon" needs an image. |
| Chatbot.NeedsImageShowMeExample | chatbot.py:91-93 | "show me a picture of a cat" needs an image. |
| Chatbot.NeedsImageCapitalExample | chatbot.py:91-93 | "what is the capital of France" does not need an image. |
| Chatbot.UserTurn | chatbot.py:109 | The user message is `Q: `, then the query, then exactly the separator `\n\nContext:\n`, then the context. |
| Chatbot.AskGeminiSpec | chatbot.py:90-118 | `AskGemini` (ask_gemini_for_answer), with `ChatRequest` for the request it sends: a completed call answers with the reply's content stripped. A failed call answers with a text starting `Error: `. The image prompt is non-empty exactly when the call completed and the query needs an image, and it is then the query itself. |
| Chatbot.ImageUrlSpec | chatbot.py:76-78 | `ImageUrl` (the URL built in generate_image_with_pollinations): the enhanced prompt (stripped prompt plus the quality suffix) can be read back losslessly from the image URL's path. The quoted part adds no `?`, `&`, `#` or space, so the fixed parameters stay the whole query string. |
| Chatbot.ImageUrlIgnoresSurroundingSpace | chatbot.py:76 | Whitespace around the prompt does not change the image URL. |
| Chatbot.PollinationsImage | chatbot.py:79-84 | `PollinationsImage` (the reply handling of generate_image_with_pollinations): the image is the reply body exactly when the reply had status 200. A raised call or another status gives none. |
| Quote.Utf8RoundTrip | chatbot.py:77 | Decoding the UTF-8 encoding of any text gives that text back. |
| Quote.HexDigitValue | chatbot.py:77 | Each hexadecimal digit written by the encoder reads back as its value. |
| Quote.PercentRoundTrip | chatbot.py:77 | Percent-decoding the percent-encoding of any byte sequence gives those bytes back. |
| Quote.PercentEncodedChars | chatbot.py:77 | Percent-encoded text consists only of unreserved characters, `/` and `%`. |
| Quote.QuoteRoundTrip | chatbot.py:77 | `QuoteText` (requests.utils.quote): `quote` loses nothing: unquoting its output gives the original text. |
| Quote.QuoteIsPathSafe | chatbot.py:77 | Quoted text contains no space, `?`, `&` or `#`. |
| Quote.QuoteKeepsUnreserved | chatbot.py:77 | Quoting leaves text made only of unreserved ASCII characters and `/` unchanged. |
| Text.StripShape | chatbot.py:114 | `strip` returns the slice of its input between a leading and a trailing run of whitespace, and that slice neither begins nor ends with whitespace. |
| Text.StripIdempotent | app.py:101 | Stripping twice is stripping once. |
| Text.StripKeepsChars | chatbot.py:42 | Stripping introduces no character. |
| Text.LowerOfUpper | chatbot.py:91 | Lower-casing after upper-casing is plain lower-casing. |
| Text.ContainsIffInfix | chatbot.py:91 | Python's `k in s` holds exactly when `k` occurs in `s` at some offset. |
| Text.JoinSplit | app.py:99-101 | Joining the pieces of a split with the same separator rebuilds the text. |
| Text.SplitJoin | app.py:99-101 | Splitting a join of separator-free pieces gives those pieces back. |
| Text.PieceOffset | app.py:99 | Every piece of a split occurs in the text at some offset, and the first piece at offset 0. |
| Text.JoinContains | app.py:101 | A non-empty pattern without the separator occurs in a join only if it occurs in one of the joined pieces. |
| Text.StripContains | app.py:101 | A pattern found in stripped text was already in the text. |
| App.DropLinesWithAppend | app.py:100 | `DropLinesWith` (the comprehension over lines): filtering a concatenation of lines filters each part and concatenates the results. So kept lines keep their order and their repetitions. |
| App.DropLinesWithOne | app.py:100 | A single line is dropped exactly when it contains the notice, and kept unchanged otherwise. |
| App.DropLinesWithKeeps | app.py:100 | The filter drops exactly the lines that contain the notice. Every kept line was a line, no kept line contains the notice, and every line without it is kept. |
| App.FilterPolicyRemovesNotice | app.py:99-101 | `FilterPolicy` (split, drop the notice lines, join, strip): after filtering, the policy notice occurs nowhere in the answer, so in none of its lines. |
| App.FilterPolicyWithoutNotice | app.py:99-101 | An answer without the notice is only stripped. |
| App.FilterPolicyIdempotent | app.py:99-101 | Filtering an already filtered answer changes nothing. |
| App.FilterPolicyDropsNoticeLine | app.py:99-101 | A notice line between two other lines disappears together with one of its line breaks. |
| App.FilterPolicyExample | app.py:99-101 | `Hello`, the notice line and `World` filter to `Hello\nWorld`. |
| App.AssistantMessage | app.py:115-117 | The assistant entry carries the answer and carries an image exactly when the fetched bytes exist and are non-empty. |
| App.TurnWithoutSearch | app.py:95 | `TurnContext` (the context choice): with web search off, the context is `No web search used.` and no search request is made. |
| App.TurnWithSearch | app.py:95 | With web search on, the context is the combined search's result and the turn starts with the DuckDuckGo lookup. |
| App.TurnFetchesIff | app.py:104-107 | The image is fetched exactly when the model call completed, the input asks for an image and image generation is on. The prompt is then the input. |
| App.TurnRequestOrder | app.py:95-107 | `TurnRequests` (the outside calls of a turn): a turn's outside calls come in order: searches, then the one model call with the query and context, then the image request exactly when the image is fetched. |
| App.TurnCallsModelOnce | app.py:96 | A turn calls the model exactly once. |
| App.AsWrittenCallsModelTwice | app.py:124-128 | As the script is written, a run with input calls the model twice. |
| App.TurnImageRequest | app.py:104-107 | An image request is made exactly when the call completed, the input asks for an image and generation is on. It is then the last call and is for the input's URL. |
| App.TurnAssistantMessage | app.py:99-118 | `TurnAssistant` (the entry built at app.py:115-117), with `TurnAnswer` and `TurnImage`: the assistant entry holds the filtered answer, which is free of the notice. It has an image exactly when the image was fetched and came back as a non-empty 200 body, and that image is the body. |
| App.ImageTurn | app.py:95-118 | An image request with search off and generation on makes one model call and then one image request for the query. The entry holds the filtered, stripped completion and the picture. |
| App.DrawSunsetTurn | app.py:95-118 | The same for the concrete query "draw a sunset over mountains". |
| App.ChatSession.constructor | app.py:46-47 | A new session starts with an empty log. |
| App.ChatSession.Clear | app.py:55-56 | The clear button empties the log. |
| App.ChatSession.HandleTurn | app.py:76-118 | A turn appends exactly two entries and leaves the earlier ones unchanged: the user's input, then the assistant entry of the turn, which is also what is shown. |
| App.ChatSession.Run | app.py:55-118 | One script run: the log is cleared first if the button was pressed. A non-empty input then appends its user and assistant entries; an absent or empty input adds nothing. |

## Findings

| source | as written | input that shows it | evidently intended | confidence | as-written member | corrected member |
|---|---|---|---|---|---|---|
| app.py:124-128 | After the turn, a statement outside `if user_input:` calls `ask_gemini_for_answer` again with the same query and context. It overwrites `answer` with a result that is never shown or logged. | any run with input, e.g. "hello" with search off | one model call per turn. The quota-exceeded fallback in the `except` branch reads as if it was meant to guard the call at app.py:96. | high (not executed) | App.AsWrittenCallsModelTwice (about App.ScriptRequestsAsWritten) | App.TurnCallsModelOnce (about App.TurnRequests, which every turn lemma and ChatSession use) |

## Left out

- HTTP, JSON parsing and the OpenAI-compatible client are not modelled. Each outside call is a request value plus a reply value chosen by the caller. The DuckDuckGo query parameters, headers, user agent and the 8 s and 30 s timeouts are not modelled.
- `load_dotenv`, the API key and the client construction are left out: they are environment input.
- The system prompt text and `temperature=0.3` are not part of the model. The prompt is a fixed string sent to the model; the temperature is a floating-point setting that changes nothing the code decides.
- Streamlit rendering is left out: page configuration, CSS, avatars, the "thinking" placeholder, the spinner and the HTML wrapping of messages. Displaying the log does not change it. `HandleTurn` returns the entry that is shown.
- The `print` of an image error in `chatbot.py:83` is output only and is left out. The model keeps its effect, which is that no image is returned.
- App.AsWrittenCallsModelTwice: the second call's own outcome is unmodelled, because its answer is discarded. So is the run without input, where `context` is unbound and the `except` branch swallows the error.
- Text.Lower and Text.Upper: case mapping covers ASCII letters only, not Unicode case folding. Their contracts state only the length. The mapping for each character is in their bodies; `LowerOfUpper` and `LowerOfLowercase` state what the keyword test relies on.
- Text.Strip: whitespace is a fixed list of code points, the ones Python's `str.isspace` accepts. It is written out rather than derived from the Unicode database.
- Quote.QuoteText: modelled as UTF-8 encoding followed by percent-encoding of every byte outside the RFC 3986 section 2.3 unreserved set and `/`. This matches `quote` with its default `safe='/'`; other `safe` arguments are not modelled.
