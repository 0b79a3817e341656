/**
 * chatbot.py: the two search adapters and the combined search, the image-intent
 * check and answer selection of the model call, and the image request. Every
 * HTTP exchange and the model call are abstract inputs: what came back (a
 * status and the JSON field read from it, the completion text, the image body)
 * or that the call raised.
 */
module Chatbot {
  import opened Options
  import opened Text
  import opened Quote

  // ---------------------------------------------------------------------------
  // Requests the core issues, and what comes back
  // ---------------------------------------------------------------------------

  /** A call to the outside world. The DuckDuckGo lookup carries the query (its
      other parameters are fixed); the others carry the URL or message text. */
  datatype Request =
    | DuckDuckGoLookup(query: string)
    | WikipediaSummary(url: string)
    | ChatCompletion(model: string, userContent: string, maxTokens: nat)
    | ImageFetch(url: string)

  /** The result of one search request once HTTP and JSON decoding are
      abstracted: the call raised (timeout, connection error, a body that is not
      a JSON object), or it replied with a status code and the value of the one
      JSON field the adapter reads, `None` when the field is absent. */
  datatype SearchReply =
    | SearchRaised
    | SearchReplied(status: int, field: Option<string>)

  // ---------------------------------------------------------------------------
  // Search adapters (chatbot.py:19-55)
  // ---------------------------------------------------------------------------

  const DuckDuckGoLabel := "DuckDuckGo"
  const WikipediaLabel := "Wikipedia"
  const WikipediaSummaryBase := "https://en.wikipedia.org/api/rest_v1/page/summary/"

  const SourcePrefix := "Source: "

  /** The text an adapter returns for a snippet: a source line, a blank
      line, then the snippet. */
  function Sourced(source: string, snippet: string): string {
    SourcePrefix + source + "\n\n" + snippet
  }

  /** Reads a `Sourced` text back into its source and snippet. */
  function ParseSourced(s: string): Option<(string, string)> {
    if !StartsWith(s, SourcePrefix) then None
    else
      var body := s[|SourcePrefix|..];
      var source := Split(body, '\n')[0];
      if StartsWith(body[|source|..], "\n\n") then Some((source, body[|source| + 2..])) else None
  }

  /** The source and the snippet can be read back from what an adapter returns,
      whatever the snippet holds. */
  lemma SourcedRoundTrip(source: string, snippet: string)
    requires '\n' !in source
    ensures ParseSourced(Sourced(source, snippet)) == Some((source, snippet))
  {
    var s := Sourced(source, snippet);
    var body := source + ['\n'] + ("\n" + snippet);
    assert s == SourcePrefix + body;
    assert s[..|SourcePrefix|] == SourcePrefix;
    assert s[|SourcePrefix|..] == body;
    SplitPiece(source, '\n', "\n" + snippet);
    assert Split(body, '\n')[0] == source;
    assert body[|source|..] == "\n\n" + snippet;
    assert StartsWith(body[|source|..], "\n\n");
    assert body[|source| + 2..] == snippet;
  }

  /** One adapter's result: the sourced snippet when the reply has status 200
      and a non-empty field, and `None` for any other status, an absent or empty
      field, or a raised call. */
  function AdapterResult(source: string, reply: SearchReply): Option<string> {
    match reply
    case SearchRaised => None
    case SearchReplied(status, field) =>
      if status == 200 && field.Some? && field.value != "" then Some(Sourced(source, field.value)) else None
  }

  /** `web_search_duckduckgo`: the `Abstract` field of the reply. */
  function DuckDuckGo(reply: SearchReply): Option<string> {
    AdapterResult(DuckDuckGoLabel, reply)
  }

  /** `web_search_wikipedia`: the `extract` field of the reply (an absent field
      reads as the empty string, which gives `None` just the same). */
  function Wikipedia(reply: SearchReply): Option<string> {
    AdapterResult(WikipediaLabel, reply)
  }

  /** What an adapter returns, stated through what can be read back from it: a
      result exactly when the reply is a 200 with a non-empty field, and then
      that result names `source` and carries the field verbatim. */
  lemma AdapterResultSpec(source: string, reply: SearchReply)
    requires '\n' !in source
    ensures AdapterResult(source, reply).Some? <==>
              reply.SearchReplied? && reply.status == 200 && reply.field.Some? && reply.field.value != ""
    ensures AdapterResult(source, reply).Some? ==>
              AdapterResult(source, reply).value != "" &&
              ParseSourced(AdapterResult(source, reply).value) == Some((source, reply.field.value))
  {
    if AdapterResult(source, reply).Some? {
      SourcedRoundTrip(source, reply.field.value);
    }
  }

  /** The Wikipedia page title for a query: spaces become underscores, then
      surrounding whitespace is stripped. */
  function WikipediaTitle(query: string): (t: string)
    ensures ' ' !in t
  {
    var underscored := ReplaceChar(query, ' ', '_');
    StripKeepsChars(underscored);
    Strip(underscored)
  }

  /** The title keeps every non-space character of the query in place and puts
      `_` where the query had a space; only whitespace other than spaces (tabs,
      line breaks) is stripped from its ends, so edge spaces survive as `_`.
      The stripped runs are maximal: the title neither begins nor ends with
      whitespace. */
  lemma WikipediaTitleShape(query: string) returns (lead: nat)
    ensures lead + |WikipediaTitle(query)| <= |query|
    ensures forall k :: 0 <= k < |WikipediaTitle(query)| ==>
              WikipediaTitle(query)[k] == (if query[lead + k] == ' ' then '_' else query[lead + k])
    ensures forall k :: 0 <= k < lead ==> IsSpace(query[k]) && query[k] != ' '
    ensures forall k :: lead + |WikipediaTitle(query)| <= k < |query| ==> IsSpace(query[k]) && query[k] != ' '
    ensures WikipediaTitle(query) == [] ||
              (!IsSpace(WikipediaTitle(query)[0]) && !IsSpace(WikipediaTitle(query)[|WikipediaTitle(query)| - 1]))
  {
    var underscored := ReplaceChar(query, ' ', '_');
    lead := StripShape(underscored);
    var t := WikipediaTitle(query);
    forall k | 0 <= k < |t| ensures t[k] == (if query[lead + k] == ' ' then '_' else query[lead + k]) {
      assert t[k] == underscored[lead + k];
    }
    forall k | 0 <= k < |query| && (k < lead || lead + |t| <= k) ensures IsSpace(query[k]) && query[k] != ' ' {
      assert underscored[k] == if query[k] == ' ' then '_' else query[k];
    }
  }

  /** The URL the Wikipedia adapter requests. */
  function WikipediaUrl(query: string): (u: string)
    ensures StartsWith(u, WikipediaSummaryBase) && u[|WikipediaSummaryBase|..] == WikipediaTitle(query)
  {
    WikipediaSummaryBase + WikipediaTitle(query)
  }

  // ---------------------------------------------------------------------------
  // Combined search (chatbot.py:61-68)
  // ---------------------------------------------------------------------------

  const NoWebDataPrefix := "No web data found. Using AI knowledge for: "

  /** `web_search_combined`: DuckDuckGo first, then Wikipedia, then a canned
      text naming the query. */
  function WebSearchCombined(query: string, ddg: SearchReply, wiki: SearchReply): (r: string)
    ensures DuckDuckGo(ddg).Some? ==> r == DuckDuckGo(ddg).value
    ensures DuckDuckGo(ddg).None? && Wikipedia(wiki).Some? ==> r == Wikipedia(wiki).value
    ensures DuckDuckGo(ddg).None? && Wikipedia(wiki).None? ==> r == NoWebDataPrefix + query
  {
    match DuckDuckGo(ddg)
    case Some(d) => d
    case None =>
      match Wikipedia(wiki)
      case Some(w) => w
      case None => NoWebDataPrefix + query
  }

  /** The requests the combined search issues: Wikipedia is asked only when
      DuckDuckGo gave nothing. */
  function SearchRequests(query: string, ddg: SearchReply): (rs: seq<Request>)
    ensures 1 <= |rs| <= 2 && rs[0] == DuckDuckGoLookup(query)
    ensures |rs| == 2 <==> DuckDuckGo(ddg).None?
    ensures |rs| == 2 ==> rs[1] == WikipediaSummary(WikipediaUrl(query))
  {
    [DuckDuckGoLookup(query)] + (if DuckDuckGo(ddg).Some? then [] else [WikipediaSummary(WikipediaUrl(query))])
  }

  /** Priority: a DuckDuckGo result decides the context whatever Wikipedia
      would have answered, and its text names DuckDuckGo and carries the
      abstract verbatim. */
  lemma DuckDuckGoWins(query: string, ddg: SearchReply, wiki1: SearchReply, wiki2: SearchReply)
    requires DuckDuckGo(ddg).Some?
    ensures WebSearchCombined(query, ddg, wiki1) == WebSearchCombined(query, ddg, wiki2)
    ensures ParseSourced(WebSearchCombined(query, ddg, wiki1)) == Some((DuckDuckGoLabel, ddg.field.value))
  {
    AdapterResultSpec(DuckDuckGoLabel, ddg);
  }

  /** Without a DuckDuckGo result, a Wikipedia result decides the context. */
  lemma WikipediaSecond(query: string, ddg: SearchReply, wiki: SearchReply)
    requires DuckDuckGo(ddg).None? && Wikipedia(wiki).Some?
    ensures ParseSourced(WebSearchCombined(query, ddg, wiki)) == Some((WikipediaLabel, wiki.field.value))
  {
    AdapterResultSpec(WikipediaLabel, wiki);
  }

  /** The context tells which branch produced it: it reads back as a sourced
      snippet exactly when one of the adapters answered. */
  lemma CombinedRevealsSource(query: string, ddg: SearchReply, wiki: SearchReply)
    ensures ParseSourced(WebSearchCombined(query, ddg, wiki)).Some? <==> DuckDuckGo(ddg).Some? || Wikipedia(wiki).Some?
  {
    AdapterResultSpec(DuckDuckGoLabel, ddg);
    AdapterResultSpec(WikipediaLabel, wiki);
    if DuckDuckGo(ddg).None? && Wikipedia(wiki).None? {
      var r := NoWebDataPrefix + query;
      assert r[0] == 'N';
      assert !StartsWith(r, SourcePrefix);
    }
  }

  // ---------------------------------------------------------------------------
  // Image intent (chatbot.py:91-93)
  // ---------------------------------------------------------------------------

  const ImageKeywords: seq<string> := ["image", "picture", "photo", "show me", "diagram", "draw"]

  function AnyKeywordIn(keywords: seq<string>, s: string): bool
    decreases |keywords|
  {
    keywords != [] && (Contains(s, keywords[0]) || AnyKeywordIn(keywords[1..], s))
  }

  /** `needs_image`: some keyword occurs in the lower-cased query. */
  function NeedsImage(query: string): bool {
    AnyKeywordIn(ImageKeywords, Lower(query))
  }

  lemma {:induction false} AnyKeywordInIff(keywords: seq<string>, s: string)
    ensures AnyKeywordIn(keywords, s) <==> exists i :: 0 <= i < |keywords| && IsInfix(s, keywords[i])
    decreases |keywords|
  {
    if keywords != [] {
      ContainsIffInfix(s, keywords[0]);
      AnyKeywordInIff(keywords[1..], s);
      if exists i :: 0 <= i < |keywords| && IsInfix(s, keywords[i]) {
        var i :| 0 <= i < |keywords| && IsInfix(s, keywords[i]);
        if i > 0 {
          assert keywords[1..][i - 1] == keywords[i];
        }
      }
    }
  }

  /** The image intent holds exactly when one of the six keywords occurs in the
      lower-cased query. */
  lemma NeedsImageIff(query: string)
    ensures NeedsImage(query) <==> exists i :: 0 <= i < |ImageKeywords| && IsInfix(Lower(query), ImageKeywords[i])
  {
    AnyKeywordInIff(ImageKeywords, Lower(query));
  }

  /** The intent check ignores the case of ASCII letters. */
  lemma NeedsImageIgnoresCase(query: string)
    ensures NeedsImage(Upper(query)) == NeedsImage(query)
  {
    LowerOfUpper(query);
  }

  /** Every keyword is non-empty, so only a non-empty query can ask for an image. */
  lemma NeedsImageNonEmpty(query: string)
    requires NeedsImage(query)
    ensures query != ""
  {
    NeedsImageIff(query);
    var i :| 0 <= i < |ImageKeywords| && IsInfix(Lower(query), ImageKeywords[i]);
    var o :| OccursAt(Lower(query), ImageKeywords[i], o);
  }

  /** A query with no upper-case letter that starts with a keyword needs an image. */
  lemma NeedsImageByLeadingKeyword(query: string, i: nat)
    requires i < |ImageKeywords| && OccursAt(query, ImageKeywords[i], 0)
    requires forall j :: 0 <= j < |query| ==> !IsUpperAscii(query[j])
    ensures NeedsImage(query)
  {
    LowerOfLowercase(query);
    NeedsImageIff(query);
  }

  lemma NeedsImageDrawExample()
    ensures NeedsImage("draw a dragon")
  {
    NeedsImageByLeadingKeyword("draw a dragon", 5);
  }

  lemma NeedsImageShowMeExample()
    ensures NeedsImage("show me a picture of a cat")
  {
    NeedsImageByLeadingKeyword("show me a picture of a cat", 3);
  }

  /** A keyword with a character the text lacks does not occur in it. */
  lemma AbsentCharRulesOut(k: string, s: string, x: nat)
    requires x < |k| && k[x] !in s
    ensures !IsInfix(s, k)
  {
    if IsInfix(s, k) {
      var o :| OccursAt(s, k, o);
      OccurrenceAt(k, s, o, x);
    }
  }

  lemma NeedsImageCapitalExample()
    ensures !NeedsImage("what is the capital of France")
  {
    LowerCapitalQuery();
    NeedsImageIff("what is the capital of France");
    CapitalQueryLacksKeywords();
  }

  /** None of the six keywords occurs in the lowered query. */
  lemma CapitalQueryLacksKeywords()
    ensures forall i :: 0 <= i < |ImageKeywords| ==> !IsInfix("what is the capital of france", ImageKeywords[i])
  {
    var s := "what is the capital of france";
    CapitalQueryLetters();
    AbsentCharRulesOut("image", s, 1);
    AbsentCharRulesOut("picture", s, 4);
    NoPhotoInCapitalQuery();
    AbsentCharRulesOut("show me", s, 5);
    AbsentCharRulesOut("diagram", s, 3);
    AbsentCharRulesOut("draw", s, 0);
  }

  /** Letters of the keywords that the lowered query lacks. */
  lemma CapitalQueryLetters()
    ensures 'm' !in "what is the capital of france" && 'u' !in "what is the capital of france"
    ensures 'g' !in "what is the capital of france" && 'd' !in "what is the capital of france"
  {
    var s := "what is the capital of france";
    forall j | 0 <= j < |s| ensures s[j] != 'm' && s[j] != 'u' && s[j] != 'g' && s[j] != 'd' {
    }
  }

  lemma LowerCapitalQuery()
    ensures Lower("what is the capital of France") == "what is the capital of france"
  {
    var q := "what is the capital of France";
    var s := "what is the capital of france";
    forall k | 0 <= k < |q| ensures Lower(q)[k] == s[k] {
      assert Lower(q)[k] == LowerChar(q[k]);
    }
  }

  /** The one 'p' of the lowered query, at index 14, is followed by 'i', not 'h'. */
  lemma NoPhotoInCapitalQuery()
    ensures !IsInfix("what is the capital of france", "photo")
  {
    var s := "what is the capital of france";
    if IsInfix(s, "photo") {
      var o :| OccursAt(s, "photo", o);
      OccurrenceAt("photo", s, o, 0);
      OccurrenceAt("photo", s, o, 1);
      assert false;
    }
  }

  // ---------------------------------------------------------------------------
  // The model call (chatbot.py:90-118)
  // ---------------------------------------------------------------------------

  const Model := "gemini-2.0-flash-exp"
  const MaxTokens := 2000

  /** What the model call came back with: the completion text, or the text of
      the exception it raised. */
  datatype Completion = Completed(content: string) | CallFailed(reason: string)

  /** The answer text and the image prompt (empty for no image). */
  datatype Answer = Answer(text: string, imagePrompt: string)

  /** The user turn sent to the model. */
  function UserTurn(query: string, context: string): (u: string)
    ensures |u| == 3 + |query| + 11 + |context|
    ensures StartsWith(u, "Q: ") && u[3..3 + |query|] == query
    ensures u[|u| - |context|..] == context
    ensures u[3 + |query|..|u| - |context|] == "\n\nContext:\n"
  {
    "Q: " + query + "\n\nContext:\n" + context
  }

  /** The model request for a query and context. */
  function ChatRequest(query: string, context: string): Request {
    ChatCompletion(Model, UserTurn(query, context), MaxTokens)
  }

  /** `ask_gemini_for_answer`, given what the model call came back with. */
  function AskGemini(query: string, context: string, completion: Completion): Answer {
    match completion
    case Completed(content) => Answer(Strip(content), if NeedsImage(query) then query else "")
    case CallFailed(reason) => Answer("Error: " + reason, "")
  }

  /** The answer is the stripped completion, or an error text after a failed
      call; the image prompt is the query itself when the call succeeded and
      the query asks for an image, and empty otherwise. */
  lemma AskGeminiSpec(query: string, context: string, completion: Completion)
    ensures completion.Completed? ==> AskGemini(query, context, completion).text == Strip(completion.content)
    ensures completion.CallFailed? ==> StartsWith(AskGemini(query, context, completion).text, "Error: ")
    ensures AskGemini(query, context, completion).imagePrompt != "" <==> completion.Completed? && NeedsImage(query)
    ensures AskGemini(query, context, completion).imagePrompt != "" ==> AskGemini(query, context, completion).imagePrompt == query
  {
    if completion.Completed? && NeedsImage(query) {
      NeedsImageNonEmpty(query);
    }
  }

  // ---------------------------------------------------------------------------
  // The image request (chatbot.py:74-84)
  // ---------------------------------------------------------------------------

  const QualitySuffix := ", high quality, detailed, professional"
  const PollinationsBase := "https://image.pollinations.ai/prompt/"
  const PollinationsParams := "?width=1024&height=1024&model=flux"

  /** What the image request came back with. */
  datatype ImageReply = ImageRaised | ImageReplied(status: int, content: seq<byte>)

  function EnhancedPrompt(prompt: string): string {
    Strip(prompt) + QualitySuffix
  }

  /** The image URL for a prompt. */
  function ImageUrl(prompt: string): string {
    PollinationsBase + QuoteText(EnhancedPrompt(prompt)) + PollinationsParams
  }

  /** Reads the enhanced prompt back out of an image URL. */
  function PromptOfImageUrl(url: string): Option<string> {
    if |url| < |PollinationsBase| + |PollinationsParams| || !StartsWith(url, PollinationsBase)
       || url[|url| - |PollinationsParams|..] != PollinationsParams
    then None
    else UnquoteText(url[|PollinationsBase|..|url| - |PollinationsParams|])
  }

  /** The image URL carries the stripped prompt and the quality suffix
      losslessly in its path and the fixed parameters as its whole query string:
      the prompt adds no `?`, `&`, `#` or space to it. */
  lemma ImageUrlSpec(prompt: string)
    ensures PromptOfImageUrl(ImageUrl(prompt)) == Some(Strip(prompt) + QualitySuffix)
    ensures var e := ImageUrl(prompt)[|PollinationsBase|..|ImageUrl(prompt)| - |PollinationsParams|];
            '?' !in e && '&' !in e && '#' !in e && ' ' !in e
  {
    var q := QuoteText(EnhancedPrompt(prompt));
    var url := ImageUrl(prompt);
    assert url[..|PollinationsBase|] == PollinationsBase;
    assert url[|url| - |PollinationsParams|..] == PollinationsParams;
    assert url[|PollinationsBase|..|url| - |PollinationsParams|] == q;
    QuoteRoundTrip(EnhancedPrompt(prompt));
    QuoteIsPathSafe(EnhancedPrompt(prompt));
  }

  /** Whitespace around the prompt does not reach the URL. */
  lemma ImageUrlIgnoresSurroundingSpace(prompt: string)
    ensures ImageUrl(Strip(prompt)) == ImageUrl(prompt)
  {
    StripIdempotent(prompt);
  }

  /** `generate_image_with_pollinations`: the body on status 200, otherwise
      (another status, or a raised call) `None`. */
  function PollinationsImage(reply: ImageReply): (r: Option<seq<byte>>)
    ensures r.Some? <==> reply.ImageReplied? && reply.status == 200
    ensures r.Some? ==> r.value == reply.content
  {
    match reply
    case ImageRaised => None
    case ImageReplied(status, content) => if status == 200 then Some(content) else None
  }
}
