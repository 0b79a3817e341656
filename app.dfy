/**
 * app.py: how one run of the Streamlit script composes a turn (context choice,
 * the policy-line filter, image gating, the assistant message) and how it
 * updates the session's conversation log. Rendering is not modelled.
 */
module App {
  import opened Options
  import opened Text
  import opened Quote
  import opened Chatbot

  const PolicyNotice := "This query does not violate the policy"
  const NoSearchContext := "No web search used."

  datatype Role = User | Assistant

  /** A log entry; `image` is `None` when the entry has no `"image"` key. */
  datatype Message = Message(role: Role, content: string, image: Option<seq<byte>>)

  /** The two sidebar check boxes. */
  datatype Settings = Settings(enableWebSearch: bool, generateImages: bool)

  /** What each outside call of a turn comes back with; the reply to a call the
      turn does not make is never looked at. */
  datatype Replies = Replies(duckDuckGo: SearchReply, wikipedia: SearchReply, completion: Completion, image: ImageReply)

  // ---------------------------------------------------------------------------
  // Context (app.py:95)
  // ---------------------------------------------------------------------------

  function TurnContext(input: string, settings: Settings, replies: Replies): string {
    if settings.enableWebSearch then WebSearchCombined(input, replies.duckDuckGo, replies.wikipedia)
    else NoSearchContext
  }

  // ---------------------------------------------------------------------------
  // Policy-line filter (app.py:99-101)
  // ---------------------------------------------------------------------------

  /** The lines that do not contain `k`, in their original order. */
  function DropLinesWith(lines: seq<string>, k: string): (kept: seq<string>)
    ensures |kept| <= |lines|
    decreases |lines|
  {
    if lines == [] then []
    else if Contains(lines[0], k) then DropLinesWith(lines[1..], k)
    else [lines[0]] + DropLinesWith(lines[1..], k)
  }

  /** Exactly the lines that contain `k` are dropped: no kept line contains
      `k`, every kept line is a line, and every line without `k` is kept. */
  lemma {:induction false} DropLinesWithKeeps(lines: seq<string>, k: string)
    ensures forall i :: 0 <= i < |DropLinesWith(lines, k)| ==> !Contains(DropLinesWith(lines, k)[i], k)
    ensures forall i :: 0 <= i < |DropLinesWith(lines, k)| ==> DropLinesWith(lines, k)[i] in lines
    ensures forall i :: 0 <= i < |lines| && !Contains(lines[i], k) ==> lines[i] in DropLinesWith(lines, k)
    decreases |lines|
  {
    if lines != [] {
      DropLinesWithKeeps(lines[1..], k);
      var kept := DropLinesWith(lines, k);
      var rest := DropLinesWith(lines[1..], k);
      forall i | 0 <= i < |kept| ensures kept[i] in lines && !Contains(kept[i], k) {
        if !Contains(lines[0], k) && i > 0 {
          assert kept[i] == rest[i - 1];
        } else if Contains(lines[0], k) {
          assert kept[i] == rest[i];
        }
        assert kept[i] in lines[1..] || kept[i] == lines[0];
      }
      forall i | 0 <= i < |lines| && !Contains(lines[i], k) ensures lines[i] in kept {
        if i > 0 {
          assert lines[i] == lines[1..][i - 1];
        }
      }
    }
  }

  /** The filter works line by line: filtering a concatenation filters each
      part, so kept lines stay in their order and repeated lines stay repeated. */
  lemma {:induction false} DropLinesWithAppend(a: seq<string>, b: seq<string>, k: string)
    ensures DropLinesWith(a + b, k) == DropLinesWith(a, k) + DropLinesWith(b, k)
    decreases |a|
  {
    if a == [] {
      assert a + b == b;
    } else {
      assert (a + b)[1..] == a[1..] + b;
      DropLinesWithAppend(a[1..], b, k);
    }
  }

  /** One line is dropped exactly when it contains `k`. */
  lemma DropLinesWithOne(l: string, k: string)
    ensures DropLinesWith([l], k) == if Contains(l, k) then [] else [l]
  {
  }

  /** Lines that all lack `k` are all kept. */
  lemma {:induction false} DropNothing(lines: seq<string>, k: string)
    requires forall i :: 0 <= i < |lines| ==> !Contains(lines[i], k)
    ensures DropLinesWith(lines, k) == lines
    decreases |lines|
  {
    if lines != [] {
      DropNothing(lines[1..], k);
    }
  }

  /** The answer with every line that contains the policy notice removed, and
      surrounding whitespace stripped. */
  function FilterPolicy(raw: string): string {
    Strip(Join(DropLinesWith(Split(raw, '\n'), PolicyNotice), '\n'))
  }

  lemma NoticeShape()
    ensures PolicyNotice != [] && '\n' !in PolicyNotice
  {
    forall j | 0 <= j < |PolicyNotice| ensures PolicyNotice[j] != '\n' {
    }
  }

  /** After filtering, the notice occurs nowhere, so in no line. */
  lemma FilterPolicyRemovesNotice(raw: string)
    ensures !Contains(FilterPolicy(raw), PolicyNotice)
    ensures forall i :: 0 <= i < |Split(FilterPolicy(raw), '\n')| ==> !Contains(Split(FilterPolicy(raw), '\n')[i], PolicyNotice)
  {
    var kept := DropLinesWith(Split(raw, '\n'), PolicyNotice);
    var joined := Join(kept, '\n');
    NoticeShape();
    DropLinesWithKeeps(Split(raw, '\n'), PolicyNotice);
    JoinContains(kept, '\n', PolicyNotice);
    if Contains(Strip(joined), PolicyNotice) {
      StripContains(joined, PolicyNotice);
    }
    var r := FilterPolicy(raw);
    forall i | 0 <= i < |Split(r, '\n')| ensures !Contains(Split(r, '\n')[i], PolicyNotice) {
      if Contains(Split(r, '\n')[i], PolicyNotice) {
        PieceContains(r, '\n', i, PolicyNotice);
      }
    }
  }

  /** Without the notice the filter only strips. */
  lemma FilterPolicyWithoutNotice(raw: string)
    requires !Contains(raw, PolicyNotice)
    ensures FilterPolicy(raw) == Strip(raw)
  {
    var lines := Split(raw, '\n');
    forall i | 0 <= i < |lines| ensures !Contains(lines[i], PolicyNotice) {
      if Contains(lines[i], PolicyNotice) {
        PieceContains(raw, '\n', i, PolicyNotice);
      }
    }
    DropNothing(lines, PolicyNotice);
    JoinSplit(raw, '\n');
  }

  /** Filtering twice is filtering once. */
  lemma FilterPolicyIdempotent(raw: string)
    ensures FilterPolicy(FilterPolicy(raw)) == FilterPolicy(raw)
  {
    var r := FilterPolicy(raw);
    FilterPolicyRemovesNotice(raw);
    FilterPolicyWithoutNotice(r);
    StripIdempotent(Join(DropLinesWith(Split(raw, '\n'), PolicyNotice), '\n'));
  }

  lemma ShorterLacks(s: string, k: string)
    requires |s| < |k|
    ensures !Contains(s, k)
  {
    ContainsIffInfix(s, k);
  }

  /** A line holding the notice, between two lines of answer, is dropped
      together with one of its line breaks. */
  lemma FilterPolicyDropsNoticeLine(a: string, line: string, b: string)
    requires '\n' !in a && '\n' !in line && '\n' !in b
    requires Contains(line, PolicyNotice) && !Contains(a, PolicyNotice) && !Contains(b, PolicyNotice)
    ensures FilterPolicy(a + "\n" + line + "\n" + b) == Strip(a + "\n" + b)
  {
    SplitThree(a, line, b, '\n');
    DropMiddle(a, line, b, PolicyNotice);
    assert [a, b][1..] == [b];
    assert Join([a, b], '\n') == a + "\n" + b;
  }

  lemma DropMiddle(a: string, line: string, b: string, k: string)
    requires Contains(line, k) && !Contains(a, k) && !Contains(b, k)
    ensures DropLinesWith([a, line, b], k) == [a, b]
  {
    var lines := [a, line, b];
    assert DropLinesWith(lines[2..], k) == [b];
    assert DropLinesWith(lines[1..], k) == [b];
  }

  /** The notice line of a three-line answer is dropped. */
  lemma FilterPolicyExample()
    ensures FilterPolicy("Hello" + "\n" + PolicyNotice + "\n" + "World") == "Hello\nWorld"
  {
    ExampleLines();
    FilterPolicyDropsNoticeLine("Hello", PolicyNotice, "World");
    ExampleStrip();
  }

  lemma ExampleLines()
    ensures '\n' !in "Hello" && '\n' !in PolicyNotice && '\n' !in "World"
    ensures Contains(PolicyNotice, PolicyNotice) && !Contains("Hello", PolicyNotice) && !Contains("World", PolicyNotice)
  {
    ShorterLacks("Hello", PolicyNotice);
    ShorterLacks("World", PolicyNotice);
    assert StartsWith(PolicyNotice, PolicyNotice);
    NoticeShape();
  }

  lemma ExampleStrip()
    ensures Strip("Hello" + "\n" + "World") == "Hello\nWorld"
  {
    assert "Hello" + "\n" + "World" == "Hello\nWorld";
    StripUnpadded("Hello\nWorld");
  }

  // ---------------------------------------------------------------------------
  // Image gating and the assistant message (app.py:104-117)
  // ---------------------------------------------------------------------------

  /** The image is requested only for a non-empty prompt with generation on. */
  predicate FetchesImage(prompt: string, settings: Settings) {
    prompt != "" && settings.generateImages
  }

  /** The assistant entry: the `"image"` key is set only for non-empty bytes. */
  function AssistantMessage(text: string, imageBytes: Option<seq<byte>>): (m: Message)
    ensures m.role == Assistant && m.content == text
    ensures m.image.Some? <==> imageBytes.Some? && imageBytes.value != []
    ensures m.image.Some? ==> m.image == imageBytes
  {
    Message(Assistant, text, if imageBytes.Some? && imageBytes.value != [] then imageBytes else None)
  }

  // ---------------------------------------------------------------------------
  // One turn (app.py:95-118)
  // ---------------------------------------------------------------------------

  /** The answer of a turn: the model's, for the input and the turn's context. */
  function TurnAnswer(input: string, settings: Settings, replies: Replies): Answer {
    AskGemini(input, TurnContext(input, settings, replies), replies.completion)
  }

  /** Whether the turn asks the image service for a picture. */
  predicate TurnFetches(input: string, settings: Settings, replies: Replies) {
    FetchesImage(TurnAnswer(input, settings, replies).imagePrompt, settings)
  }

  /** `image_bytes` after the turn. */
  function TurnImage(input: string, settings: Settings, replies: Replies): Option<seq<byte>> {
    if TurnFetches(input, settings, replies) then PollinationsImage(replies.image) else None
  }

  /** The assistant entry the turn appends. */
  function TurnAssistant(input: string, settings: Settings, replies: Replies): Message {
    AssistantMessage(FilterPolicy(TurnAnswer(input, settings, replies).text), TurnImage(input, settings, replies))
  }

  /** The outside calls of a turn, in the order it makes them. */
  function TurnRequests(input: string, settings: Settings, replies: Replies): seq<Request> {
    (if settings.enableWebSearch then SearchRequests(input, replies.duckDuckGo) else []) +
    [ChatRequest(input, TurnContext(input, settings, replies))] +
    (if TurnFetches(input, settings, replies) then [ImageFetch(ImageUrl(TurnAnswer(input, settings, replies).imagePrompt))] else [])
  }

  /** The image is fetched exactly when the model call succeeded, the input
      asks for an image and generation is on; the prompt is then the input. */
  lemma TurnFetchesIff(input: string, settings: Settings, replies: Replies)
    ensures TurnFetches(input, settings, replies) <==>
              replies.completion.Completed? && NeedsImage(input) && settings.generateImages
    ensures TurnFetches(input, settings, replies) ==> TurnAnswer(input, settings, replies).imagePrompt == input
  {
    AskGeminiSpec(input, TurnContext(input, settings, replies), replies.completion);
  }

  /** With search disabled the context is the fixed notice and no search
      request is made. */
  lemma TurnWithoutSearch(input: string, settings: Settings, replies: Replies)
    requires !settings.enableWebSearch
    ensures TurnContext(input, settings, replies) == NoSearchContext
    ensures var rs := TurnRequests(input, settings, replies);
            forall i :: 0 <= i < |rs| ==> !rs[i].DuckDuckGoLookup? && !rs[i].WikipediaSummary?
  {
  }

  /** With search enabled the context is the combined search's, and the turn
      starts with the DuckDuckGo lookup. */
  lemma TurnWithSearch(input: string, settings: Settings, replies: Replies)
    requires settings.enableWebSearch
    ensures TurnContext(input, settings, replies) == WebSearchCombined(input, replies.duckDuckGo, replies.wikipedia)
    ensures TurnRequests(input, settings, replies)[0] == DuckDuckGoLookup(input)
  {
  }

  /** The calls of a turn, in order: the searches, exactly one model call
      carrying the query and the context, then one image request exactly when
      the image is fetched. */
  lemma TurnRequestOrder(input: string, settings: Settings, replies: Replies) returns (m: nat)
    ensures var rs := TurnRequests(input, settings, replies);
            m < |rs| && rs[m] == ChatCompletion(Model, UserTurn(input, TurnContext(input, settings, replies)), MaxTokens) &&
            (forall i :: 0 <= i < m ==> rs[i].DuckDuckGoLookup? || rs[i].WikipediaSummary?) &&
            (forall i :: m < i < |rs| ==> rs[i].ImageFetch?) &&
            |rs| == m + 1 + (if TurnFetches(input, settings, replies) then 1 else 0)
  {
    var searches := SearchRequests(input, replies.duckDuckGo);
    var fetch := ImageFetch(ImageUrl(TurnAnswer(input, settings, replies).imagePrompt));
    m := RequestLayout(settings.enableWebSearch, searches, ChatRequest(input, TurnContext(input, settings, replies)),
                       TurnFetches(input, settings, replies), fetch);
  }

  /** Where the parts of a turn's call list end up in it. */
  lemma RequestLayout(searchOn: bool, searches: seq<Request>, call: Request, fetchOn: bool, fetch: Request) returns (m: nat)
    requires 1 <= |searches| <= 2 && searches[0].DuckDuckGoLookup? && (|searches| == 2 ==> searches[1].WikipediaSummary?)
    requires fetch.ImageFetch?
    ensures var rs := (if searchOn then searches else []) + [call] + (if fetchOn then [fetch] else []);
            m < |rs| && rs[m] == call &&
            (forall i :: 0 <= i < m ==> rs[i].DuckDuckGoLookup? || rs[i].WikipediaSummary?) &&
            (forall i :: m < i < |rs| ==> rs[i].ImageFetch?) &&
            |rs| == m + 1 + (if fetchOn then 1 else 0)
  {
    var s := if searchOn then searches else [];
    var f := if fetchOn then [fetch] else [];
    var rs := s + [call] + f;
    m := |s|;
    forall i | 0 <= i < m ensures rs[i] == s[i] {
    }
    forall i | m < i < |rs| ensures rs[i] == f[i - m - 1] {
    }
  }

  /** The number of model calls in a list of outside calls. */
  function ModelCalls(rs: seq<Request>): (n: nat)
    ensures n <= |rs|
    decreases |rs|
  {
    if rs == [] then 0 else (if rs[0].ChatCompletion? then 1 else 0) + ModelCalls(rs[1..])
  }

  lemma {:induction false} ModelCallsAppend(a: seq<Request>, b: seq<Request>)
    ensures ModelCalls(a + b) == ModelCalls(a) + ModelCalls(b)
    decreases |a|
  {
    if a == [] {
      assert a + b == b;
    } else {
      assert (a + b)[1..] == a[1..] + b;
      ModelCallsAppend(a[1..], b);
    }
  }

  /** A call list laid out as a turn's holds one model call when its middle
      call is one. */
  lemma LayoutModelCalls(searchOn: bool, searches: seq<Request>, call: Request, fetchOn: bool, fetch: Request)
    requires 1 <= |searches| <= 2 && searches[0].DuckDuckGoLookup? && (|searches| == 2 ==> searches[1].WikipediaSummary?)
    requires call.ChatCompletion? && fetch.ImageFetch?
    ensures ModelCalls((if searchOn then searches else []) + [call] + (if fetchOn then [fetch] else [])) == 1
  {
    var s := if searchOn then searches else [];
    var f := if fetchOn then [fetch] else [];
    ModelCallsAppend(s, [call]);
    ModelCallsAppend(s + [call], f);
    assert ModelCalls([call]) == 1;
    if |s| == 2 {
      assert s[1..][1..] == [];
    }
  }

  /** A turn makes exactly one model call. */
  lemma TurnCallsModelOnce(input: string, settings: Settings, replies: Replies)
    ensures ModelCalls(TurnRequests(input, settings, replies)) == 1
  {
    var fetch := ImageFetch(ImageUrl(TurnAnswer(input, settings, replies).imagePrompt));
    LayoutModelCalls(settings.enableWebSearch, SearchRequests(input, replies.duckDuckGo),
                     ChatRequest(input, TurnContext(input, settings, replies)), TurnFetches(input, settings, replies), fetch);
  }

  /** The outside calls of a run with input as the script is written: after the
      turn, a statement outside `if user_input:` asks the model again with the
      same query and context and discards the answer. */
  function ScriptRequestsAsWritten(input: string, settings: Settings, replies: Replies): seq<Request> {
    TurnRequests(input, settings, replies) + [ChatRequest(input, TurnContext(input, settings, replies))]
  }

  /** As written, a turn calls the model twice. */
  lemma AsWrittenCallsModelTwice(input: string, settings: Settings, replies: Replies)
    ensures ModelCalls(ScriptRequestsAsWritten(input, settings, replies)) == 2
  {
    var call := ChatRequest(input, TurnContext(input, settings, replies));
    TurnCallsModelOnce(input, settings, replies);
    ModelCallsAppend(TurnRequests(input, settings, replies), [call]);
    assert ModelCalls([call]) == 1;
  }

  /** The image is requested exactly when the model call succeeded, the input
      asks for an image and generation is on; the request is then the last
      call and is for the input. */
  lemma TurnImageRequest(input: string, settings: Settings, replies: Replies)
    ensures var rs := TurnRequests(input, settings, replies);
            (exists i :: 0 <= i < |rs| && rs[i].ImageFetch?) <==>
              replies.completion.Completed? && NeedsImage(input) && settings.generateImages
    ensures var rs := TurnRequests(input, settings, replies);
            TurnFetches(input, settings, replies) ==> rs[|rs| - 1] == ImageFetch(ImageUrl(input))
  {
    TurnFetchesIff(input, settings, replies);
    LayoutFetch(settings.enableWebSearch, SearchRequests(input, replies.duckDuckGo),
                ChatRequest(input, TurnContext(input, settings, replies)), TurnFetches(input, settings, replies),
                ImageFetch(ImageUrl(TurnAnswer(input, settings, replies).imagePrompt)));
  }

  /** A call list laid out as a turn's holds an image request exactly when its
      fetch part is on, and then as its last call. */
  lemma LayoutFetch(searchOn: bool, searches: seq<Request>, call: Request, fetchOn: bool, fetch: Request)
    requires 1 <= |searches| <= 2 && searches[0].DuckDuckGoLookup? && (|searches| == 2 ==> searches[1].WikipediaSummary?)
    requires call.ChatCompletion? && fetch.ImageFetch?
    ensures var rs := (if searchOn then searches else []) + [call] + (if fetchOn then [fetch] else []);
            (exists i :: 0 <= i < |rs| && rs[i].ImageFetch?) <==> fetchOn
    ensures var rs := (if searchOn then searches else []) + [call] + (if fetchOn then [fetch] else []);
            fetchOn ==> rs[|rs| - 1] == fetch
  {
    var rs := (if searchOn then searches else []) + [call] + (if fetchOn then [fetch] else []);
    var m := RequestLayout(searchOn, searches, call, fetchOn, fetch);
    if fetchOn {
      assert rs[m + 1].ImageFetch?;
    } else {
      forall i | 0 <= i < |rs| ensures !rs[i].ImageFetch? {
        if i < m {
          assert rs[i].DuckDuckGoLookup? || rs[i].WikipediaSummary?;
        }
      }
    }
  }

  /** The assistant entry has an image exactly when the prompt was non-empty,
      generation was on and the fetch returned non-empty bytes; its text is the
      filtered answer, free of the notice. */
  lemma TurnAssistantMessage(input: string, settings: Settings, replies: Replies)
    ensures var m := TurnAssistant(input, settings, replies);
            m.role == Assistant && m.content == FilterPolicy(TurnAnswer(input, settings, replies).text) &&
            !Contains(m.content, PolicyNotice)
    ensures TurnAssistant(input, settings, replies).image.Some? <==>
              replies.completion.Completed? && NeedsImage(input) && settings.generateImages &&
              replies.image.ImageReplied? && replies.image.status == 200 && replies.image.content != []
    ensures var m := TurnAssistant(input, settings, replies);
            m.image.Some? ==> m.image.value == replies.image.content
  {
    TurnFetchesIff(input, settings, replies);
    FilterPolicyRemovesNotice(TurnAnswer(input, settings, replies).text);
  }

  /** A turn for a query that asks for an image, with search off and image
      generation on, when both outside calls succeed: one model call, then one
      image request for the query; the entry holds the filtered, stripped
      completion and the picture. */
  lemma ImageTurn(input: string, content: string, picture: seq<byte>)
    requires NeedsImage(input) && picture != []
    ensures var settings := Settings(false, true);
            var replies := Replies(SearchRaised, SearchRaised, Completed(content), ImageReplied(200, picture));
            TurnContext(input, settings, replies) == NoSearchContext &&
            TurnRequests(input, settings, replies) == [ChatRequest(input, NoSearchContext), ImageFetch(ImageUrl(input))] &&
            TurnAssistant(input, settings, replies) == Message(Assistant, FilterPolicy(Strip(content)), Some(picture))
  {
    var settings := Settings(false, true);
    var replies := Replies(SearchRaised, SearchRaised, Completed(content), ImageReplied(200, picture));
    TurnFetchesIff(input, settings, replies);
    assert TurnAnswer(input, settings, replies) == Answer(Strip(content), input);
    assert TurnImage(input, settings, replies) == Some(picture);
  }

  /** The end-to-end case "draw a sunset over mountains". */
  lemma DrawSunsetTurn(content: string, picture: seq<byte>)
    requires picture != []
    ensures var input := "draw a sunset over mountains";
            var settings := Settings(false, true);
            var replies := Replies(SearchRaised, SearchRaised, Completed(content), ImageReplied(200, picture));
            TurnRequests(input, settings, replies) == [ChatRequest(input, NoSearchContext), ImageFetch(ImageUrl(input))] &&
            TurnAssistant(input, settings, replies) == Message(Assistant, FilterPolicy(Strip(content)), Some(picture))
  {
    NeedsImageByLeadingKeyword("draw a sunset over mountains", 5);
    ImageTurn("draw a sunset over mountains", content, picture);
  }

  // ---------------------------------------------------------------------------
  // The session's conversation log (app.py:46-56, 76-118)
  // ---------------------------------------------------------------------------

  /** `st.session_state.messages` of one session. */
  class ChatSession {
    var messages: seq<Message>

    /** The first run of the script creates an empty log. */
    constructor ()
      ensures messages == []
    {
      messages := [];
    }

    /** The "Clear Chat History" button. */
    method Clear()
      modifies this
      ensures messages == []
    {
      messages := [];
    }

    /** The body of `if user_input:`: the user entry is appended, the turn is
        computed, and the assistant entry is appended and returned for display. */
    method HandleTurn(input: string, settings: Settings, replies: Replies) returns (shown: Message)
      requires input != ""
      modifies this
      ensures |messages| == |old(messages)| + 2
      ensures messages[..|old(messages)|] == old(messages)
      ensures messages[|old(messages)|] == Message(User, input, None)
      ensures messages[|old(messages)| + 1] == shown == TurnAssistant(input, settings, replies)
    {
      messages := messages + [Message(User, input, None)];
      var context := TurnContext(input, settings, replies);
      var answer := AskGemini(input, context, replies.completion);
      var text := FilterPolicy(answer.text);
      var imageBytes: Option<seq<byte>> := None;
      if answer.imagePrompt != "" && settings.generateImages {
        imageBytes := PollinationsImage(replies.image);
      }
      assert imageBytes == TurnImage(input, settings, replies);
      var msg := Message(Assistant, text, None);
      if imageBytes.Some? && imageBytes.value != [] {
        msg := msg.(image := imageBytes);
      }
      assert msg == TurnAssistant(input, settings, replies);
      messages := messages + [msg];
      shown := msg;
    }

    /** One run of the script after the first: the clear button is handled
        before the input, and an absent or empty input handles no turn. */
    method Run(clearPressed: bool, input: Option<string>, settings: Settings, replies: Replies)
      modifies this
      ensures var before := if clearPressed then [] else old(messages);
              messages == if input.Some? && input.value != "" then
                            before + [Message(User, input.value, None), TurnAssistant(input.value, settings, replies)]
                          else before
    {
      if clearPressed {
        Clear();
      }
      if input.Some? && input.value != "" {
        var shown := HandleTurn(input.value, settings, replies);
      }
    }
  }
}
