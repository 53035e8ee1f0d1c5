/** The deterministic work around each call to the generative model
    (services/geminiService.ts): what each request carries, and how each reply is turned
    into chapters, a study guide, quiz questions or an answer. The remote call is an input
    (`Reply`), and `JSON.parse` is an input function that yields `None` where it throws. */
module GeminiService {
  import opened Types
  import opened Strings

  /** How much of the input each prompt embeds (`text.substring(0, N)`). */
  const DetectSourceLimit: nat := 500000
  const AnalysisSourceLimit: nat := 400000
  const QuizSourceLimit: nat := 200000
  const QuestionSourceLimit: nat := 800000

  const FlashModel := "gemini-3-flash-preview"
  const ProModel := "gemini-3-pro-preview"
  const JsonMimeType := "application/json"

  const InternetDepth := "Provide an EXTENSIVE summary (min 1500 words). Use Google Search to enrich the content with real-world industry trends and verified data."
  const BasicDepth := "Provide a BASIC summary (min 800 words) focusing on core fundamentals and easy-to-understand definitions."
  const MediumDepth := "Provide a DETAILED summary (min 2000 words). Balance theory with practical implementation examples."
  const HardDepth := "Provide an EXHAUSTIVE technical analysis (min 4000 words). Include edge cases, historical context, and advanced logic."

  const InternetKeyPoint := "Detailed analysis generated with Google Search grounding."
  const MissingSummary := "Error processing summary."
  const FallbackKeyPoint := "The output could not be formatted as JSON. Displaying raw data."
  const NoAnswer := "I'm sorry, I couldn't process an answer for that."

  datatype Tool = GoogleSearch

  /** Which response schema a request declares. */
  datatype Schema = ChapterListSchema | CourseAnalysisSchema | QuizListSchema

  /** The parts of a `generateContent` request that vary: the model, the values spliced
      into the prompt template (language, chapter title or question, the embedded source
      text, the depth instruction) and the configuration. */
  datatype ModelRequest = ModelRequest(
    model: string,
    language: string,
    subject: string,
    source: string,
    instruction: string,
    tools: seq<Tool>,
    mimeType: Option<string>,
    schema: Option<Schema>)

  datatype WebSource = WebSource(title: string, uri: string)
  datatype GroundingChunk = GroundingChunk(web: Option<WebSource>)
  datatype GroundingMetadata = GroundingMetadata(groundingChunks: Option<seq<GroundingChunk>>)
  datatype Candidate = Candidate(groundingMetadata: Option<GroundingMetadata>)

  /** What the client reads of a model response. */
  datatype Response = Response(text: Option<string>, candidates: Option<seq<Candidate>>)

  /** The awaited remote call: a response, or the exception it rejected with. */
  datatype Reply = Replied(response: Response) | Threw(message: string)

  /** One element of the chapter list the detection schema asks for. */
  datatype RawChapter = RawChapter(id: string, title: string, content: string)

  /** `response.text || fallback`: an absent or empty text is replaced. */
  function TextOr(resp: Response, fallback: string): (t: string)
    ensures t == fallback || resp.text == Some(t)
    ensures resp.text.Some? && resp.text.value != "" ==> t == resp.text.value
    ensures fallback != "" ==> t != ""
  {
    match resp.text
    case Some(s) => if s != "" then s else fallback
    case None => fallback
  }

  predicate IsBoundedPrefix(s: string, text: string, n: nat) {
    |s| == (if |text| < n then |text| else n) && s == text[..|s|]
  }

  // ---------------------------------------------------------------- detectChapters

  function DetectionRequest(text: string, language: string): ModelRequest {
    ModelRequest(FlashModel, language, "", Prefix(text, DetectSourceLimit), "", [],
                 Some(JsonMimeType), Some(ChapterListSchema))
  }

  /** `{ ...c, studied: false }` over the parsed list. */
  function TagChapters(raw: seq<RawChapter>): (chapters: seq<Chapter>)
    ensures |chapters| == |raw|
    ensures forall i :: 0 <= i < |raw| ==>
              chapters[i] == Chapter(raw[i].id, raw[i].title, raw[i].content, false)
    decreases |raw|
  {
    if raw == [] then []
    else [Chapter(raw[0].id, raw[0].title, raw[0].content, false)] + TagChapters(raw[1..])
  }

  /** The outcome of `detectChapters` given the reply: a failed call or unparsable text
      rejects, otherwise the parsed list is tagged: one unstudied chapter per parsed
      element, in order, with its id, title and content. */
  function DetectChapters(reply: Reply, parse: string -> Option<seq<RawChapter>>): (r: Result<seq<Chapter>>)
    ensures reply.Threw? ==> r == Err(RemoteFailure(reply.message))
    ensures reply.Replied? && parse(TextOr(reply.response, "[]")).None? ==> r == Err(MalformedJson)
    ensures reply.Replied? && parse(TextOr(reply.response, "[]")).Some? ==>
      var raw := parse(TextOr(reply.response, "[]")).value;
      && r.Ok? && |r.value| == |raw|
      && forall i :: 0 <= i < |raw| ==>
           && r.value[i].id == raw[i].id && r.value[i].title == raw[i].title
           && r.value[i].content == raw[i].content
    ensures r.Ok? ==> forall i :: 0 <= i < |r.value| ==> !r.value[i].studied
  {
    match reply
    case Threw(m) => Err(RemoteFailure(m))
    case Replied(resp) =>
      match parse(TextOr(resp, "[]"))
      case None => Err(MalformedJson)
      case Some(raw) => Ok(TagChapters(raw))
  }

  /** An empty reply text is read as `"[]"`, so it yields no chapters. */
  lemma EmptyReplyDetectsNothing(resp: Response, parse: string -> Option<seq<RawChapter>>)
    requires resp.text == None || resp.text == Some("")
    requires parse("[]") == Some([])
    ensures DetectChapters(Replied(resp), parse) == Ok([])
  {
  }

  // ---------------------------------------------------------------- analyzeCourseContent

  /** The depth instruction the `switch` on the style selects. */
  function DepthInstruction(style: AnalysisStyle): string {
    match style
    case Internet => InternetDepth
    case Basic => BasicDepth
    case Medium => MediumDepth
    case Hard => HardDepth
  }

  function SearchTools(style: AnalysisStyle): seq<Tool> {
    if style == Internet then [GoogleSearch] else []
  }

  /** The request `analyzeCourseContent` sends: the whole text goes in, but only its first
      400000 characters reach the prompt. */
  function AnalysisRequest(text: string, style: AnalysisStyle, chapterTitle: string, language: string): ModelRequest {
    var internet := style == Internet;
    ModelRequest(ProModel, language, chapterTitle, Prefix(text, AnalysisSourceLimit),
                 DepthInstruction(style), SearchTools(style),
                 if internet then None else Some(JsonMimeType),
                 if internet then None else Some(CourseAnalysisSchema))
  }

  /** Each style selects its own depth instruction. */
  lemma DepthInstructionsDistinct(a: AnalysisStyle, b: AnalysisStyle)
    requires a != b
    ensures DepthInstruction(a) != DepthInstruction(b)
  {
  }

  /** Search grounding is switched on, and the JSON mime type and schema switched off,
      exactly for the internet style. */
  lemma SearchOnlyForInternet(text: string, style: AnalysisStyle, chapterTitle: string, language: string)
    ensures var req := AnalysisRequest(text, style, chapterTitle, language);
            (req.tools != [] <==> style == Internet)
            && (req.mimeType.Some? <==> style != Internet)
            && (req.schema.Some? <==> style != Internet)
  {
  }

  /** The chunks under `response.candidates?.[0]?.groundingMetadata?.groundingChunks`. */
  function ChunksOf(resp: Response): Option<seq<GroundingChunk>> {
    match resp.candidates
    case None => None
    case Some(cs) =>
      if cs == [] then None
      else match cs[0].groundingMetadata
        case None => None
        case Some(m) => m.groundingChunks
  }

  function ToUrl(w: WebSource): GroundingUrl {
    GroundingUrl(w.title, w.uri)
  }

  /** `chunks.filter(c => c.web).map(c => ({ title: c.web.title, uri: c.web.uri }))`. */
  function WebUrls(chunks: seq<GroundingChunk>): (urls: seq<GroundingUrl>)
    ensures |urls| <= |chunks|
    decreases |chunks|
  {
    if chunks == [] then []
    else (match chunks[0].web
          case Some(w) => [ToUrl(w)]
          case None => []) + WebUrls(chunks[1..])
  }

  /** The grounding URLs of a response; none when the metadata is missing, and otherwise
      a URL is listed exactly when some web chunk carries it. */
  function GroundingUrls(resp: Response): (urls: seq<GroundingUrl>)
    ensures ChunksOf(resp).None? ==> urls == []
    ensures ChunksOf(resp).Some? ==> |urls| <= |ChunksOf(resp).value|
    ensures ChunksOf(resp).Some? ==>
              forall u :: u in urls <==>
                exists i :: 0 <= i < |ChunksOf(resp).value| && ChunksOf(resp).value[i].web.Some?
                            && ToUrl(ChunksOf(resp).value[i].web.value) == u
  {
    match ChunksOf(resp)
    case None => []
    case Some(chunks) =>
      assert forall u :: u in WebUrls(chunks) <==>
               exists i :: 0 <= i < |chunks| && chunks[i].web.Some? && ToUrl(chunks[i].web.value) == u
      by {
        forall u {
          WebUrlsMembership(chunks, u);
        }
      }
      WebUrls(chunks)
  }

  /** Filtering and mapping distributes over concatenation: the order of the chunks is kept. */
  lemma {:induction false} WebUrlsConcat(a: seq<GroundingChunk>, b: seq<GroundingChunk>)
    ensures WebUrls(a + b) == WebUrls(a) + WebUrls(b)
    decreases |a|
  {
    if a != [] {
      assert (a + b)[1..] == a[1..] + b;
      WebUrlsConcat(a[1..], b);
    } else {
      assert a + b == b;
    }
  }

  /** A URL is listed exactly when some chunk carries that web entry. */
  lemma {:induction false} WebUrlsMembership(chunks: seq<GroundingChunk>, u: GroundingUrl)
    ensures u in WebUrls(chunks) <==>
            exists i :: 0 <= i < |chunks| && chunks[i].web.Some? && ToUrl(chunks[i].web.value) == u
    decreases |chunks|
  {
    if chunks != [] {
      WebUrlsMembership(chunks[1..], u);
      if exists i :: 0 <= i < |chunks| && chunks[i].web.Some? && ToUrl(chunks[i].web.value) == u {
        var i :| 0 <= i < |chunks| && chunks[i].web.Some? && ToUrl(chunks[i].web.value) == u;
        if i > 0 {
          assert chunks[1..][i - 1] == chunks[i];
        }
      }
      if u in WebUrls(chunks[1..]) {
        var i :| 0 <= i < |chunks[1..]| && chunks[1..][i].web.Some? && ToUrl(chunks[1..][i].web.value) == u;
        assert chunks[i + 1] == chunks[1..][i];
      }
    }
  }

  /** When every chunk is a web chunk, every chunk yields a URL, in order. */
  lemma {:induction false} AllWebChunksKept(chunks: seq<GroundingChunk>)
    requires forall i :: 0 <= i < |chunks| ==> chunks[i].web.Some?
    ensures |WebUrls(chunks)| == |chunks|
    ensures forall i :: 0 <= i < |chunks| ==> WebUrls(chunks)[i] == ToUrl(chunks[i].web.value)
    decreases |chunks|
  {
    if chunks != [] {
      AllWebChunksKept(chunks[1..]);
    }
  }

  /** The fixed document of the internet style. */
  function InternetAnalysis(chapterTitle: string, resp: Response, urls: seq<GroundingUrl>): CourseAnalysis {
    CourseAnalysis(chapterTitle, TextOr(resp, MissingSummary), [InternetKeyPoint], [], [],
                   None, Some(urls), None, None, None)
  }

  /** The degraded document returned when the reply text does not parse. */
  function FallbackAnalysis(chapterTitle: string, rawText: string, urls: seq<GroundingUrl>): CourseAnalysis {
    CourseAnalysis(chapterTitle, rawText, [FallbackKeyPoint], [], [], None, Some(urls), None, None, None)
  }

  /** The outcome of `analyzeCourseContent` given the reply. Once a reply has arrived it
      never fails, and its grounding URLs are always attached. */
  function AnalysisOutcome(style: AnalysisStyle, chapterTitle: string, reply: Reply,
                           parse: string -> Option<CourseAnalysis>): (r: Result<CourseAnalysis>)
    ensures r.Err? <==> reply.Threw?
    ensures r.Ok? ==> r.value.groundingUrls == Some(GroundingUrls(reply.response))
    ensures r.Ok? && style == Internet ==>
              r.value.topicTitle == chapterTitle && r.value.quiz == [] && r.value.examples == []
              && r.value.keyPoints == [InternetKeyPoint] && r.value.summary != ""
  {
    match reply
    case Threw(m) => Err(RemoteFailure(m))
    case Replied(resp) =>
      var urls := GroundingUrls(resp);
      if style == Internet then Ok(InternetAnalysis(chapterTitle, resp, urls))
      else
        var rawText := TextOr(resp, "{}");
        match parse(rawText)
        case Some(doc) => Ok(doc.(groundingUrls := Some(urls)))
        case None => Ok(FallbackAnalysis(chapterTitle, rawText, urls))
  }

  /** Internet style: the summary is the reply text, or the fixed error string when the
      text is missing. */
  lemma InternetSummary(chapterTitle: string, resp: Response, parse: string -> Option<CourseAnalysis>)
    ensures var r := AnalysisOutcome(Internet, chapterTitle, Replied(resp), parse);
            r.Ok? && r.value.summary == (if resp.text.Some? && resp.text.value != "" then resp.text.value else MissingSummary)
  {
  }

  /** Other styles: a parsed document is returned whole, except that its grounding URLs are
      overwritten. */
  lemma ParsedDocumentKept(style: AnalysisStyle, chapterTitle: string, resp: Response,
                           parse: string -> Option<CourseAnalysis>)
    requires style != Internet
    requires parse(TextOr(resp, "{}")).Some?
    ensures var r := AnalysisOutcome(style, chapterTitle, Replied(resp), parse);
            r.Ok? && r.value.(groundingUrls := parse(TextOr(resp, "{}")).value.groundingUrls)
                     == parse(TextOr(resp, "{}")).value
  {
  }

  /** Other styles: text that does not parse still yields a document, holding the raw text
      as its summary. */
  lemma UnparsableReplyDegrades(style: AnalysisStyle, chapterTitle: string, resp: Response,
                                parse: string -> Option<CourseAnalysis>)
    requires style != Internet
    requires parse(TextOr(resp, "{}")).None?
    ensures var r := AnalysisOutcome(style, chapterTitle, Replied(resp), parse);
            r.Ok? && r.value.summary == TextOr(resp, "{}") && r.value.topicTitle == chapterTitle
            && r.value.examples == [] && r.value.quiz == [] && r.value.keyPoints == [FallbackKeyPoint]
  {
  }

  /** `analyzeCourseContent` as the source writes it: a `switch` that sets the depth
      instruction and the tools, then the reply shaping, with the grounding URLs written into
      the parsed object. */
  method AnalyzeCourseContent(text: string, style: AnalysisStyle, chapterTitle: string, language: string,
                              reply: Reply, parse: string -> Option<CourseAnalysis>)
    returns (request: ModelRequest, r: Result<CourseAnalysis>)
    ensures request == AnalysisRequest(text, style, chapterTitle, language)
    ensures r == AnalysisOutcome(style, chapterTitle, reply, parse)
  {
    var depthInstruction := "";
    var tools: seq<Tool> := [];
    var isInternetStyle := style == Internet;
    match style {
      case Internet =>
        tools := [GoogleSearch];
        depthInstruction := InternetDepth;
      case Basic =>
        depthInstruction := BasicDepth;
      case Medium =>
        depthInstruction := MediumDepth;
      case Hard =>
        depthInstruction := HardDepth;
    }
    request := ModelRequest(ProModel, language, chapterTitle, Prefix(text, AnalysisSourceLimit),
                            depthInstruction, tools,
                            if isInternetStyle then None else Some(JsonMimeType),
                            if isInternetStyle then None else Some(CourseAnalysisSchema));
    if reply.Threw? {
      r := Err(RemoteFailure(reply.message));
      return;
    }
    var response := reply.response;
    var groundingUrls := GroundingUrls(response);
    if isInternetStyle {
      r := Ok(InternetAnalysis(chapterTitle, response, groundingUrls));
      return;
    }
    var rawText := TextOr(response, "{}");
    match parse(rawText) {
      case Some(result) =>
        var doc := result;
        doc := doc.(groundingUrls := Some(groundingUrls));
        r := Ok(doc);
      case None =>
        r := Ok(FallbackAnalysis(chapterTitle, rawText, groundingUrls));
    }
  }

  // ---------------------------------------------------------------- generateMoreQuestions

  /** The request for ten more questions. The current question count is passed in but
      does not reach the request. */
  function MoreQuestionsRequest(context: string, currentCount: nat, language: string): ModelRequest {
    ModelRequest(FlashModel, language, "", Prefix(context, QuizSourceLimit), "", [],
                 Some(JsonMimeType), Some(QuizListSchema))
  }

  /** `JSON.parse(response.text || "[]")`: a thrown call is a failure, text that does not
      parse is malformed, and otherwise the parsed questions are the result. */
  function MoreQuestions(reply: Reply, parse: string -> Option<seq<QuizQuestion>>): (r: Result<seq<QuizQuestion>>)
    ensures reply.Threw? ==> r == Err(RemoteFailure(reply.message))
    ensures reply.Replied? && (reply.response.text == None || reply.response.text == Some("")) && parse("[]") == Some([])
            ==> r == Ok([])
    ensures reply.Replied? && parse(TextOr(reply.response, "[]")).None? ==> r == Err(MalformedJson)
    ensures reply.Replied? && parse(TextOr(reply.response, "[]")).Some? ==>
              r == Ok(parse(TextOr(reply.response, "[]")).value)
  {
    match reply
    case Threw(m) => Err(RemoteFailure(m))
    case Replied(resp) =>
      match parse(TextOr(resp, "[]"))
      case None => Err(MalformedJson)
      case Some(qs) => Ok(qs)
  }

  // ---------------------------------------------------------------- askDocumentQuestion

  function QuestionRequest(context: string, question: string, language: string): ModelRequest {
    ModelRequest(FlashModel, language, question, Prefix(context, QuestionSourceLimit), "", [], None, None)
  }

  /** The answer to a question: the reply text, or the fixed apology when it is empty. An
      answer is never empty. */
  function Answer(reply: Reply): (r: Result<string>)
    ensures r.Ok? <==> reply.Replied?
    ensures r.Ok? ==> r.value != ""
    ensures reply.Replied? && (reply.response.text == None || reply.response.text == Some("")) ==>
              r == Ok(NoAnswer)
    ensures reply.Replied? && reply.response.text.Some? && reply.response.text.value != "" ==>
              r == Ok(reply.response.text.value)
  {
    match reply
    case Threw(m) => Err(RemoteFailure(m))
    case Replied(resp) => Ok(TextOr(resp, NoAnswer))
  }

  /** Every prompt embeds a prefix of its input of length min(|input|, N), with N fixed per
      call. */
  lemma PromptsEmbedBoundedPrefix(text: string, style: AnalysisStyle, chapterTitle: string,
                                  question: string, count: nat, language: string)
    ensures IsBoundedPrefix(DetectionRequest(text, language).source, text, 500000)
    ensures IsBoundedPrefix(AnalysisRequest(text, style, chapterTitle, language).source, text, 400000)
    ensures IsBoundedPrefix(MoreQuestionsRequest(text, count, language).source, text, 200000)
    ensures IsBoundedPrefix(QuestionRequest(text, question, language).source, text, 800000)
  {
  }
}
