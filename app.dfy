/** The session of the single-page app (App.tsx): one mutable root whose fields the
    handlers update step by step. An `await` on the model client splits a handler into a
    `Begin` step (what runs before the call) and a `Complete` step (what runs once the call
    settles); the handler itself is the two steps run back to back with the reply as input. */
module App {
  import opened Types
  import opened Strings
  import GeminiService

  const DetectionFailed := "Error detecting chapters. Please try again."
  const AnalysisFailed := "Error analyzing content. Please try again."
  const DefaultLanguage := "español"

  class Session {
    var status: AppStatus
    /** The signed-in user's id, as the auth listener reports it. */
    var user: Option<string>
    var text: string
    var language: string
    var chapters: seq<Chapter>
    var selectedChapter: Option<Chapter>
    var style: AnalysisStyle
    var analysis: Option<CourseAnalysis>
    var chatHistory: seq<ChatMessage>
    var error: Option<string>

    /** The selection is one of the chapters on offer. */
    predicate SelectionCurrent()
      reads this
    {
      selectedChapter.Some? ==> selectedChapter.value in chapters
    }

    constructor()
      ensures status == Idle && user == None && text == "" && language == DefaultLanguage
      ensures chapters == [] && selectedChapter == None && style == Medium
      ensures analysis == None && chatHistory == [] && error == None
      ensures SelectionCurrent()
    {
      status := Idle;
      user := None;
      text := "";
      language := DefaultLanguage;
      chapters := [];
      selectedChapter := None;
      style := Medium;
      analysis := None;
      chatHistory := [];
      error := None;
    }

    // ------------------------------------------------------------ handleDetectChapters

    /** Up to the `await`: blank text does nothing; otherwise the status goes to parsing,
        the error is cleared, and the request is sent. */
    method BeginDetection() returns (request: Option<GeminiService.ModelRequest>)
      modifies this
      ensures IsBlank(old(text)) ==> request == None && unchanged(this)
      ensures !IsBlank(old(text)) ==>
                request == Some(GeminiService.DetectionRequest(old(text), old(language)))
                && status == Parsing && error == None
      ensures text == old(text) && language == old(language) && user == old(user)
      ensures chapters == old(chapters) && selectedChapter == old(selectedChapter)
      ensures style == old(style) && analysis == old(analysis) && chatHistory == old(chatHistory)
    {
      if IsBlank(text) {
        return None;
      }
      status := Parsing;
      error := None;
      request := Some(GeminiService.DetectionRequest(text, language));
    }

    /** After the `await`: the detected list becomes the chapters and the status moves to
        configuring, or the status moves to error with a message. The selection is left as
        it was. */
    method CompleteDetection(outcome: Result<seq<Chapter>>)
      modifies this
      ensures outcome.Ok? ==> chapters == outcome.value && status == Configuring && error == old(error)
      ensures outcome.Err? ==> chapters == old(chapters) && status == Error && error == Some(DetectionFailed)
      ensures text == old(text) && language == old(language) && user == old(user)
      ensures selectedChapter == old(selectedChapter)
      ensures style == old(style) && analysis == old(analysis) && chatHistory == old(chatHistory)
    {
      match outcome {
        case Ok(detected) =>
          chapters := detected;
          status := Configuring;
        case Err(_) =>
          error := Some(DetectionFailed);
          status := Error;
      }
    }

    /** `handleDetectChapters`, with the model's reply and `JSON.parse` as inputs. */
    method DetectChapters(reply: GeminiService.Reply, parse: string -> Option<seq<GeminiService.RawChapter>>)
      returns (request: Option<GeminiService.ModelRequest>)
      modifies this
      ensures IsBlank(old(text)) ==> request == None && unchanged(this)
      ensures !IsBlank(old(text)) ==>
                request == Some(GeminiService.DetectionRequest(old(text), old(language)))
                && error == (if status == Error then Some(DetectionFailed) else None)
                && match GeminiService.DetectChapters(reply, parse)
                   case Ok(detected) => status == Configuring && chapters == detected
                   case Err(_) => status == Error && chapters == old(chapters)
      ensures text == old(text) && language == old(language) && user == old(user)
      ensures selectedChapter == old(selectedChapter)
      ensures style == old(style) && analysis == old(analysis) && chatHistory == old(chatHistory)
    {
      request := BeginDetection();
      if request == None {
        return;
      }
      CompleteDetection(GeminiService.DetectChapters(reply, parse));
    }

    /** The detection step with the selection dropped along with the old chapter list:
        the selection then stays one of the chapters on offer. */
    method CompleteDetectionDroppingSelection(outcome: Result<seq<Chapter>>)
      requires SelectionCurrent()
      modifies this
      ensures SelectionCurrent()
      ensures outcome.Ok? ==> chapters == outcome.value && status == Configuring
                              && selectedChapter == None && error == old(error)
      ensures outcome.Err? ==> chapters == old(chapters) && selectedChapter == old(selectedChapter)
                               && status == Error && error == Some(DetectionFailed)
      ensures text == old(text) && language == old(language) && user == old(user)
      ensures style == old(style) && analysis == old(analysis) && chatHistory == old(chatHistory)
    {
      CompleteDetection(outcome);
      if outcome.Ok? {
        selectedChapter := None;
      }
    }

    // ------------------------------------------------------------ handleStartAnalysis

    /** Up to the `await`: with no chapter selected nothing happens; otherwise the status
        goes to loading, the error is cleared, and the request carries the text's first
        400000 characters and the selected chapter's title. */
    method BeginAnalysis() returns (request: Option<GeminiService.ModelRequest>)
      modifies this
      ensures old(selectedChapter).None? ==> request == None && unchanged(this)
      ensures old(selectedChapter).Some? ==>
                request == Some(GeminiService.AnalysisRequest(old(text), old(style), old(selectedChapter).value.title, old(language)))
                && status == Loading && error == None
      ensures text == old(text) && language == old(language) && user == old(user)
      ensures chapters == old(chapters) && selectedChapter == old(selectedChapter)
      ensures style == old(style) && analysis == old(analysis) && chatHistory == old(chatHistory)
    {
      if selectedChapter.None? {
        return None;
      }
      status := Loading;
      error := None;
      request := Some(GeminiService.AnalysisRequest(text, style, selectedChapter.value.title, language));
    }

    /** After the `await`: the study guide is shown with an empty chat, or the status moves
        to error with a message and the previous guide and chapters stay. */
    method CompleteAnalysis(outcome: Result<CourseAnalysis>)
      modifies this
      ensures outcome.Ok? ==> analysis == Some(outcome.value) && chatHistory == [] && status == Success
                              && error == old(error)
      ensures outcome.Err? ==> analysis == old(analysis) && chatHistory == old(chatHistory)
                               && status == Error && error == Some(AnalysisFailed)
      ensures text == old(text) && language == old(language) && user == old(user)
      ensures chapters == old(chapters) && selectedChapter == old(selectedChapter) && style == old(style)
    {
      match outcome {
        case Ok(result) =>
          analysis := Some(result);
          chatHistory := [];
          status := Success;
        case Err(_) =>
          error := Some(AnalysisFailed);
          status := Error;
      }
    }

    /** `handleStartAnalysis`, with the model's reply and `JSON.parse` as inputs. */
    method StartAnalysis(reply: GeminiService.Reply, parse: string -> Option<CourseAnalysis>)
      returns (request: Option<GeminiService.ModelRequest>)
      modifies this
      ensures old(selectedChapter).None? ==> request == None && unchanged(this)
      ensures old(selectedChapter).Some? ==>
                request == Some(GeminiService.AnalysisRequest(old(text), old(style), old(selectedChapter).value.title, old(language)))
                && match GeminiService.AnalysisOutcome(old(style), old(selectedChapter).value.title, reply, parse)
                   case Ok(result) => status == Success && analysis == Some(result) && chatHistory == [] && error == None
                   case Err(_) => status == Error && analysis == old(analysis) && chatHistory == old(chatHistory)
                                  && error == Some(AnalysisFailed)
      ensures text == old(text) && language == old(language) && user == old(user)
      ensures chapters == old(chapters) && selectedChapter == old(selectedChapter) && style == old(style)
    {
      request := BeginAnalysis();
      if request == None {
        return;
      }
      var sent, outcome := GeminiService.AnalyzeCourseContent(text, style, selectedChapter.value.title, language, reply, parse);
      CompleteAnalysis(outcome);
    }

    // ------------------------------------------------------------ handleReset and the buttons

    /** `handleReset`: back to the empty landing screen. The chat, the style, the language
        and the user are kept. */
    method Reset()
      modifies this
      ensures analysis == None && chapters == [] && selectedChapter == None
      ensures status == Idle && text == "" && error == None
      ensures chatHistory == old(chatHistory) && style == old(style)
      ensures language == old(language) && user == old(user)
      ensures SelectionCurrent()
    {
      analysis := None;
      chapters := [];
      selectedChapter := None;
      status := Idle;
      text := "";
      error := None;
    }

    /** Go Back on the configuration screen: only the status changes. */
    method GoBack()
      modifies this
      ensures status == Idle
      ensures text == old(text) && chapters == old(chapters) && selectedChapter == old(selectedChapter)
      ensures language == old(language) && user == old(user) && style == old(style)
      ensures analysis == old(analysis) && chatHistory == old(chatHistory) && error == old(error)
    {
      status := Idle;
    }

    /** A click on the `i`-th chapter card: the cards are the chapters list. */
    method SelectChapter(i: nat)
      requires i < |chapters|
      modifies this
      ensures selectedChapter == Some(old(chapters)[i]) && SelectionCurrent()
      ensures status == old(status) && text == old(text) && chapters == old(chapters)
      ensures language == old(language) && user == old(user) && style == old(style)
      ensures analysis == old(analysis) && chatHistory == old(chatHistory) && error == old(error)
    {
      selectedChapter := Some(chapters[i]);
    }

    method SelectStyle(s: AnalysisStyle)
      modifies this
      ensures style == s
      ensures status == old(status) && text == old(text) && chapters == old(chapters)
      ensures selectedChapter == old(selectedChapter) && language == old(language) && user == old(user)
      ensures analysis == old(analysis) && chatHistory == old(chatHistory) && error == old(error)
    {
      style := s;
    }

    /** Typing in the text area. */
    method EditText(t: string)
      modifies this
      ensures text == t
      ensures status == old(status) && chapters == old(chapters) && style == old(style)
      ensures selectedChapter == old(selectedChapter) && language == old(language) && user == old(user)
      ensures analysis == old(analysis) && chatHistory == old(chatHistory) && error == old(error)
    {
      text := t;
    }

    method SelectLanguage(l: string)
      modifies this
      ensures language == l
      ensures status == old(status) && text == old(text) && chapters == old(chapters) && style == old(style)
      ensures selectedChapter == old(selectedChapter) && user == old(user)
      ensures analysis == old(analysis) && chatHistory == old(chatHistory) && error == old(error)
    {
      language := l;
    }

    /** `onChatUpdate`: the result view writes the chat history it was handed back here. */
    method SetChatHistory(h: seq<ChatMessage>)
      modifies this
      ensures chatHistory == h
      ensures status == old(status) && text == old(text) && chapters == old(chapters) && style == old(style)
      ensures selectedChapter == old(selectedChapter) && language == old(language) && user == old(user)
      ensures analysis == old(analysis) && error == old(error)
    {
      chatHistory := h;
    }
  }

  /** Detection as written keeps the old selection: select a chapter, go back, edit the
      text and detect again, and the selection is not among the new chapters, while the
      configuration screen still offers to analyse it. */
  method StaleSelection(first: Chapter, second: Chapter) returns (s: Session)
    requires first != second
    ensures s.status == Configuring && s.chapters == [second]
    ensures s.selectedChapter == Some(first) && !s.SelectionCurrent()
  {
    s := new Session();
    s.EditText("a");
    assert !IsBlank("a") by {
      BlankIffAllWhitespace("a");
      assert !IsJsWhitespace("a"[0]);
    }
    var _ := s.BeginDetection();
    s.CompleteDetection(Ok([first]));
    s.SelectChapter(0);
    s.GoBack();
    s.EditText("b");
    var _ := s.BeginDetection();
    s.CompleteDetection(Ok([second]));
  }

  /** The same steps with the selection dropped on detection leave nothing stale. */
  method FreshSelection(first: Chapter, second: Chapter) returns (s: Session)
    ensures s.status == Configuring && s.chapters == [second]
    ensures s.selectedChapter == None && s.SelectionCurrent()
  {
    s := new Session();
    s.EditText("a");
    var _ := s.BeginDetection();
    s.CompleteDetectionDroppingSelection(Ok([first]));
    s.SelectChapter(0);
    s.GoBack();
    s.EditText("b");
    var _ := s.BeginDetection();
    s.CompleteDetectionDroppingSelection(Ok([second]));
  }
}
