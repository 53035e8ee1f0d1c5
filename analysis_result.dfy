/** The study-guide view (components/AnalysisResult.tsx) apart from `renderMarkdown`: the
    summary cut into pages, the quiz list that grows by appending, the chat over the
    document, and the answer lock of each quiz card. The chat history is the session's
    (`history` and `onChatUpdate` are the session's field and its setter). */
module AnalysisResult {
  import opened Types
  import opened Strings
  import GeminiService
  import App

  const PageMarker := "---PAGE---"

  // ------------------------------------------------------------ pages

  /** `data.summary.split('---PAGE---')`: at least one page, no page holds the marker, and
      joining the pages with the marker gives the summary back. The first page ends where
      the leftmost marker starts. */
  function Pages(summary: string): (pages: seq<string>)
    ensures |pages| >= 1
    ensures Join(pages, PageMarker) == summary
    ensures forall i :: 0 <= i < |pages| ==> !Occurs(pages[i], PageMarker)
    ensures IndexOf(summary, PageMarker, 0).None? ==> pages == [summary]
    ensures IndexOf(summary, PageMarker, 0).Some? ==>
      pages[0] == summary[..IndexOf(summary, PageMarker, 0).value]
  {
    Split(summary, PageMarker)
  }

  /** Markers that share their dashes are cut left to right: the first one wins and the
      second is no longer whole. */
  lemma OverlappingMarkers()
    ensures Pages("---PAGE---PAGE---") == ["", "PAGE---"]
  {
    var s := "---PAGE---PAGE---";
    IndexOfIs(s, PageMarker, 0, 0);
    var rest := s[|PageMarker|..];
    assert rest == "PAGE---";
  }

  /** A summary without the marker is one page, itself. */
  lemma OnePageIffNoMarker(summary: string)
    ensures |Pages(summary)| == 1 <==> !Occurs(summary, PageMarker)
    ensures !Occurs(summary, PageMarker) ==> Pages(summary) == [summary]
  {
    SplitSingleIff(summary, PageMarker);
  }

  /** A summary with `k` markers (counted left to right without overlap) is `k + 1` pages. */
  lemma PageCount(summary: string)
    ensures |Pages(summary)| == CountOccurrences(summary, PageMarker) + 1
  {
    SplitCount(summary, PageMarker);
  }

  // ------------------------------------------------------------ quiz items

  /** The colour an option is drawn in. */
  datatype Mark = Open | Right | Wrong | Faded

  /** What a click on option `i` leaves selected: the first choice is kept. */
  function Choice(selected: Option<nat>, i: nat): (r: Option<nat>)
    ensures r.Some?
    ensures selected.Some? ==> r == selected
    ensures selected.None? ==> r == Some(i)
  {
    if selected.None? then Some(i) else selected
  }

  /** The selection after a sequence of clicks. */
  function AfterClicks(selected: Option<nat>, clicks: seq<nat>): Option<nat>
    decreases |clicks|
  {
    if clicks == [] then selected else AfterClicks(Choice(selected, clicks[0]), clicks[1..])
  }

  /** Once an answer is recorded, no click changes it. */
  lemma {:induction false} AnsweredStays(v: nat, clicks: seq<nat>)
    ensures AfterClicks(Some(v), clicks) == Some(v)
    decreases |clicks|
  {
    if clicks != [] {
      AnsweredStays(v, clicks[1..]);
    }
  }

  /** The first click of any sequence is the answer. */
  lemma FirstClickWins(clicks: seq<nat>)
    requires clicks != []
    ensures AfterClicks(None, clicks) == Some(clicks[0])
  {
    AnsweredStays(clicks[0], clicks[1..]);
  }

  /** How option `i` is drawn: nothing is marked before an answer; after it the correct
      option is green, the chosen wrong one red and the rest faded. */
  function MarkOf(q: QuizQuestion, selected: Option<nat>, i: nat): (m: Mark)
    ensures (m == Open) <==> selected.None?
    ensures m == Right <==> selected.Some? && i == q.correctIndex
    ensures m == Wrong <==> selected.Some? && i == selected.value && i != q.correctIndex
  {
    if selected.None? then Open
    else if i == q.correctIndex then Right
    else if i == selected.value then Wrong
    else Faded
  }

  /** After an answer, no option is left unmarked, the chosen option is green or red,
      no other option is red, exactly one option is green when `correctIndex` names an
      option, and the chosen option is green exactly when it was the correct one. */
  lemma AnsweredMarks(q: QuizQuestion, v: nat)
    ensures forall i :: MarkOf(q, Some(v), i) != Open
    ensures MarkOf(q, Some(v), v) == Right || MarkOf(q, Some(v), v) == Wrong
    ensures forall i :: MarkOf(q, Some(v), i) == Wrong ==> i == v
    ensures MarkOf(q, Some(v), v) == Right <==> v == q.correctIndex
    ensures forall i :: 0 <= i < |q.options| && MarkOf(q, Some(v), i) == Right ==> i == q.correctIndex
    ensures 0 <= q.correctIndex < |q.options| ==> MarkOf(q, Some(v), q.correctIndex) == Right
  {
  }

  /** One quiz card and its selection state. */
  class QuizItem {
    const question: QuizQuestion
    var selected: Option<nat>

    constructor(q: QuizQuestion)
      ensures question == q && selected == None
    {
      question := q;
      selected := None;
    }

    /** The explanation panel: shown exactly when an answer is recorded. */
    function Explanation(): (shown: Option<string>)
      reads this
      ensures shown.Some? <==> selected.Some?
      ensures shown.Some? ==> shown.value == question.explanation
    {
      if selected.Some? then Some(question.explanation) else None
    }

    /** A click on the `i`-th option button: the buttons are the options, disabled once
        answered. */
    method Click(i: nat)
      requires i < |question.options|
      modifies this
      ensures selected == Choice(old(selected), i)
    {
      if selected.None? {
        selected := Some(i);
      }
    }
  }

  // ------------------------------------------------------------ quiz list and chat

  /** The quiz list once a request for more questions settles: the new questions are
      appended, and a failed request leaves the list as it was. */
  function QuizAfter(quiz: seq<QuizQuestion>, outcome: Result<seq<QuizQuestion>>): (r: seq<QuizQuestion>)
    ensures quiz <= r
    ensures outcome.Ok? ==> |r| == |quiz| + |outcome.value| && r[|quiz|..] == outcome.value
    ensures outcome.Err? ==> r == quiz
  {
    match outcome
    case Ok(more) => quiz + more
    case Err(_) => quiz
  }

  /** Loading more twice appends both batches in order. */
  lemma QuizAfterTwice(quiz: seq<QuizQuestion>, a: seq<QuizQuestion>, b: seq<QuizQuestion>)
    ensures QuizAfter(QuizAfter(quiz, Ok(a)), Ok(b)) == QuizAfter(quiz, Ok(a + b))
  {
    AppendAssoc(quiz, a, b);
  }

  /** Whether the send button acts: a question that is not blank and none in flight. */
  predicate CanAsk(question: string, isAsking: bool) {
    !IsBlank(question) && !isAsking
  }

  /** The history the answer step writes: the history captured when the question was sent,
      then the question and the answer. */
  function Exchange(captured: seq<ChatMessage>, asked: ChatMessage, answer: ChatMessage): (h: seq<ChatMessage>)
    ensures |h| == |captured| + 2 && h[..|captured|] == captured
    ensures h[|captured|] == asked && h[|captured| + 1] == answer
  {
    captured + [asked, answer]
  }

  /** The view's own state; the chat history lives in the session. */
  class ResultView {
    const session: App.Session
    const data: CourseAnalysis
    var quiz: seq<QuizQuestion>
    var loadingMore: bool
    var question: string
    var isAsking: bool
    /** What the pending question's closure captured: the history it was sent over, and
        the user message. */
    var captured: seq<ChatMessage>
    var asked: ChatMessage

    constructor(s: App.Session, d: CourseAnalysis)
      ensures session == s && data == d && quiz == d.quiz
      ensures !loadingMore && question == "" && !isAsking
    {
      session := s;
      data := d;
      quiz := d.quiz;
      loadingMore := false;
      question := "";
      isAsking := false;
      captured := [];
      asked := ChatMessage("", User, "");
    }

    /** The pages the summary is shown on. */
    function SummaryPages(): (pages: seq<string>)
      ensures |pages| >= 1 && Join(pages, PageMarker) == data.summary
    {
      Pages(data.summary)
    }

    // ---------------------------------------------------------- handleLoadMoreQuestions

    /** Up to the `await`: the button shows as busy and the request goes out. */
    method BeginLoadMore() returns (request: GeminiService.ModelRequest)
      modifies this
      ensures loadingMore
      ensures request == GeminiService.MoreQuestionsRequest(session.text, |quiz|, session.language)
      ensures quiz == old(quiz) && question == old(question) && isAsking == old(isAsking)
      ensures captured == old(captured) && asked == old(asked)
    {
      loadingMore := true;
      request := GeminiService.MoreQuestionsRequest(session.text, |quiz|, session.language);
    }

    /** After the `await` (the `finally`): the returned questions are appended to the list
        as it stands then, and the button is free again. */
    method CompleteLoadMore(outcome: Result<seq<QuizQuestion>>)
      modifies this
      ensures quiz == QuizAfter(old(quiz), outcome) && !loadingMore
      ensures question == old(question) && isAsking == old(isAsking)
      ensures captured == old(captured) && asked == old(asked)
    {
      match outcome {
        case Ok(more) => quiz := quiz + more;
        case Err(_) =>
      }
      loadingMore := false;
    }

    /** `handleLoadMoreQuestions`, with the reply and `JSON.parse` as inputs. */
    method LoadMoreQuestions(reply: GeminiService.Reply, parse: string -> Option<seq<QuizQuestion>>)
      returns (request: GeminiService.ModelRequest)
      modifies this
      ensures request == GeminiService.MoreQuestionsRequest(session.text, |old(quiz)|, session.language)
      ensures quiz == QuizAfter(old(quiz), GeminiService.MoreQuestions(reply, parse)) && !loadingMore
      ensures question == old(question) && isAsking == old(isAsking)
      ensures captured == old(captured) && asked == old(asked)
    {
      request := BeginLoadMore();
      CompleteLoadMore(GeminiService.MoreQuestions(reply, parse));
    }

    // ---------------------------------------------------------- handleAskQuestion

    /** Typing in the question box. */
    method EditQuestion(q: string)
      modifies this
      ensures question == q
      ensures quiz == old(quiz) && loadingMore == old(loadingMore) && isAsking == old(isAsking)
      ensures captured == old(captured) && asked == old(asked)
    {
      question := q;
    }

    /** Up to the `await`: a blank question, or one sent while another is in flight, does
        nothing. Otherwise the user message is appended to the history at once, the box is
        cleared, and the request carries the question. */
    method BeginAsk(id: string) returns (request: Option<GeminiService.ModelRequest>)
      modifies this, session
      ensures !CanAsk(old(question), old(isAsking)) ==>
                request == None && unchanged(this) && unchanged(session)
      ensures CanAsk(old(question), old(isAsking)) ==>
                var msg := ChatMessage(id, User, old(question));
                && session.chatHistory == old(session.chatHistory) + [msg]
                && captured == old(session.chatHistory) && asked == msg
                && question == "" && isAsking
                && request == Some(GeminiService.QuestionRequest(session.text, msg.text, session.language))
      ensures quiz == old(quiz) && loadingMore == old(loadingMore)
      ensures session.status == old(session.status) && session.text == old(session.text)
      ensures session.language == old(session.language) && session.analysis == old(session.analysis)
      ensures session.chapters == old(session.chapters) && session.selectedChapter == old(session.selectedChapter)
      ensures session.style == old(session.style) && session.user == old(session.user)
      ensures session.error == old(session.error)
    {
      if !CanAsk(question, isAsking) {
        return None;
      }
      var userMsg := ChatMessage(id, User, question);
      captured := session.chatHistory;
      asked := userMsg;
      session.SetChatHistory(session.chatHistory + [userMsg]);
      question := "";
      isAsking := true;
      request := Some(GeminiService.QuestionRequest(session.text, userMsg.text, session.language));
    }

    /** After the `await`: an answer writes the captured history, the question and the
        answer, whatever the history became meanwhile; a failed call leaves the history as
        it is. Either way the send button is free again. */
    method CompleteAsk(reply: GeminiService.Reply, id: string)
      modifies this, session
      ensures match GeminiService.Answer(reply)
              case Ok(a) => session.chatHistory == Exchange(old(captured), old(asked), ChatMessage(id, Bot, a))
              case Err(_) => session.chatHistory == old(session.chatHistory)
      ensures !isAsking
      ensures quiz == old(quiz) && loadingMore == old(loadingMore) && question == old(question)
      ensures captured == old(captured) && asked == old(asked)
      ensures session.status == old(session.status) && session.text == old(session.text)
      ensures session.language == old(session.language) && session.analysis == old(session.analysis)
      ensures session.chapters == old(session.chapters) && session.selectedChapter == old(session.selectedChapter)
      ensures session.style == old(session.style) && session.user == old(session.user)
      ensures session.error == old(session.error)
    {
      match GeminiService.Answer(reply) {
        case Ok(a) =>
          session.SetChatHistory(captured + [asked, ChatMessage(id, Bot, a)]);
        case Err(_) =>
      }
      isAsking := false;
    }

    /** `handleAskQuestion` with nothing in between: the history grows by the question and
        its answer, or by the question alone when the call fails. */
    method AskQuestion(reply: GeminiService.Reply, userId: string, botId: string)
      returns (request: Option<GeminiService.ModelRequest>)
      modifies this, session
      ensures !CanAsk(old(question), old(isAsking)) ==>
                request == None && unchanged(this) && unchanged(session)
      ensures CanAsk(old(question), old(isAsking)) ==>
                var msg := ChatMessage(userId, User, old(question));
                && request == Some(GeminiService.QuestionRequest(session.text, msg.text, session.language))
                && question == "" && !isAsking
                && match GeminiService.Answer(reply)
                   case Ok(a) => session.chatHistory == old(session.chatHistory) + [msg, ChatMessage(botId, Bot, a)]
                   case Err(_) => session.chatHistory == old(session.chatHistory) + [msg]
      ensures quiz == old(quiz) && loadingMore == old(loadingMore)
      ensures session.status == old(session.status) && session.text == old(session.text)
      ensures session.language == old(session.language) && session.analysis == old(session.analysis)
      ensures session.chapters == old(session.chapters) && session.selectedChapter == old(session.selectedChapter)
      ensures session.style == old(session.style) && session.user == old(session.user)
      ensures session.error == old(session.error)
    {
      request := BeginAsk(userId);
      if request == None {
        return;
      }
      CompleteAsk(reply, botId);
    }

    /** Reset Chat: the history is emptied. */
    method ResetChat()
      modifies session
      ensures session.chatHistory == []
      ensures session.status == old(session.status) && session.text == old(session.text)
      ensures session.language == old(session.language) && session.analysis == old(session.analysis)
      ensures session.chapters == old(session.chapters) && session.selectedChapter == old(session.selectedChapter)
      ensures session.style == old(session.style) && session.user == old(session.user)
      ensures session.error == old(session.error)
    {
      session.SetChatHistory([]);
    }
  }

  /** Reset Chat while a question is in flight does not stick: the answer step writes the
      history captured at send time back, with the question and answer after it. */
  method ResetDuringAnswer(v: ResultView, reply: GeminiService.Reply, userId: string, botId: string)
    requires v.session.chatHistory != [] && CanAsk(v.question, v.isAsking)
    requires reply.Replied?
    modifies v, v.session
    ensures |v.session.chatHistory| == |old(v.session.chatHistory)| + 2
    ensures v.session.chatHistory[..|old(v.session.chatHistory)|] == old(v.session.chatHistory)
    ensures v.session.chatHistory[|old(v.session.chatHistory)|..] ==
              [ChatMessage(userId, User, old(v.question)),
               ChatMessage(botId, Bot, GeminiService.Answer(reply).value)]
  {
    var _ := v.BeginAsk(userId);
    v.ResetChat();
    v.CompleteAsk(reply, botId);
  }
}
