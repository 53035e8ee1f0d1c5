/** The records exchanged between the session, the result view and the model client
    (types.ts). They carry no behaviour of their own. */
module Types {

  /** A value that may be absent: JavaScript's `undefined` / `null`. */
  datatype Option<+T> = None | Some(value: T)

  /** Why a remote step produced no value. */
  datatype Failure =
    | RemoteFailure(message: string)   // the model call itself rejected
    | MalformedJson                    // JSON.parse threw on the reply text

  /** The value of an awaited call: a result or the exception it threw. */
  datatype Result<+T> = Ok(value: T) | Err(failure: Failure)

  datatype PracticalExample = PracticalExample(title: string, description: string, analogy: string)

  /** `correctIndex` is whatever the model sent: nothing checks it against `options`. */
  datatype QuizQuestion = QuizQuestion(question: string, options: seq<string>, correctIndex: int, explanation: string)

  datatype Chapter = Chapter(id: string, title: string, content: string, studied: bool)

  datatype TimelineItem = TimelineItem(date: string, event: string, description: string)

  datatype MindMapNode = MindMapNode(concept: string, details: seq<string>, subConcepts: Option<seq<MindMapNode>>)

  datatype GroundingUrl = GroundingUrl(title: string, uri: string)

  /** The study guide; the optional members of the interface are `Option`s. */
  datatype CourseAnalysis = CourseAnalysis(
    topicTitle: string,
    summary: string,
    keyPoints: seq<string>,
    examples: seq<PracticalExample>,
    quiz: seq<QuizQuestion>,
    chapterId: Option<string>,
    groundingUrls: Option<seq<GroundingUrl>>,
    commonQuestions: Option<seq<string>>,
    timeline: Option<seq<TimelineItem>>,
    mindMap: Option<seq<MindMapNode>>)

  datatype AnalysisStyle = Internet | Basic | Medium | Hard

  datatype Role = User | Bot

  datatype ChatMessage = ChatMessage(id: string, role: Role, text: string)

  /** `SelectingLanguage` is declared by the enum but no code ever enters it. */
  datatype AppStatus = Idle | SelectingLanguage | Parsing | Configuring | Loading | Success | Error
}
