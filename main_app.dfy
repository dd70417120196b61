/** The older request handlers of main.py, which keep their own copy of the
    interview flow: /start_interview, the /ws websocket loop, the
    /get_interview_report endpoint and /jobs.

    The websocket loop differs from the InterviewManager in three ways that the
    lemmas below make precise: it reads the question index once, when the
    connection opens, so every answer on one connection is graded against the
    question that was current then; it has no completed flag, so answers after
    the last question push the index past the end and repeat the closing
    message; and it decodes the fenced block without removing control
    characters. */
module LegacyServer {
  import opened InterviewTypes
  import opened GeminiApi
  import opened Scoring
  import opened Report
  import JobScraper
  import Interviews

  /** One entry of the session table as start_interview stores it. */
  datatype LegacySession = LegacySession(
    jobTitle: string,
    history: seq<Turn>,
    questions: seq<Question>,
    cursor: nat,
    dimensions: seq<string>,
    results: map<string, seq<real>>)

  /** What every stored session satisfies. Unlike the manager's sessions there
      is no bound on the cursor. */
  predicate LegacyValid(s: LegacySession) {
    && |s.questions| > 0
    && s.dimensions == EvaluationDimensions
    && s.results.Keys == DimensionSet
  }

  // ---------------------------------------------------------------------------
  // /start_interview

  /** The request body as far as the handler reads it: not JSON, a JSON value
      that is not an object, or an object whose "job" entry is absent, not an
      object, or an object with an optional "title". */
  datatype JobField = NoJob | JobNotObject | JobObject(title: Option<string>)
  datatype RequestBody = BodyNotJson | BodyNotObject | Body(job: JobField)

  /** The title the handler works with, or the exception reading it raises. */
  function RequestedTitle(body: RequestBody): (r: Result<string, PyError>)
    ensures r.Ok? <==> body.Body? && !body.job.JobNotObject?
    ensures body == Body(NoJob) || body == Body(JobObject(None)) ==> r == Ok(UnknownJobTitle)
    ensures body.Body? && body.job.JobObject? && body.job.title.Some? ==> r == Ok(body.job.title.value)
  {
    match body
    case BodyNotJson => Err(ValueError)
    case BodyNotObject => Err(AttributeError)
    case Body(NoJob) => Ok(UnknownJobTitle)
    case Body(JobNotObject) => Err(AttributeError)
    case Body(JobObject(title)) => Ok(title.GetOr(UnknownJobTitle))
  }

  /** The question list start_interview builds from the Gemini reply. A None
      reply and a reply without candidates raise (TypeError, ValueError); the
      fenced block is decoded as it is; invalid JSON or an empty or missing
      list gives the fallback questions; a JSON value that is not an object
      raises AttributeError, and a null "questions" entry raises TypeError at
      `len(None)` in the log line. */
  function LegacyQuestions(jobTitle: string, reply: Reply, decode: string -> QuestionDoc)
    : (r: Result<seq<Question>, PyError>)
    ensures r.Ok? ==> |r.value| > 0
    ensures reply.NoReply? ==> r == Err(TypeError)
    ensures reply.Reply? && !HasCandidates(reply) ==> r == Err(ValueError)
    ensures HasCandidates(reply) ==>
      var doc := decode(FenceOrRaw(FirstText(reply)));
      && (r.Err? <==> doc.NonObjectQuestions? || doc == QuestionObject(None))
      && (doc.NonObjectQuestions? ==> r == Err(AttributeError))
      && (doc == QuestionObject(None) ==> r == Err(TypeError))
      && (doc.MalformedQuestions? || doc == QuestionObject(Some([])) ==> r == Ok(FallbackQuestions(jobTitle)))
    ensures r.Ok? && r.value != FallbackQuestions(jobTitle) ==>
      HasCandidates(reply) && decode(FenceOrRaw(FirstText(reply))) == QuestionObject(Some(r.value))
  {
    match reply
    case NoReply => Err(TypeError)
    case Reply(_) =>
      if !HasCandidates(reply) then Err(ValueError)
      else
        var listed := match decode(FenceOrRaw(FirstText(reply)))
          case MalformedQuestions => Ok([])
          case NonObjectQuestions => Err(AttributeError)
          case QuestionObject(None) => Err(TypeError)
          case QuestionObject(Some(questions)) => Ok(questions);
        match listed
        case Err(e) => Err(e)
        case Ok(questions) => Ok(if questions == [] then FallbackQuestions(jobTitle) else questions)
  }

  /** The two generators part ways on a reply without candidates: the manager
      falls back to the fixed questions, start_interview answers with an
      error. */
  lemma GeneratorsDifferWithoutCandidates(jobTitle: string, decode: string -> QuestionDoc)
    ensures Interviews.GenerateInterviewQuestions(jobTitle, Reply(None), decode) == Ok(FallbackQuestions(jobTitle))
    ensures LegacyQuestions(jobTitle, Reply(None), decode) == Err(ValueError)
  {
  }

  /** On a reply with candidates whose fenced block holds no control
      character, both generators produce the same outcome. */
  lemma GeneratorsAgreeOnCleanReplies(jobTitle: string, reply: Reply, decode: string -> QuestionDoc)
    requires HasCandidates(reply)
    requires FencedBody(FirstText(reply)).Some? ==>
      forall i :: 0 <= i < |FencedBody(FirstText(reply)).value| ==> !IsControl(FencedBody(FirstText(reply)).value[i])
    ensures Interviews.GenerateInterviewQuestions(jobTitle, reply, decode) == LegacyQuestions(jobTitle, reply, decode)
  {
    var text := FirstText(reply);
    if FencedBody(text).Some? {
      StripControlFixedPoint(FencedBody(text).value);
    }
    assert ExtractFromText(text) == FenceOrRaw(text);
  }

  /** The JSON response of start_interview: the first question with its audio
      and the session id, or a 500 carrying the exception. */
  datatype StartResponse = Started(text: string, audioUrl: string, sessionId: string) | ServerError(error: PyError)

  // ---------------------------------------------------------------------------
  // The /ws loop.

  /** A text frame's content: not JSON (logged and ignored), a JSON value that
      is not an object (`.get` raises), or an object with an optional "type". */
  datatype TextPayload = NotJson | NotObject | JsonObject(messageType: Option<string>)

  /** One received message: a text frame, an audio frame given by its Whisper
      transcript (empty when transcription failed), any other message, or the
      client going away. */
  datatype Event = TextMessage(payload: TextPayload) | AudioMessage(transcript: string) | OtherMessage | Disconnect

  /** Where the loop stands after one message: still open, closed by an
      end_interview signal (the session is kept), or failed or disconnected
      (the session is deleted). */
  datatype Step = Continue(session: LegacySession) | Closed(session: LegacySession) | Dropped

  /** The scores decoded from an evaluation reply: the fenced block taken as it
      is, none without candidates or for invalid JSON. */
  function LegacyScores(reply: Reply, decode: string -> ScoreDoc): (r: map<string, ScoreValue>)
    ensures !HasCandidates(reply) ==> r == map[]
    ensures HasCandidates(reply) && decode(FenceOrRaw(FirstText(reply))).MalformedScores? ==> r == map[]
  {
    if HasCandidates(reply) then
      match decode(FenceOrRaw(FirstText(reply)))
      case ScoreObject(fields) => fields
      case MalformedScores => map[]
    else map[]
  }

  /** Reference definition of one audio message. `start` is the question index
      read when the connection opened and `grade` the Gemini evaluation call
      on (question, answer). A blank transcript changes nothing. Otherwise the
      answer is recorded, the question at `start` is graded (IndexError past
      the list, TypeError on a None reply, both ending the connection), the
      stored index moves on by one and the next question, or the closing
      message once the list is exhausted, is spoken. */
  function AnswerStep(s: LegacySession, start: nat, answer: string,
                      grade: (string, string) -> Reply, decode: string -> ScoreDoc): (r: Step)
    ensures !r.Closed?
    ensures IsBlank(answer) ==> r == Continue(s)
    ensures r.Dropped? <==>
      !IsBlank(answer) && (start >= |s.questions| || grade(s.questions[start].text, answer).NoReply?)
    ensures r.Continue? && !IsBlank(answer) ==>
      r.session.questions == s.questions && r.session.cursor == s.cursor + 1
  {
    if IsBlank(answer) then Continue(s)
    else if start >= |s.questions| then Dropped
    else
      var reply := grade(s.questions[start].text, answer);
      if reply.NoReply? then Dropped
      else
        var next := s.cursor + 1;
        var spoken := if next < |s.questions| then s.questions[next].text else ClosingMessage;
        Continue(s.(history := s.history + [Turn(UserRole, answer), Turn(ModelRole, spoken)],
                    results := Credited(s.dimensions, s.results, LegacyScores(reply, decode)),
                    cursor := next))
  }

  function EventStep(s: LegacySession, start: nat, event: Event,
                     grade: (string, string) -> Reply, decode: string -> ScoreDoc): (r: Step)
    ensures r.Closed? <==> event == TextMessage(JsonObject(Some("end_interview")))
    ensures r.Closed? ==> r.session == s
    ensures !event.AudioMessage? && r.Continue? ==> r.session == s
    ensures event.Disconnect? || event == TextMessage(NotObject) ==> r.Dropped?
  {
    match event
    case TextMessage(NotJson) => Continue(s)
    case TextMessage(NotObject) => Dropped
    case TextMessage(JsonObject(messageType)) =>
      if messageType == Some("end_interview") then Closed(s) else Continue(s)
    case AudioMessage(answer) => AnswerStep(s, start, answer, grade, decode)
    case OtherMessage => Continue(s)
    case Disconnect => Dropped
  }

  /** The question text an event puts into an evaluation prompt, if any. */
  function GradedBy(s: LegacySession, start: nat, event: Event): seq<string> {
    if event.AudioMessage? && !IsBlank(event.transcript) && start < |s.questions| then [s.questions[start].text]
    else []
  }

  /** A connection's run over a sequence of messages: the session left behind
      (None once it is deleted) and the question texts sent for grading. */
  datatype Run = Run(session: Option<LegacySession>, graded: seq<string>)

  function RunEvents(s: LegacySession, start: nat, events: seq<Event>,
                     grade: (string, string) -> Reply, decode: string -> ScoreDoc): (r: Run)
    decreases |events|
    ensures |r.graded| <= |events|
    ensures events == [] ==> r == Run(Some(s), [])
    ensures r.session.None? ==> events != []
  {
    if events == [] then Run(Some(s), [])
    else
      var graded := GradedBy(s, start, events[0]);
      match EventStep(s, start, events[0], grade, decode)
      case Continue(t) =>
        var rest := RunEvents(t, start, events[1..], grade, decode);
        Run(rest.session, graded + rest.graded)
      case Closed(t) => Run(Some(t), graded)
      case Dropped => Run(None, graded)
  }

  /** A run takes its first message's step and goes on from there. */
  lemma RunEventsUnfold(s: LegacySession, start: nat, events: seq<Event>,
                        grade: (string, string) -> Reply, decode: string -> ScoreDoc)
    requires events != []
    ensures var graded := GradedBy(s, start, events[0]);
      RunEvents(s, start, events, grade, decode) ==
        match EventStep(s, start, events[0], grade, decode)
        case Continue(t) =>
          Run(RunEvents(t, start, events[1..], grade, decode).session,
              graded + RunEvents(t, start, events[1..], grade, decode).graded)
        case Closed(t) => Run(Some(t), graded)
        case Dropped => Run(None, graded)
  {
  }

  /** Where a run stands after one more message: `graded` has been sent so far
      and `s` is the session before message i. */
  lemma RunAfterStep(initial: LegacySession, s: LegacySession, start: nat, events: seq<Event>, i: nat,
                     graded: seq<string>, grade: (string, string) -> Reply, decode: string -> ScoreDoc)
    requires i < |events|
    requires var rest := RunEvents(s, start, events[i..], grade, decode);
      RunEvents(initial, start, events, grade, decode) == Run(rest.session, graded + rest.graded)
    ensures var sent := graded + GradedBy(s, start, events[i]);
      match EventStep(s, start, events[i], grade, decode)
      case Continue(t) =>
        var rest := RunEvents(t, start, events[i + 1..], grade, decode);
        RunEvents(initial, start, events, grade, decode) == Run(rest.session, sent + rest.graded)
      case Closed(t) => RunEvents(initial, start, events, grade, decode) == Run(Some(t), sent)
      case Dropped => RunEvents(initial, start, events, grade, decode) == Run(None, sent)
  {
    var tail := events[i..];
    assert tail[0] == events[i] && tail[1..] == events[i + 1..];
    RunEventsUnfold(s, start, tail, grade, decode);
    var here := GradedBy(s, start, events[i]);
    match EventStep(s, start, events[i], grade, decode)
    case Continue(t) =>
      var rest := RunEvents(t, start, events[i + 1..], grade, decode);
      assert RunEvents(s, start, tail, grade, decode) == Run(rest.session, here + rest.graded);
      assert graded + (here + rest.graded) == graded + here + rest.graded;
    case Closed(t) =>
    case Dropped =>
  }

  /** Every message keeps a session valid and its question list unchanged; an
      answered audio message moves the index on by exactly one. */
  lemma EventStepKeepsSession(s: LegacySession, start: nat, event: Event,
                              grade: (string, string) -> Reply, decode: string -> ScoreDoc)
    requires LegacyValid(s)
    ensures match EventStep(s, start, event, grade, decode)
      case Continue(t) =>
        && LegacyValid(t) && t.questions == s.questions
        && t.cursor == s.cursor + |GradedBy(s, start, event)|
      case Closed(t) => t == s && GradedBy(s, start, event) == []
      case Dropped => true
  {
  }

  /** The stale index: on one connection opened at index `start`, every answer
      is graded against question `start`, however far the stored index has
      moved on, and the stored index counts the graded answers. */
  lemma {:induction false} StaleQuestionGraded(s: LegacySession, start: nat, events: seq<Event>,
                                               grade: (string, string) -> Reply, decode: string -> ScoreDoc)
    requires LegacyValid(s)
    ensures var run := RunEvents(s, start, events, grade, decode);
      && (forall i :: 0 <= i < |run.graded| ==> start < |s.questions| && run.graded[i] == s.questions[start].text)
      && (run.session.Some? ==>
            LegacyValid(run.session.value) && run.session.value.questions == s.questions
            && run.session.value.cursor == s.cursor + |run.graded|)
    decreases |events|
  {
    if events != [] {
      EventStepKeepsSession(s, start, events[0], grade, decode);
      var graded := GradedBy(s, start, events[0]);
      match EventStep(s, start, events[0], grade, decode)
      case Continue(t) =>
        assert t.questions == s.questions;
        StaleQuestionGraded(t, start, events[1..], grade, decode);
        var rest := RunEvents(t, start, events[1..], grade, decode);
        assert RunEvents(s, start, events, grade, decode) == Run(rest.session, graded + rest.graded);
        assert LegacyValid(t);
        assert |rest.graded| > 0 ==> rest.graded[0] == t.questions[start].text;
        assert forall i :: 0 <= i < |rest.graded| ==> start < |t.questions| && rest.graded[i] == t.questions[start].text;
        assert forall i :: 0 <= i < |rest.graded| ==> start < |s.questions| && rest.graded[i] == s.questions[start].text;
        assert forall i :: 0 <= i < |graded| ==> start < |s.questions| && graded[i] == s.questions[start].text;
        forall i | 0 <= i < |graded + rest.graded|
          ensures start < |s.questions| && (graded + rest.graded)[i] == s.questions[start].text
        {
          if i >= |graded| {
            assert (graded + rest.graded)[i] == rest.graded[i - |graded|];
          } else {
            assert (graded + rest.graded)[i] == graded[i];
          }
        }
      case Closed(t) =>
      case Dropped =>
    }
  }

  /** The concrete case: a connection opened on a fresh two-question session
      that receives two answers grades the first question twice, although the
      candidate heard the second question before answering again, and the
      closing message follows. */
  lemma SecondAnswerGradedAgainstFirstQuestion(a: Question, b: Question, grade: (string, string) -> Reply,
                                               decode: string -> ScoreDoc)
    requires grade(a.text, "yes").Reply?
    ensures var s := LegacySession(UnknownJobTitle, [Turn(ModelRole, a.text)], [a, b], 0, EvaluationDimensions, NoScores);
      var run := RunEvents(s, 0, [AudioMessage("yes"), AudioMessage("yes")], grade, decode);
      && run.graded == [a.text, a.text]
      && run.session.Some?
      && run.session.value.cursor == 2
      && run.session.value.history ==
           [Turn(ModelRole, a.text), Turn(UserRole, "yes"), Turn(ModelRole, b.text),
            Turn(UserRole, "yes"), Turn(ModelRole, ClosingMessage)]
  {
    var s := LegacySession(UnknownJobTitle, [Turn(ModelRole, a.text)], [a, b], 0, EvaluationDimensions, NoScores);
    var events := [AudioMessage("yes"), AudioMessage("yes")];
    assert !IsBlank("yes") by {
      assert !IsPythonSpace("yes"[0]);
    }
    assert events[1..] == [AudioMessage("yes")];
    assert events[1..][1..] == [];
  }

  /** A blank transcript changes nothing and grades nothing. */
  lemma BlankAnswerChangesNothing(s: LegacySession, start: nat, answer: string,
                                  grade: (string, string) -> Reply, decode: string -> ScoreDoc)
    requires IsBlank(answer)
    ensures AnswerStep(s, start, answer, grade, decode) == Continue(s)
    ensures GradedBy(s, start, AudioMessage(answer)) == []
  {
  }

  /** An answered audio message records the answer followed by exactly one
      interviewer turn (the question at the new index, or the closing message
      once the index reaches the end), moves the stored index on by one, and credits each of
      the eight dimensions at most once, exactly when the evaluation holds a
      numeric value for it. */
  lemma AnswerCreditsEachDimensionOnce(s: LegacySession, start: nat, answer: string,
                                       grade: (string, string) -> Reply, decode: string -> ScoreDoc)
    requires LegacyValid(s) && !IsBlank(answer) && start < |s.questions|
    requires grade(s.questions[start].text, answer).Reply?
    ensures var step := AnswerStep(s, start, answer, grade, decode);
      var scores := LegacyScores(grade(s.questions[start].text, answer), decode);
      && step.Continue?
      && step.session.cursor == s.cursor + 1
      && |step.session.history| == |s.history| + 2
      && step.session.history[..|s.history| + 1] == s.history + [Turn(UserRole, answer)]
      && step.session.history[|s.history| + 1] ==
           Turn(ModelRole, if s.cursor + 1 < |s.questions| then s.questions[s.cursor + 1].text else ClosingMessage)
      && step.session.results.Keys == s.results.Keys
      && forall d :: d in s.results ==>
           && step.session.results[d] == s.results[d] + Appended(scores, d)
           && |step.session.results[d]| <= |s.results[d]| + 1
  {
    var scores := LegacyScores(grade(s.questions[start].text, answer), decode);
    var spoken := if s.cursor + 1 < |s.questions| then s.questions[s.cursor + 1].text else ClosingMessage;
    AnsweredStep(s, start, answer, grade, decode);
    var t := AnswerStep(s, start, answer, grade, decode).session;
    assert t.history == s.history + [Turn(UserRole, answer), Turn(ModelRole, spoken)];
    assert t.history[..|s.history| + 1] == s.history + [Turn(UserRole, answer)];
    CreditOneEvaluation(s.results, scores);
  }

  /** The step an answered audio message takes, spelled out. */
  lemma AnsweredStep(s: LegacySession, start: nat, answer: string,
                     grade: (string, string) -> Reply, decode: string -> ScoreDoc)
    requires !IsBlank(answer) && start < |s.questions|
    requires grade(s.questions[start].text, answer).Reply?
    ensures AnswerStep(s, start, answer, grade, decode) ==
      Continue(s.(history := s.history + [Turn(UserRole, answer),
                                          Turn(ModelRole, if s.cursor + 1 < |s.questions| then s.questions[s.cursor + 1].text
                                                          else ClosingMessage)],
                  results := Credited(s.dimensions, s.results, LegacyScores(grade(s.questions[start].text, answer), decode)),
                  cursor := s.cursor + 1))
  {
  }

  /** No latch at the end: an answer after the closing message, on a
      connection opened before the end, is still graded, pushes the index past
      the list and speaks the closing message again. */
  lemma AnswerAfterEndRepeatsClosing(s: LegacySession, start: nat, answer: string,
                                     grade: (string, string) -> Reply, decode: string -> ScoreDoc)
    requires LegacyValid(s) && s.cursor >= |s.questions| && start < |s.questions|
    requires !IsBlank(answer) && grade(s.questions[start].text, answer).Reply?
    ensures var step := AnswerStep(s, start, answer, grade, decode);
      && step.Continue?
      && step.session.cursor == s.cursor + 1 > |s.questions|
      && step.session.history[|step.session.history| - 1] == Turn(ModelRole, ClosingMessage)
  {
  }

  /** One audio message, as the loop body handles it. */
  method ReceiveAnswer(s: LegacySession, start: nat, answer: string,
                       grade: (string, string) -> Reply, decode: string -> ScoreDoc)
    returns (step: Step)
    requires LegacyValid(s)
    ensures step == AnswerStep(s, start, answer, grade, decode)
  {
    if IsBlank(answer) {
      return Continue(s);
    }
    var history := s.history + [Turn(UserRole, answer)];
    if start >= |s.questions| {
      return Dropped;
    }
    var reply := grade(s.questions[start].text, answer);
    if reply.NoReply? {
      return Dropped;
    }
    ghost var scores := LegacyScores(reply, decode);
    var results := s.results;
    CreditedNothing(s.dimensions, s.results);
    if HasCandidates(reply) {
      var extracted := FenceOrRaw(FirstText(reply));
      match decode(extracted)
      case ScoreObject(fields) =>
        results := RecordScores(s.dimensions, s.results, fields);
      case MalformedScores =>
    }
    assert results == Credited(s.dimensions, s.results, scores);
    var next := s.cursor + 1;
    var spoken := ClosingMessage;
    if next < |s.questions| {
      spoken := s.questions[next].text;
    }
    history := history + [Turn(ModelRole, spoken)];
    assert history == s.history + [Turn(UserRole, answer), Turn(ModelRole, spoken)];
    step := Continue(s.(history := history, results := results, cursor := next));
  }

  /** One message, as the loop body dispatches it. */
  method ReceiveMessage(s: LegacySession, start: nat, event: Event,
                        grade: (string, string) -> Reply, decode: string -> ScoreDoc)
    returns (step: Step)
    requires LegacyValid(s)
    ensures step == EventStep(s, start, event, grade, decode)
  {
    match event {
      case TextMessage(NotJson) =>
        step := Continue(s);
      case TextMessage(NotObject) =>
        step := Dropped;
      case TextMessage(JsonObject(messageType)) =>
        step := if messageType == Some("end_interview") then Closed(s) else Continue(s);
      case AudioMessage(answer) =>
        step := ReceiveAnswer(s, start, answer, grade, decode);
      case OtherMessage =>
        step := Continue(s);
      case Disconnect =>
        step := Dropped;
    }
  }

  /** The JSON response of /get_interview_report: the report, or a 404. */
  datatype ReportResponse = ReportBody(report: InterviewReport) | NotFound

  class LegacyApp {
    /** The module-level `interview_sessions` table of main.py. */
    var sessions: map<string, LegacySession>

    ghost predicate Valid()
      reads this
    {
      forall id :: id in sessions ==> LegacyValid(sessions[id])
    }

    constructor ()
      ensures Valid() && sessions == map[]
    {
      sessions := map[];
    }

    /** start_interview: `sessionId` is the fresh uuid4, `reply` the
        question-generation reply and `audioUrl` the address of the saved
        speech. Any exception becomes a 500 and stores nothing. */
    method StartInterview(sessionId: string, body: RequestBody, reply: Reply, decode: string -> QuestionDoc,
                          audioUrl: string)
      returns (response: StartResponse)
      requires Valid()
      modifies this
      ensures Valid()
      ensures RequestedTitle(body).Err? ==>
        response == ServerError(RequestedTitle(body).error) && sessions == old(sessions)
      ensures RequestedTitle(body).Ok? ==>
        var title := RequestedTitle(body).value;
        match LegacyQuestions(title, reply, decode)
        case Err(e) => response == ServerError(e) && sessions == old(sessions)
        case Ok(qs) =>
          && response == Started(qs[0].text, audioUrl, sessionId)
          && sessions == old(sessions)[sessionId :=
               LegacySession(title, [Turn(ModelRole, qs[0].text)], qs, 0, EvaluationDimensions, NoScores)]
    {
      var title := RequestedTitle(body);
      if title.Err? {
        return ServerError(title.error);
      }
      var generated := LegacyQuestions(title.value, reply, decode);
      if generated.Err? {
        return ServerError(generated.error);
      }
      var questions := generated.value;
      NoScoresShape();
      var first := questions[0].text;
      sessions := sessions[sessionId :=
        LegacySession(title.value, [Turn(ModelRole, first)], questions, 0, EvaluationDimensions, NoScores)];
      response := Started(first, audioUrl, sessionId);
    }

    /** websocket_endpoint over the messages received on one connection. An
        unknown session is refused and nothing changes. Otherwise the session
        ends up as the reference run leaves it: updated while the connection
        stays open or after end_interview, deleted on an error or a
        disconnect. `graded` lists the question texts sent for grading. */
    method WebsocketEndpoint(sessionId: string, events: seq<Event>,
                             grade: (string, string) -> Reply, decode: string -> ScoreDoc)
      returns (graded: seq<string>)
      requires Valid()
      modifies this
      ensures Valid()
      ensures sessionId !in old(sessions) ==> sessions == old(sessions) && graded == []
      ensures sessionId in old(sessions) ==>
        var run := RunEvents(old(sessions)[sessionId], old(sessions)[sessionId].cursor, events, grade, decode);
        && graded == run.graded
        && sessions == (if run.session.Some? then old(sessions)[sessionId := run.session.value]
                        else old(sessions) - {sessionId})
    {
      graded := [];
      if sessionId !in sessions {
        return;
      }
      ghost var initial := sessions[sessionId];
      var start := sessions[sessionId].cursor;
      var i := 0;
      while i < |events|
        invariant 0 <= i <= |events|
        invariant sessionId in sessions && LegacyValid(sessions[sessionId])
        invariant sessions == old(sessions)[sessionId := sessions[sessionId]]
        invariant var rest := RunEvents(sessions[sessionId], start, events[i..], grade, decode);
          RunEvents(initial, start, events, grade, decode) == Run(rest.session, graded + rest.graded)
        decreases |events| - i
      {
        var s := sessions[sessionId];
        var event := events[i];
        var step := ReceiveMessage(s, start, event, grade, decode);
        RunAfterStep(initial, s, start, events, i, graded, grade, decode);
        EventStepKeepsSession(s, start, event, grade, decode);
        graded := graded + GradedBy(s, start, event);
        match step {
          case Continue(t) =>
            sessions := sessions[sessionId := t];
          case Closed(t) =>
            assert old(sessions)[sessionId := s] == sessions;
            return;
          case Dropped =>
            assert old(sessions)[sessionId := s] - {sessionId} == old(sessions) - {sessionId};
            sessions := sessions - {sessionId};
            return;
        }
        i := i + 1;
      }
      assert events[i..] == [];
    }

    /** get_interview_report: a 404 for an unknown session; otherwise the
        aggregated report, after which the session is deleted. */
    method GetInterviewReport(sessionId: string) returns (response: ReportResponse)
      requires Valid()
      modifies this
      ensures Valid()
      ensures sessionId !in old(sessions) ==> response == NotFound && sessions == old(sessions)
      ensures sessionId in old(sessions) ==>
        var s := old(sessions)[sessionId];
        && sessions == old(sessions) - {sessionId}
        && response.ReportBody?
        && (forall d :: d in response.report.dimensionScores <==> d in DimensionSet)
        && (forall d :: d in response.report.dimensionScores ==> response.report.dimensionScores[d] == Mean(s.results[d]))
        && response.report.overallScore == OverallScore(s.dimensions, s.results)
        && (response.report.hired <==> response.report.overallScore >= HireThreshold)
    {
      if sessionId !in sessions {
        return NotFound;
      }
      var s := sessions[sessionId];
      var report := Aggregate(s.dimensions, s.results);
      sessions := sessions - {sessionId};
      response := ReportBody(report);
    }
  }

  /** get_jobs: main.py's own copy of the 104 search loop, which maps the
      postings exactly as get_jobs_from_104 does; the list is the "jobs" entry
      of the response. */
  method GetJobs(response: JobScraper.SearchResponse) returns (jobs: seq<JobScraper.Job>)
    ensures jobs == JobScraper.Listed(response)
  {
    jobs := JobScraper.GetJobsFrom104(response);
  }
}
