/** The InterviewManager and its session table: starting an interview (question
    generation with its fallback list), buffering audio and video, evaluating
    one spoken answer and moving on to the next question or the closing
    message, and producing the final report, which deletes the session.

    The class field `sessions` stands for the module-level `interview_sessions`
    dictionary that every InterviewManager method reads and updates. Calls to
    Gemini, Whisper, DeepFace and the text-to-speech upload are parameters:
    their results come in as values or as functions of what the code sends. */
module Interviews {
  import opened InterviewTypes
  import opened GeminiApi
  import opened Scoring
  import opened Report

  /** One entry of the session table. */
  datatype Session = Session(
    jobTitle: string,
    history: seq<Turn>,
    questions: seq<Question>,
    cursor: nat,
    dimensions: seq<string>,
    results: map<string, seq<real>>,
    audioBuffer: seq<byte>,
    videoFrame: Option<string>,
    completed: bool)

  /** What every stored session satisfies: a non-empty question list, a cursor
      that never passes its end, the completed flag raised exactly when the
      cursor reaches the end, and one score list per evaluation dimension. */
  predicate SessionValid(s: Session) {
    && |s.questions| > 0
    && s.cursor <= |s.questions|
    && (s.completed <==> s.cursor == |s.questions|)
    && s.dimensions == EvaluationDimensions
    && s.results.Keys == DimensionSet
  }

  // ---------------------------------------------------------------------------
  // Question generation.

  /** _generate_interview_questions, given the Gemini reply and json.loads.
      ValueError (a reply without candidates), invalid JSON and an empty or
      missing "questions" list fall back to the fixed five questions. A None
      reply (TypeError on the candidates test), a JSON value that is not an
      object (AttributeError on `.get`) and a null "questions" entry (TypeError
      on `len(None)` in the log line) escape the `except`. */
  function GenerateInterviewQuestions(jobTitle: string, reply: Reply, decode: string -> QuestionDoc)
    : (r: Result<seq<Question>, PyError>)
    ensures r.Ok? ==> |r.value| > 0
    ensures r.Err? <==>
      reply.NoReply? ||
      (HasCandidates(reply) &&
       (decode(ExtractFromText(FirstText(reply))).NonObjectQuestions? ||
        decode(ExtractFromText(FirstText(reply))) == QuestionObject(None)))
    ensures r.Err? ==>
      r.error == (if reply.NoReply? || decode(ExtractFromText(FirstText(reply))).QuestionObject? then TypeError
                  else AttributeError)
    ensures r.Ok? && r.value != FallbackQuestions(jobTitle) ==>
      HasCandidates(reply) && decode(ExtractFromText(FirstText(reply))) == QuestionObject(Some(r.value))
    ensures HasCandidates(reply) && decode(ExtractFromText(FirstText(reply))).QuestionObject? ==>
      var listed := decode(ExtractFromText(FirstText(reply))).questions;
      listed.Some? && listed.value != [] ==> r == Ok(listed.value)
  {
    match ExtractJson(reply)
    case Err(e) =>
      if e == ValueError then Ok(FallbackQuestions(jobTitle)) else Err(e)
    case Ok(text) =>
      match decode(text)
      case MalformedQuestions => Ok(FallbackQuestions(jobTitle))
      case NonObjectQuestions => Err(AttributeError)
      case QuestionObject(None) => Err(TypeError)
      case QuestionObject(Some(listed)) =>
        if listed == [] then Ok(FallbackQuestions(jobTitle)) else Ok(listed)
  }

  /** The fallback list is used when the reply has no candidates, the extracted
      text is not JSON, or the object's "questions" entry is missing or an
      empty list. */
  lemma FallbackWhenUnusable(jobTitle: string, reply: Reply, decode: string -> QuestionDoc)
    requires reply.Reply?
    requires !HasCandidates(reply)
      || decode(ExtractFromText(FirstText(reply))).MalformedQuestions?
      || decode(ExtractFromText(FirstText(reply))) == QuestionObject(Some([]))
    ensures GenerateInterviewQuestions(jobTitle, reply, decode) == Ok(FallbackQuestions(jobTitle))
  {
  }

  // ---------------------------------------------------------------------------
  // Evaluating one answer.

  /** The scores json.loads yields for an evaluation reply: none when the reply
      has no candidates or the extracted text is not JSON. */
  function EvaluationScores(reply: Reply, decode: string -> ScoreDoc): (r: map<string, ScoreValue>)
    ensures !HasCandidates(reply) ==> r == map[]
    ensures HasCandidates(reply) && decode(ExtractFromText(FirstText(reply))).MalformedScores? ==> r == map[]
  {
    if HasCandidates(reply) then
      match decode(ExtractFromText(FirstText(reply)))
      case ScoreObject(fields) => fields
      case MalformedScores => map[]
    else map[]
  }

  /** What one call of _evaluate_and_respond sends back to the front end. */
  datatype TurnOutcome =
    | SessionMissing
    | BufferEmpty
    | NothingSaid
    | Raised(error: PyError)
    | Asked(question: string)
    | Ended

  datatype Evaluation = Evaluation(session: Session, outcome: TurnOutcome)

  /** Reference definition of _evaluate_and_respond on one session. `grade`
      is the Gemini evaluation call on (question, answer, emotion). Indexing
      past the question list raises IndexError and a None reply raises
      TypeError, both before anything changes; otherwise the scores are
      credited (or not), the cursor moves on by one whatever happened to the
      scores, and the next question or the closing message is appended to the
      history, the latter also marking the session completed. */
  function EvaluationStep(s: Session, answer: string, emotion: string,
                          grade: (string, string, string) -> Reply, decode: string -> ScoreDoc): (r: Evaluation)
    ensures r.outcome.Raised? ==> r.session == s
    ensures r.outcome == Raised(IndexError) <==> s.cursor >= |s.questions|
    ensures r.outcome == Raised(TypeError) <==>
      s.cursor < |s.questions| && grade(s.questions[s.cursor].text, answer, emotion).NoReply?
    ensures r.outcome.Raised? || r.outcome.Asked? || r.outcome.Ended?
    ensures !r.outcome.Raised? ==>
      r.session.results == Credited(s.dimensions, s.results,
                                    EvaluationScores(grade(s.questions[s.cursor].text, answer, emotion), decode))
  {
    if s.cursor >= |s.questions| then Evaluation(s, Raised(IndexError))
    else
      var reply := grade(s.questions[s.cursor].text, answer, emotion);
      if reply.NoReply? then Evaluation(s, Raised(TypeError))
      else
        var next := s.cursor + 1;
        var scored := s.(results := Credited(s.dimensions, s.results, EvaluationScores(reply, decode)), cursor := next);
        if next < |s.questions| then
          var question := s.questions[next].text;
          Evaluation(scored.(history := s.history + [Turn(ModelRole, question)]), Asked(question))
        else
          Evaluation(scored.(history := s.history + [Turn(ModelRole, ClosingMessage)], completed := true), Ended)
  }

  /** One evaluation keeps the session valid; unless it raises, it moves the
      cursor on by exactly one, appends exactly one interviewer turn, leaves the
      questions, title, buffer and frame alone, and ends the interview exactly
      when the last question has been answered. Inside the list the appended
      turn and the reply are the question at the new index; at the end both
      are the closing message. */
  lemma EvaluationProgress(s: Session, answer: string, emotion: string,
                           grade: (string, string, string) -> Reply, decode: string -> ScoreDoc)
    requires SessionValid(s)
    ensures var e := EvaluationStep(s, answer, emotion, grade, decode);
      && SessionValid(e.session)
      && e.session.questions == s.questions && e.session.jobTitle == s.jobTitle
      && e.session.audioBuffer == s.audioBuffer && e.session.videoFrame == s.videoFrame
      && (e.outcome.Raised? ==> e.session == s)
      && (!e.outcome.Raised? ==>
            && e.session.cursor == s.cursor + 1
            && e.session.history[..|s.history|] == s.history
            && |e.session.history| == |s.history| + 1
            && (e.outcome.Ended? <==> e.session.completed)
            && (e.outcome.Ended? <==> s.cursor + 1 == |s.questions|)
            && (e.outcome.Ended? ==> e.session.history[|s.history|] == Turn(ModelRole, ClosingMessage))
            && (e.outcome.Asked? ==>
                  && s.cursor + 1 < |s.questions|
                  && e.outcome.question == s.questions[s.cursor + 1].text
                  && e.session.history[|s.history|] == Turn(ModelRole, e.outcome.question)))
  {
    var e := EvaluationStep(s, answer, emotion, grade, decode);
    if !e.outcome.Raised? {
      assert e.session.history == s.history + [e.session.history[|s.history|]];
    }
  }

  /** A completed interview takes no further answers: the question index is
      past the list, so the evaluation raises IndexError and nothing changes. */
  lemma CompletedSessionIsFrozen(s: Session, answer: string, emotion: string,
                                 grade: (string, string, string) -> Reply, decode: string -> ScoreDoc)
    requires SessionValid(s) && s.completed
    ensures EvaluationStep(s, answer, emotion, grade, decode) == Evaluation(s, Raised(IndexError))
  {
  }

  /** One evaluation credits each of the eight dimensions at most once: a
      dimension's list grows by one entry exactly when the evaluation object
      holds a numeric value under that dimension, and by nothing otherwise. */
  lemma EvaluationCreditsEachDimensionOnce(s: Session, answer: string, emotion: string,
                                           grade: (string, string, string) -> Reply, decode: string -> ScoreDoc)
    requires SessionValid(s) && s.cursor < |s.questions|
    requires grade(s.questions[s.cursor].text, answer, emotion).Reply?
    ensures var scores := EvaluationScores(grade(s.questions[s.cursor].text, answer, emotion), decode);
      var t := EvaluationStep(s, answer, emotion, grade, decode).session;
      && t.results.Keys == s.results.Keys
      && forall d :: d in s.results ==>
           && t.results[d] == s.results[d] + Appended(scores, d)
           && |t.results[d]| <= |s.results[d]| + 1
           && (|t.results[d]| == |s.results[d]| + 1 <==> d in scores && IsNumeric(scores[d]))
  {
    var scores := EvaluationScores(grade(s.questions[s.cursor].text, answer, emotion), decode);
    CreditOneEvaluation(s.results, scores);
  }

  /** The interviewer never answers for itself: when the reply carries no
      usable scores, every score list is left exactly as it was. */
  lemma UnusableEvaluationCreditsNothing(s: Session, answer: string, emotion: string,
                                         grade: (string, string, string) -> Reply, decode: string -> ScoreDoc)
    requires SessionValid(s) && s.cursor < |s.questions|
    requires var reply := grade(s.questions[s.cursor].text, answer, emotion);
      reply.Reply? && (!HasCandidates(reply) || decode(ExtractFromText(FirstText(reply))).MalformedScores?)
    ensures EvaluationStep(s, answer, emotion, grade, decode).session.results == s.results
  {
    CreditedNothing(s.dimensions, s.results);
  }

  /** Evaluating a sequence of answers, one call after another. */
  function EvaluateAll(s: Session, answers: seq<string>, emotion: string,
                       grade: (string, string, string) -> Reply, decode: string -> ScoreDoc): Session
    decreases |answers|
  {
    if answers == [] then s
    else EvaluateAll(EvaluationStep(s, answers[0], emotion, grade, decode).session, answers[1..], emotion, grade, decode)
  }

  /** The evaluation call always comes back with a body. */
  ghost predicate AlwaysReplies(grade: (string, string, string) -> Reply) {
    forall question, answer, emotion :: grade(question, answer, emotion).Reply?
  }

  /** Answering each remaining question once ends the interview: the cursor
      reaches the end, the session is marked completed, one interviewer turn is
      added per answer, and the last of them is the closing message. */
  lemma {:induction false} AnsweringEveryQuestionCompletes(s: Session, answers: seq<string>, emotion: string,
                                                           grade: (string, string, string) -> Reply, decode: string -> ScoreDoc)
    requires SessionValid(s) && AlwaysReplies(grade)
    requires |answers| == |s.questions| - s.cursor > 0
    ensures var t := EvaluateAll(s, answers, emotion, grade, decode);
      && SessionValid(t) && t.completed && t.cursor == |t.questions|
      && t.questions == s.questions
      && |t.history| == |s.history| + |answers|
      && t.history[..|s.history|] == s.history
      && t.history[|t.history| - 1] == Turn(ModelRole, ClosingMessage)
    decreases |answers|
  {
    var e := EvaluationStep(s, answers[0], emotion, grade, decode);
    EvaluationProgress(s, answers[0], emotion, grade, decode);
    assert !e.outcome.Raised?;
    var rest := answers[1..];
    if rest == [] {
      assert EvaluateAll(s, answers, emotion, grade, decode) == e.session;
    } else {
      AnsweringEveryQuestionCompletes(e.session, rest, emotion, grade, decode);
      var t := EvaluateAll(e.session, rest, emotion, grade, decode);
      assert EvaluateAll(s, answers, emotion, grade, decode) == t;
      assert t.history[..|s.history|] == t.history[..|e.session.history|][..|s.history|];
    }
  }

  /** The scoring part of _evaluate_and_respond: with candidates present, the
      extracted text is decoded and, when it is JSON, its values are credited;
      invalid JSON and a reply without candidates leave the lists as they are. */
  method CreditEvaluation(dims: seq<string>, results: map<string, seq<real>>, reply: Reply, decode: string -> ScoreDoc)
    returns (updated: map<string, seq<real>>)
    requires forall i :: 0 <= i < |dims| ==> dims[i] in results
    ensures updated == Credited(dims, results, EvaluationScores(reply, decode))
  {
    updated := results;
    CreditedNothing(dims, results);
    if HasCandidates(reply) {
      var extracted := ExtractFromText(FirstText(reply));
      match decode(extracted)
      case ScoreObject(fields) =>
        updated := RecordScores(dims, results, fields);
      case MalformedScores =>
    }
  }

  // ---------------------------------------------------------------------------
  // The manager.

  /** What start_new_interview returns. */
  datatype StartReply = StartReply(text: string, audioUrl: string, sessionId: string, totalQuestions: nat)

  class InterviewManager {
    /** The module-level `interview_sessions` table. */
    var sessions: map<string, Session>

    ghost predicate Valid()
      reads this
    {
      forall id :: id in sessions ==> SessionValid(sessions[id])
    }

    constructor ()
      ensures Valid() && sessions == map[]
    {
      sessions := map[];
    }

    /** start_new_interview: `sessionId` is the fresh uuid4, `reply` the
        question-generation reply and `audioUrl` the uploaded speech of the
        first question. The new session opens with the first question as the
        only history entry; an exception from question generation stores
        nothing. */
    method StartNewInterview(sessionId: string, jobTitle: string, reply: Reply, decode: string -> QuestionDoc,
                             audioUrl: string)
      returns (r: Result<StartReply, PyError>)
      requires Valid()
      modifies this
      ensures Valid()
      ensures GenerateInterviewQuestions(jobTitle, reply, decode).Err? ==>
        r == Err(GenerateInterviewQuestions(jobTitle, reply, decode).error) && sessions == old(sessions)
      ensures GenerateInterviewQuestions(jobTitle, reply, decode).Ok? ==>
        var qs := GenerateInterviewQuestions(jobTitle, reply, decode).value;
        && r == Ok(StartReply(qs[0].text, audioUrl, sessionId, |qs|))
        && sessions == old(sessions)[sessionId :=
             Session(jobTitle, [Turn(ModelRole, qs[0].text)], qs, 0, EvaluationDimensions, NoScores, [], None, false)]
    {
      var generated := GenerateInterviewQuestions(jobTitle, reply, decode);
      if generated.Err? {
        return Err(generated.error);
      }
      var questions := generated.value;
      NoScoresShape();
      var session := Session(jobTitle, [], questions, 0, EvaluationDimensions, NoScores, [], None, false);
      sessions := sessions[sessionId := session];
      var first := questions[0].text;
      assert session.history + [Turn(ModelRole, first)] == [Turn(ModelRole, first)];
      sessions := sessions[sessionId := session.(history := session.history + [Turn(ModelRole, first)])];
      r := Ok(StartReply(first, audioUrl, sessionId, |questions|));
    }

    /** update_audio_buffer: appends the chunk to a known session's buffer. */
    method UpdateAudioBuffer(sessionId: string, chunk: seq<byte>)
      requires Valid()
      modifies this
      ensures Valid()
      ensures sessionId !in old(sessions) ==> sessions == old(sessions)
      ensures sessionId in old(sessions) ==>
        sessions == old(sessions)[sessionId := old(sessions)[sessionId].(audioBuffer := old(sessions)[sessionId].audioBuffer + chunk)]
    {
      if sessionId in sessions {
        var s := sessions[sessionId];
        sessions := sessions[sessionId := s.(audioBuffer := s.audioBuffer + chunk)];
      }
    }

    /** update_video_frame: a known session keeps only the latest frame. */
    method UpdateVideoFrame(sessionId: string, frame: string)
      requires Valid()
      modifies this
      ensures Valid()
      ensures sessionId !in old(sessions) ==> sessions == old(sessions)
      ensures sessionId in old(sessions) ==>
        sessions == old(sessions)[sessionId := old(sessions)[sessionId].(videoFrame := Some(frame))]
    {
      if sessionId in sessions {
        sessions := sessions[sessionId := sessions[sessionId].(videoFrame := Some(frame))];
      }
    }

    /** get_session_data: the stored session, or None. */
    function GetSessionData(sessionId: string): (r: Option<Session>)
      reads this
      ensures r.Some? <==> sessionId in sessions
      ensures r.Some? ==> r.value == sessions[sessionId]
    {
      if sessionId in sessions then Some(sessions[sessionId]) else None
    }

    /** remove_session: drops the session if present, nothing else. */
    method RemoveSession(sessionId: string)
      requires Valid()
      modifies this
      ensures Valid()
      ensures sessions == old(sessions) - {sessionId}
    {
      if sessionId in sessions {
        sessions := sessions - {sessionId};
      }
    }

    /** _evaluate_and_respond on a stored session, with the emotion label
        already computed; the session's new state is the reference step's. */
    method EvaluateAndRespond(sessionId: string, answer: string, emotion: string,
                              grade: (string, string, string) -> Reply, decode: string -> ScoreDoc)
      returns (outcome: TurnOutcome)
      requires Valid() && sessionId in sessions
      modifies this
      ensures Valid()
      ensures var e := EvaluationStep(old(sessions)[sessionId], answer, emotion, grade, decode);
        sessions == old(sessions)[sessionId := e.session] && outcome == e.outcome
    {
      var s := sessions[sessionId];
      ghost var expected := EvaluationStep(s, answer, emotion, grade, decode);
      if s.cursor >= |s.questions| {
        return Raised(IndexError);
      }
      var reply := grade(s.questions[s.cursor].text, answer, emotion);
      if reply.NoReply? {
        return Raised(TypeError);
      }
      var results := CreditEvaluation(s.dimensions, s.results, reply, decode);
      s := s.(results := results, cursor := s.cursor + 1);
      if s.cursor < |s.questions| {
        var question := s.questions[s.cursor].text;
        s := s.(history := s.history + [Turn(ModelRole, question)]);
        outcome := Asked(question);
      } else {
        s := s.(history := s.history + [Turn(ModelRole, ClosingMessage)]);
        s := s.(completed := true);
        outcome := Ended;
      }
      assert expected == Evaluation(s, outcome);
      sessions := sessions[sessionId := s];
    }

    /** process_user_audio_and_video: `transcribe` is Whisper and `analyze`
        DeepFace. An unknown session or an empty buffer changes nothing; else
        the buffer is emptied, and a transcript that is not blank is appended
        as the candidate's turn and evaluated. */
    method ProcessUserAudioAndVideo(sessionId: string, transcribe: seq<byte> -> string, analyze: Option<string> -> string,
                                    grade: (string, string, string) -> Reply, decode: string -> ScoreDoc)
      returns (outcome: TurnOutcome)
      requires Valid()
      modifies this
      ensures Valid()
      ensures sessionId !in old(sessions) ==> outcome == SessionMissing && sessions == old(sessions)
      ensures sessionId in old(sessions) && old(sessions)[sessionId].audioBuffer == [] ==>
        outcome == BufferEmpty && sessions == old(sessions)
      ensures sessionId in old(sessions) && old(sessions)[sessionId].audioBuffer != [] ==>
        var s := old(sessions)[sessionId];
        var answer := transcribe(s.audioBuffer);
        var drained := s.(audioBuffer := []);
        if IsBlank(answer) then
          outcome == NothingSaid && sessions == old(sessions)[sessionId := drained]
        else
          var e := EvaluationStep(drained.(history := drained.history + [Turn(UserRole, answer)]),
                                  answer, analyze(s.videoFrame), grade, decode);
          sessions == old(sessions)[sessionId := e.session] && outcome == e.outcome
    {
      if sessionId !in sessions {
        return SessionMissing;
      }
      var s := sessions[sessionId];
      if s.audioBuffer == [] {
        return BufferEmpty;
      }
      var buffer := s.audioBuffer;
      s := s.(audioBuffer := []);
      sessions := sessions[sessionId := s];
      var answer := transcribe(buffer);
      var emotion := analyze(s.videoFrame);
      if IsBlank(answer) {
        return NothingSaid;
      }
      sessions := sessions[sessionId := s.(history := s.history + [Turn(UserRole, answer)])];
      outcome := EvaluateAndRespond(sessionId, answer, emotion, grade, decode);
    }

    /** get_interview_report: "Session not found" for an unknown session;
        otherwise the aggregated report over the session's dimensions, after
        which the session is deleted. */
    method GetInterviewReport(sessionId: string) returns (r: Result<InterviewReport, string>)
      requires Valid()
      modifies this
      ensures Valid()
      ensures sessionId !in old(sessions) ==> r == Err("Session not found") && sessions == old(sessions)
      ensures sessionId in old(sessions) ==>
        var s := old(sessions)[sessionId];
        && sessions == old(sessions) - {sessionId}
        && r.Ok?
        && (forall d :: d in r.value.dimensionScores <==> d in DimensionSet)
        && (forall d :: d in r.value.dimensionScores ==> r.value.dimensionScores[d] == Mean(s.results[d]))
        && r.value.overallScore == OverallScore(s.dimensions, s.results)
        && (r.value.hired <==> r.value.overallScore >= HireThreshold)
    {
      if sessionId !in sessions {
        return Err("Session not found");
      }
      var s := sessions[sessionId];
      var report := Aggregate(s.dimensions, s.results);
      sessions := sessions - {sessionId};
      r := Ok(report);
    }
  }
}
