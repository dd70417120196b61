# AI interviewer back end: a Dafny model of its session bookkeeping

This project models the core of an AI job-interview back end.

- A job seeker picks a posting from the 104 job site. The server asks the Gemini language model for interview questions. It then hears the candidate's spoken answers and has Gemini score each answer on eight competency dimensions. At the end it produces a report with per-dimension means, an overall score and a hire decision.
- Everything around the bookkeeping is taken as input: Whisper transcription, DeepFace emotion labels, Gemini calls, text-to-speech upload, the job-site request.
- The modules follow the repository's files:

| module | file | models |
|---|---|---|
| `InterviewTypes` | shared | turns, questions, the eight `EVALUATION_DIMENSIONS`, the five fallback questions, the closing message, Python's `str.strip()` whitespace |
| `GeminiApi` | gemini_api.py | `extract_json_from_gemini_response`: the leftmost ```` ```json ```` fence with a lazy body, control-character removal, the raw-text fallback, and the exceptions |
| `Scoring` | interview_manager.py, main.py | the `for dim in evaluation_dimensions` loop that appends numeric scores |
| `Report` | interview_manager.py, main.py | the report aggregation loop, its reference definition, and lemmas about it |
| `JobScraper` | job_scraper.py | the loop that maps the first ten postings to job records |
| `Interviews` | interview_manager.py | the `InterviewManager` class over the session table |
| `LegacyServer` | main.py | `start_interview`, the `/ws` websocket loop, `get_interview_report` and `get_jobs` |

How the model represents the source:

- A Gemini reply is `Reply`:
  - `NoReply` is the `None` that `call_gemini_api` returns on failure;
  - otherwise it holds the first part's text of each candidate.
- `json.loads` is a function parameter `decode`. Its result type lists only the cases the code tells apart: invalid JSON, a non-object value, or an object. A question object is seen through `.get("questions", [])`: `None` for a null entry, otherwise the list, which is empty when the key is absent.
- Score values follow Python's `isinstance(v, (int, float))`, which accepts booleans. `True` counts as 1.
- Scores and means are exact `real`s.
- Both session tables (`interview_sessions` in each file) are modelled as a class field of type `map`. The methods rewrite that field entry by entry, as the Python code does with the dictionary.

Behaviour of the code that the model keeps as written:

- A failed evaluation appends nothing; there is no neutral score of 3.
- No score is range-checked against 1 to 5.
- A report can be requested before the interview is completed.
- On the main.py websocket, `end_interview` keeps the session.
- In interview_manager.py a `None` reply from Gemini raises `TypeError` (gemini_api.py:22). The `except (ValueError, JSONDecodeError)` at interview_manager.py:68 does not catch it, so no fallback is used.
- A `"questions": null` entry is not an empty list. `len(None)` in the log line raises `TypeError` in both generators (interview_manager.py:64, main.py:168), so neither falls back.

The main.py websocket loop behaves differently from the manager in three ways:

- It reads `current_question_index` once, when the connection opens (main.py:263). Every answer on that connection is graded against that question, while the stored index moves on (`StaleQuestionGraded`, `SecondAnswerGradedAgainstFirstQuestion`).
- It has no completion flag. Later answers push the index past the list and repeat the closing message (`AnswerAfterEndRepeatsClosing`). In the manager, `process_user_audio_and_video` still empties the buffer (interview_manager.py:92) and appends the user turn (:102). Then `_evaluate_and_respond` raises `IndexError` at :114 before it changes anything (`CompletedSessionIsFrozen`).
- Its `start_interview` answers with a 500 when the reply has no candidates, where the manager falls back to the fixed questions (`GeneratorsDifferWithoutCandidates`). On replies whose fenced block has no control character, the two generators agree (`GeneratorsAgreeOnCleanReplies`).

## Model

| member | source | states |
|---|---|---|
| InterviewTypes.EvaluationDimensionsDistinct | config.py:10-13 | there are eight evaluation dimensions and no name repeats |
| InterviewTypes.FallbackQuestions | interview_manager.py:71-77 | the fallback list has exactly five questions with ids 1 to 5 |
| InterviewTypes.FallbackQuestionsShape | interview_manager.py:72-76 | the first fallback question contains the job title; the other four do not depend on it |
| InterviewTypes.LeftStripped | interview_manager.py:99 | what `str.lstrip()` leaves is a suffix of the text that starts with a non-space; it is empty iff the text is blank (IsBlank), which is what `not text.strip()` tests |
| GeminiApi.FindClose | gemini_api.py:30 | returns the first closing fence at or after a position, or none exists |
| GeminiApi.FindFence | gemini_api.py:30-32 | returns the leftmost start where an opening fence is followed by a closing fence, with the first such closing fence; no earlier start matches |
| GeminiApi.StripControl | gemini_api.py:34 | the filtered text is no longer than its input and holds no character U+0000 to U+001F |
| GeminiApi.FencedBody | gemini_api.py:30-32 | `json_match.group(1)`: a body lies between an opening fence and a closing fence of the text, and with both fences it fits in the text |
| GeminiApi.ExtractFromText | gemini_api.py:30-37 | the result is no longer than the text; a fenced result holds no control character; without a fence it is the text itself |
| GeminiApi.FenceOrRaw | main.py:155-159 | the unfiltered extraction occurs in the text; it is the text itself without a fence, or a body strictly shorter than the text |
| GeminiApi.ExtractJson | gemini_api.py:21-37 | a `None` reply raises TypeError; a reply without candidates raises ValueError; otherwise it returns the filtered fenced body, or the first candidate's text unchanged when there is no fence |
| GeminiApi.FencedBodyIsLeftmostLazy | gemini_api.py:30-32 | there is no fenced body iff no start position matches; a body starts after the leftmost matching opening fence and ends at the first closing fence after it |
| GeminiApi.BodyHasNoCloseFence | gemini_api.py:30-32 | the extracted body never contains a closing fence, because the match is lazy |
| GeminiApi.FencedBodyOfWrapped | gemini_api.py:30-32 | fence + body + fence + anything yields exactly that body when the body holds no closing fence |
| GeminiApi.StripControlAppend | gemini_api.py:34 | the filter distributes over concatenation |
| GeminiApi.StripControlFixedPoint | gemini_api.py:34 | the filter leaves a text unchanged iff it holds no control character |
| GeminiApi.StripControlIdempotent | gemini_api.py:34 | filtering twice equals filtering once |
| GeminiApi.StripControlSingle | gemini_api.py:34 | a single control character is removed and any other single character is kept |
| GeminiApi.ExtractFencedProperties | gemini_api.py:30-35 | in the fenced case the result comes from a substring of the reply text, is no longer than the body, holds no control character and is a fixed point of the filter |
| Scoring.Appended | interview_manager.py:144-145 | one loop step appends at most one entry, and appends one exactly when the key is present with a numeric value |
| Scoring.Credited | interview_manager.py:143-145 | crediting keeps exactly the same set of score lists |
| Scoring.RecordScores | interview_manager.py:143-145 | the loop's result equals the reference crediting of the evaluation to the lists |
| Scoring.OccurrencesOfDistinct | interview_manager.py:143 | in a list without repeats a dimension occurs once if present, otherwise never |
| Scoring.CreditOneEvaluation | interview_manager.py:143-145 | over the eight dimensions each list receives exactly its own appended entry (at most one); no list is added or removed |
| Scoring.NoScoresShape | interview_manager.py:30 | a new session has one empty list per dimension |
| Scoring.CreditedNothing | interview_manager.py:147-150 | an evaluation without usable scores leaves every list unchanged |
| Report.Aggregate | interview_manager.py:176-199 | every dimension gets the mean of its scores (0 when it has none); the overall score is the reference overall; hired iff it is at least 3.5 |
| Report.Mean | interview_manager.py:185 | a non-empty list's mean times its length is its sum; an empty list's mean is 0 |
| Report.OverallScore | interview_manager.py:183-197 | with some dimension scored, the overall score times the number of scored dimensions is the total of their means; with none it is 0 |
| Report.ScoredMeansTotals | interview_manager.py:183-197 | the running total and count are the sum and the length of the scored dimensions' means |
| Report.OverallIsMeanOfScoredMeans | interview_manager.py:194-197 | the overall score is the arithmetic mean of the means of the scored dimensions |
| Report.MeanWithin | interview_manager.py:185 | a non-empty list's mean lies within any bounds that hold for its scores |
| Report.OverallWithin | interview_manager.py:183-197 | with all scores in [lo, hi] and some dimension scored, the overall score lies in [lo, hi] |
| Report.UnscoredDimensionIgnored | interview_manager.py:184-192 | inserting an unscored dimension anywhere changes neither total, count nor overall score |
| Report.NothingScoredNotHired | interview_manager.py:194-199 | with no score anywhere the overall score is 0 and nobody is hired |
| Report.ExampleOverall | interview_manager.py:183-199 | {A: [4, 4], B: [], C: [2]} gives 3, not 2, and no hire |
| JobScraper.ToJob | job_scraper.py:29-40 | url is "https:" + link.job when present and non-empty, else the job-page prefix + jobNo; title and company are copied; description defaults to "" |
| JobScraper.BuildResults | job_scraper.py:27-41 | a result exists iff none of the first min(10, n) postings raises, and it is those postings mapped in order |
| JobScraper.GetJobsFrom104 | job_scraper.py:16-44 | the list is the reference listing: [] for a non-200 status, an unreadable body, a missing list or a raising posting |
| JobScraper.UrlIsHttps | job_scraper.py:30-34 | every url starts with "https:" |
| JobScraper.ListedProperties | job_scraper.py:27-41 | at most ten records, each with an https url; a non-empty result maps postings 0, 1, … in order |
| JobScraper.Listed | job_scraper.py:16-44 | at most ten records; a non-empty listing needs status 200 and a readable list |
| Interviews.GenerateInterviewQuestions | interview_manager.py:58-77 | the list is never empty; it raises exactly for a `None` reply or a null "questions" entry (TypeError) and for a non-object decode (AttributeError); a non-empty question list is returned as is; anything else that is not the fallback came from the model |
| Interviews.FallbackWhenUnusable | interview_manager.py:61-77 | no candidates, invalid JSON, or an absent key or empty list gives exactly the fallback questions; a null entry is not among these cases |
| Interviews.EvaluationProgress | interview_manager.py:152-167 | a turn keeps the session valid; unless it raises, it advances the cursor by one and appends one interviewer turn; inside the list that turn and the reply are the question at the new index; at the end of the list they are the closing message and the session is completed |
| Interviews.EvaluationScores | interview_manager.py:137-150 | no scores without candidates or when the extracted text is not JSON |
| Interviews.EvaluationStep | interview_manager.py:106-167 | it raises IndexError exactly past the list and TypeError exactly on a `None` reply, and then nothing changes; otherwise it asks a question or ends, with the scores credited |
| Interviews.CompletedSessionIsFrozen | interview_manager.py:114 | on a completed session an evaluation raises IndexError and nothing changes |
| Interviews.EvaluationCreditsEachDimensionOnce | interview_manager.py:137-145 | each dimension's list grows by one exactly when the evaluation holds a numeric value for it, otherwise it is unchanged |
| Interviews.UnusableEvaluationCreditsNothing | interview_manager.py:137-150 | no candidates or invalid JSON leaves all score lists unchanged |
| Interviews.AnsweringEveryQuestionCompletes | interview_manager.py:152-166 | answering each remaining question once ends the interview: completed, cursor at the end, one interviewer turn per answer, the last one the closing message |
| Interviews.CreditEvaluation | interview_manager.py:137-150 | the scoring step's result equals the reference crediting of the decoded scores |
| Interviews.InterviewManager.constructor | interview_manager.py:14-18 | the table starts empty (in the source the table is a module-level dictionary shared by every manager, and `__init__` does nothing) |
| Interviews.InterviewManager.StartNewInterview | interview_manager.py:20-47 | stores a session with cursor 0, one empty list per dimension, an empty buffer, no frame, not completed, and history [first question]; returns the first question and the question count; an exception stores nothing |
| Interviews.InterviewManager.UpdateAudioBuffer | interview_manager.py:213-217 | buffer := old buffer + chunk for a known id; no change for an unknown id; other sessions untouched |
| Interviews.InterviewManager.UpdateVideoFrame | interview_manager.py:219-222 | overwrites a known session's frame; no change otherwise |
| Interviews.InterviewManager.GetSessionData | interview_manager.py:224-225 | the stored session, or None exactly for an unknown id |
| Interviews.InterviewManager.RemoveSession | interview_manager.py:227-230 | the table loses exactly that id, a no-op for an unknown id |
| Interviews.InterviewManager.EvaluateAndRespond | interview_manager.py:106-167 | the session's new state and the reply are those of the reference evaluation step; other sessions untouched |
| Interviews.InterviewManager.ProcessUserAudioAndVideo | interview_manager.py:79-104 | unknown id or empty buffer: no change; else the buffer is emptied; a blank transcript adds nothing more; otherwise the user turn is appended and the answer evaluated |
| Interviews.InterviewManager.GetInterviewReport | interview_manager.py:170-211 | unknown id: "Session not found" and no change; else the mean per dimension, the overall score, hired iff at least 3.5, and the session is deleted |
| LegacyServer.RequestedTitle | main.py:122-124 | the title, "未知職缺" when the job or its title is absent, and the exception for a body or job that is not an object |
| LegacyServer.LegacyQuestions | main.py:145-178 | `None` reply or null "questions" entry: TypeError; no candidates: ValueError; non-object JSON: AttributeError; exactly these raise; invalid JSON or an absent or empty list gives the fallback; otherwise the list came from the model |
| LegacyServer.GeneratorsDifferWithoutCandidates | main.py:148-150 | without candidates start_interview fails where the manager falls back |
| LegacyServer.GeneratorsAgreeOnCleanReplies | main.py:155-166 | with candidates and no control character in the fenced block, main.py and the manager generate the same questions |
| LegacyServer.EventStepKeepsSession | main.py:273-383 | every message keeps the session valid and its questions; the index grows by the number of graded answers; end_interview keeps the session |
| LegacyServer.LegacyScores | main.py:322-340 | no scores without candidates or when the unfiltered extraction is not JSON |
| LegacyServer.AnswerStep | main.py:284-377 | a blank transcript changes nothing; the connection drops exactly past the list or on a `None` reply; otherwise the index advances by one over the same questions (the turns and scores are stated by AnswerCreditsEachDimensionOnce) |
| LegacyServer.EventStep | main.py:273-383 | only `end_interview` closes, and it keeps the session; a disconnect or a non-object message drops the connection; other non-audio messages change nothing |
| LegacyServer.RunEvents | main.py:267-394 | a run grades at most one answer per message; no messages leave the session as it is; the session is deleted only after some message |
| LegacyServer.RunEventsUnfold | main.py:268-270 | a run is its first message's step followed by the rest |
| LegacyServer.StaleQuestionGraded | main.py:263-346 | on one connection every graded question is the one current at connection time; the stored index counts the graded answers |
| LegacyServer.SecondAnswerGradedAgainstFirstQuestion | main.py:300-352 | two answers on a two-question session both grade question 1, although the candidate heard question 2 |
| LegacyServer.BlankAnswerChangesNothing | main.py:290 | a blank transcript changes nothing and grades nothing |
| LegacyServer.AnswerCreditsEachDimensionOnce | main.py:296-367 | an answer appends the user turn and then the question at the new index, or the closing message past the list; it advances the index by one and adds at most one score per dimension |
| LegacyServer.AnswerAfterEndRepeatsClosing | main.py:346-367 | past the end an answer still advances the index beyond the list and repeats the closing message |
| LegacyServer.ReceiveAnswer | main.py:284-377 | the audio branch produces the reference answer step |
| LegacyServer.ReceiveMessage | main.py:273-383 | the message dispatch produces the reference step of each message kind |
| LegacyServer.LegacyApp.constructor | main.py:40 | the table starts empty |
| LegacyServer.LegacyApp.StartInterview | main.py:119-211 | any exception gives a 500 and stores nothing; else a session with cursor 0, empty lists and history [first question] |
| LegacyServer.LegacyApp.WebsocketEndpoint | main.py:249-394 | unknown id: no change; else the session ends as the reference run leaves it, deleted on error or disconnect; graded questions as the run lists them |
| LegacyServer.LegacyApp.GetInterviewReport | main.py:396-440 | unknown id: 404 and no change; else the same report rule as the manager, and the session is deleted |
| LegacyServer.GetJobs | main.py:57-100 | the same listing as get_jobs_from_104 |

## Left out

- Transport: FastAPI routing, websocket accept/close, `send_json`, CORS and static files. The manager's replies appear only as the `TurnOutcome` value.
- Whisper, DeepFace, gTTS and the upload: the transcript, emotion label and audio URL are inputs. A failing upload or `tts.save` is not modelled; it would raise after the session is stored.
- The HTTP calls to Gemini and to the 104 site: their decoded results are inputs. Prompt wording is not modelled.
- `json.loads` is abstract. A decoded evaluation that is not an object is not modelled; its `dim in scores` / `scores[dim]` can raise TypeError.
- Question entries are assumed to be well-formed `{id, question}` objects. A truthy non-list "questions" value is not modelled.
- A reply whose first candidate lacks `content`, `parts` or `text`, or has an empty `parts` list, raises KeyError, IndexError or TypeError (gemini_api.py:26, interview_manager.py:138, main.py:152 and :323). `Reply` keeps only the first part's text, so these errors are not modelled.
- `json.loads` accepts `NaN` and `Infinity`, and they pass the `isinstance(v, (int, float))` test. A score is an exact `real`, so such values are not modelled.
- `get_session_data` returns the live dictionary, and a caller could change the session through it. `GetSessionData` returns a copy of the value.
- Interviews.InterviewManager: the session table is the module-level `interview_sessions` dictionary, shared by every manager instance. The model makes it a field of one manager object, so sharing between instances is not modelled.
- uuid generation (the session id is a parameter), `time.time()` and `last_audio_time`, `asyncio.sleep`.
- Concurrency: a session deleted by the report endpoint while its socket is still open, and interleaved coroutines.
- Float rounding of averages: means are exact rationals.
- speech_to_text.transcribe_audio reads an UploadFile while the manager passes raw bytes. Transcription is a function parameter, so this mismatch is not modelled.
- `jobNo` is taken to be a string or absent. A posting whose `description` is present but null counts as absent.
- A `job.title` that is present but null in the start request is not modelled.
- `process_user_input` in main.py and the unused emotion there: an audio message carries its transcript.
- `get_jobs` builds its list with its own loop, which maps postings exactly as job_scraper.py does. The model reuses one definition for both.
- LegacyServer.LegacyApp.WebsocketEndpoint: it takes a finite list of received messages. Messages after the list are not modelled; the loop's blocking `receive()` is not.
- Interviews.GenerateInterviewQuestions: the prompt and the job description only feed the Gemini call, which is an input.
