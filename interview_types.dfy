/** Vocabulary shared by the interview back end: conversation turns, questions,
    the fixed evaluation dimensions, the fallback question set, the closing
    message, and Python's notion of a blank string. */
module InterviewTypes {

  datatype Option<+T> = None | Some(value: T) {
    function GetOr(default: T): T {
      match this
      case Some(v) => v
      case None => default
    }
  }

  datatype Result<+T, +E> = Ok(value: T) | Err(error: E)

  /** The Python exceptions that can escape an operation of the model. */
  datatype PyError = TypeError | ValueError | AttributeError | IndexError

  newtype byte = x: int | 0 <= x < 256

  /** Gemini's role names: "model" for the interviewer, "user" for the candidate. */
  datatype Role = ModelRole | UserRole

  /** One entry { "role": ..., "parts": [ { "text": ... } ] } of the conversation history. */
  datatype Turn = Turn(role: Role, text: string)

  /** One interview question { "id": ..., "question": ... }. */
  datatype Question = Question(id: int, text: string)

  /** The result of json.loads on the question-generation reply, as far as the
      code looks at it: not JSON at all, a JSON value that is not an object (so
      that `.get` raises AttributeError), or an object seen through
      `.get("questions", [])`: None when the entry is null, otherwise the list
      (empty when the entry is absent). */
  datatype QuestionDoc = MalformedQuestions | NonObjectQuestions | QuestionObject(questions: Option<seq<Question>>)

  /** The eight competency dimensions, in the order the code iterates them. */
  const EvaluationDimensions: seq<string> :=
    ["技術深度", "領導能力", "溝通能力", "抗壓能力",
     "解決問題能力", "學習能力", "團隊合作", "創新思維"]

  const DimensionSet: set<string> := set d | d in EvaluationDimensions

  /** Spoken once the question list is exhausted. */
  const ClosingMessage: string := "謝謝您今天來參加面試，面試到此結束。"

  /** The title used when the start request carries no job title. */
  const UnknownJobTitle: string := "未知職缺"

  predicate Distinct<T(==)>(s: seq<T>) {
    forall i, j :: 0 <= i < j < |s| ==> s[i] != s[j]
  }

  lemma EvaluationDimensionsDistinct()
    ensures |EvaluationDimensions| == 8 && Distinct(EvaluationDimensions)
  {
  }

  const FallbackOpening: string := "您好，歡迎您！我是今天的面試官。很高興您能來參加我們「"
  const FallbackMiddle: string := "」職位的第一輪面試。首先，請您簡單介紹一下自己，並請您特別分享一下，您過去的經驗或專業背景，有哪些方面是您認為與我們『"
  const FallbackClosing: string := "』這個職位高度相關的？以及是什麼原因讓您對這個職位特別感興趣？"

  /** The five fixed questions used when no usable list comes back from the
      language model; the first one names the job title twice. */
  function FallbackQuestions(jobTitle: string): (qs: seq<Question>)
    ensures |qs| == 5
    ensures forall i :: 0 <= i < |qs| ==> qs[i].id == i + 1
  {
    [ Question(1, FallbackOpening + jobTitle + FallbackMiddle + jobTitle + FallbackClosing),
      Question(2, "您認為自己最大的優點和缺點是什麼？這些特質如何影響您的工作？"),
      Question(3, "在您過去的工作經驗中，有沒有遇到過什麼挑戰？您是如何克服這些挑戰的？"),
      Question(4, "您對我們公司或這個職位有什麼了解？為什麼選擇我們公司？"),
      Question(5, "您對未來的職業發展有什麼規劃？") ]
  }

  predicate OccursAt(text: string, part: string, i: int) {
    0 <= i <= |text| - |part| && text[i..i + |part|] == part
  }

  /** `part in text` for Python strings. */
  ghost predicate Contains(text: string, part: string) {
    exists i :: OccursAt(text, part, i)
  }

  /** The first fallback question embeds the job title; the other four do not
      depend on it. */
  lemma FallbackQuestionsShape(jobTitle: string, otherTitle: string)
    ensures Contains(FallbackQuestions(jobTitle)[0].text, jobTitle)
    ensures FallbackQuestions(jobTitle)[1..] == FallbackQuestions(otherTitle)[1..]
  {
    var text := FallbackQuestions(jobTitle)[0].text;
    var n := |FallbackOpening|;
    assert OccursAt(text, jobTitle, n);
  }

  /** Python's str.isspace: the characters that str.strip() removes. */
  predicate IsPythonSpace(c: char) {
    ('\t' <= c <= '\r') || ('\U{001C}' <= c <= ' ') || c == '\U{0085}' || c == '\U{00A0}' ||
    c == '\U{1680}' || ('\U{2000}' <= c <= '\U{200A}') || c == '\U{2028}' || c == '\U{2029}' ||
    c == '\U{202F}' || c == '\U{205F}' || c == '\U{3000}'
  }

  /** `not text.strip()`: the text is empty or all whitespace. */
  predicate IsBlank(text: string) {
    forall i :: 0 <= i < |text| ==> IsPythonSpace(text[i])
  }

  /** str.lstrip(): the text after its leading whitespace. It is empty exactly
      when the text is blank, which is also when str.strip() is empty, since
      stripping the right end of a text that starts with a non-space leaves
      that character. */
  function LeftStripped(text: string): (r: string)
    ensures |r| <= |text| && r == text[|text| - |r|..]
    ensures r != [] ==> !IsPythonSpace(r[0])
    ensures r == [] <==> IsBlank(text)
  {
    if text == [] then []
    else if IsPythonSpace(text[0]) then
      var rest := LeftStripped(text[1..]);
      assert IsBlank(text) <==> IsBlank(text[1..]) by {
        if IsBlank(text[1..]) {
          forall i | 0 <= i < |text|
            ensures IsPythonSpace(text[i])
          {
            if i > 0 { assert text[i] == text[1..][i - 1]; }
          }
        }
      }
      rest
    else
      assert !IsBlank(text) by { assert !IsPythonSpace(text[0]); }
      text
  }
}
