/**
 * The admission survey's question definitions, the question bank and the lookup of a question
 * by its sequence number.
 */
module SurveyConfig {
  import opened Wrappers

  /** `field_type`: how a question is entered and checked. */
  datatype FieldType = DateField | NumericField | SelectField | BooleanField | TextField

  /**
   * `valid_values`: None, a dict with optional "min" and "max" bounds, or a list of codes.
   * `Bounds(None, None)` is the empty dict, which Python treats as false.
   */
  datatype ValidValues = NoValues | Bounds(min: Option<int>, max: Option<int>) | Codes(codes: seq<string>)

  /**
   * A rule condition. The source stores conditions as Python expression text and runs them
   * through `eval`; this closed set of predicates over the answers (a missing answer reads as
   * "") and the candidate value stands for them. A condition text without `answers.get`
   * is `Always`.
   */
  datatype Condition =
    | Always
    | AnswerEquals(key: string, literal: string)     // answers.get(key, '') == literal
    | AnswerDiffers(key: string, literal: string)    // answers.get(key, '') != literal
    | AnswerEmpty(key: string)                       // not answers.get(key, '')
    | AnyDependencyEquals(literal: string)           // some dependency's answer == literal
    | ValueEquals(key: string)                       // answers.get(key, '') == value

  /** `action`: the four names the engine knows, and any other name. */
  datatype Action = SetToBlank | SetValueZero | MarkInvalid | Enable | OtherAction

  /**
   * A rule. `dependencies == None` is a rule without a "dependencies" entry (an empty rule
   * included); `action == None` is a rule without an "action" entry.
   */
  datatype Rule = Rule(dependencies: Option<seq<string>>, condition: Condition, action: Option<Action>)

  /** A survey question; a question without rules (`"rules": None`) has `rules == []`. */
  datatype Question = Question(
    sequenceNumber: string,
    questionText: string,
    fieldType: FieldType,
    defaultValue: string,
    validValues: ValidValues,
    valueDescriptions: Option<map<string, string>>,
    rules: seq<Rule>)

  /** `ADMISSION_SURVEY_QUESTIONS["questions"]`. */
  const AdmissionSurveyQuestions: seq<Question> := [
    Question("99", "First Appointment Offered", DateField, "", NoValues, None, []),
    Question("19", "Days Client Waited for Treatment Entry", NumericField, "000",
             Bounds(Some(0), Some(999)), None, []),
    Question("20", "Interim Services Offered", SelectField, "", Codes([""]), Some(map["" := "Blank"]), []),
    Question("21", "Number of Prior Substance Abuse Treatment Episodes", NumericField, "",
             Bounds(Some(0), Some(998)), None, []),
    Question("22", "Number of Detox Episodes", NumericField, "",
             Bounds(Some(0), Some(998)), None, [])
  ]

  /** No two questions of `qs` share a sequence number. */
  predicate DistinctNumbers(qs: seq<Question>) {
    forall i, j :: 0 <= i < |qs| && 0 <= j < |qs| && i != j ==> qs[i].sequenceNumber != qs[j].sequenceNumber
  }

  /**
   * The first question of `qs` with the given sequence number: a linear search returning at the
   * first match.
   */
  function FindQuestion(qs: seq<Question>, sequenceNumber: string): (r: Option<Question>)
    ensures r.Some? ==> r.value in qs && r.value.sequenceNumber == sequenceNumber
    ensures r.None? <==> forall i :: 0 <= i < |qs| ==> qs[i].sequenceNumber != sequenceNumber
  {
    if qs == [] then None
    else if qs[0].sequenceNumber == sequenceNumber then Some(qs[0])
    else FindQuestion(qs[1..], sequenceNumber)
  }

  /** When several questions match, the one earliest in the list is found. */
  lemma {:induction false} FindQuestionFirst(qs: seq<Question>, sequenceNumber: string, i: nat)
    requires i < |qs| && qs[i].sequenceNumber == sequenceNumber
    requires forall j :: 0 <= j < i ==> qs[j].sequenceNumber != sequenceNumber
    ensures FindQuestion(qs, sequenceNumber) == Some(qs[i])
  {
    if i > 0 {
      FindQuestionFirst(qs[1..], sequenceNumber, i - 1);
    }
  }

  /** With distinct sequence numbers, each question is the one found for its own number. */
  lemma FindQuestionDistinct(qs: seq<Question>, i: nat)
    requires DistinctNumbers(qs) && i < |qs|
    ensures FindQuestion(qs, qs[i].sequenceNumber) == Some(qs[i])
  {
    FindQuestionFirst(qs, qs[i].sequenceNumber, i);
  }

  /** `get_question`: the question of the bank with that sequence number, or None. */
  function GetQuestion(sequenceNumber: string): (r: Option<Question>)
    ensures r.Some? ==> r.value in AdmissionSurveyQuestions && r.value.sequenceNumber == sequenceNumber
    ensures r.None? <==> forall q :: q in AdmissionSurveyQuestions ==> q.sequenceNumber != sequenceNumber
  {
    FindQuestion(AdmissionSurveyQuestions, sequenceNumber)
  }

  /** The bank's sequence numbers are pairwise distinct, so at most one question matches. */
  lemma BankNumbersDistinct()
    ensures DistinctNumbers(AdmissionSurveyQuestions)
  {
    var qs := AdmissionSurveyQuestions;
    assert qs[0].sequenceNumber == "99" && qs[1].sequenceNumber == "19" && qs[2].sequenceNumber == "20";
    assert qs[3].sequenceNumber == "21" && qs[4].sequenceNumber == "22";
  }

  /** Looking up the bank: "19" is the waiting-days question; unknown numbers give None. */
  lemma GetQuestionExamples()
    ensures GetQuestion("19").Some? && GetQuestion("19").value.defaultValue == "000"
    ensures GetQuestion("19").value.validValues == Bounds(Some(0), Some(999))
    ensures GetQuestion("73") == None
  {
    var qs := AdmissionSurveyQuestions;
    FindQuestionFirst(qs, "19", 1);
    assert qs[0].sequenceNumber == "99";
  }
}
