/**
 * The survey engine object: its question list and the two maps it updates, the answers given
 * so far and the current error messages, both keyed by sequence number.
 */
module Survey {
  import opened Wrappers
  import opened Strings
  import opened DataModels
  import opened SurveyConfig
  import opened SurveyRules

  class SurveyEngine {
    const questions: seq<Question>
    var answers: map<string, string>
    var errors: map<string, string>

    /** The question list has no numeric question with a list of codes, on which the engine raises. */
    predicate Valid() {
      AllWellTyped(questions)
    }

    /** `SurveyEngine(survey_questions)`: the questions, no answers and no errors. */
    constructor (surveyQuestions: seq<Question>)
      requires AllWellTyped(surveyQuestions)
      ensures Valid()
      ensures questions == surveyQuestions && answers == map[] && errors == map[]
    {
      questions := surveyQuestions;
      answers := map[];
      errors := map[];
    }

    /**
     * The rule loop of `render_question`: the value of the field (the saved answer, else the
     * default) is passed through the question's rules in order, and the loop ends after a fired
     * "set_to_blank", which disables the field. Each invalid rule records its message.
     */
    method ApplyRenderRules(q: Question) returns (value: string, disabled: bool)
      modifies this`errors
      ensures var r := RenderPass(q.rules, AnswerOr(answers, q.sequenceNumber, q.defaultValue), answers);
        value == r.value && disabled == r.disabled &&
        errors == if r.invalid then old(errors)[q.sequenceNumber := InvalidMessage] else old(errors)
    {
      value := AnswerOr(answers, q.sequenceNumber, q.defaultValue);
      disabled := false;
      ghost var start := value;
      ghost var invalid := false;
      var i := 0;
      while i < |q.rules|
        invariant 0 <= i <= |q.rules| && !disabled
        invariant var rest := RenderPass(q.rules[i..], value, answers);
          RenderPass(q.rules, start, answers) == RenderState(rest.value, rest.disabled, invalid || rest.invalid)
        invariant errors == if invalid then old(errors)[q.sequenceNumber := InvalidMessage] else old(errors)
      {
        var rule := q.rules[i];
        assert q.rules[i..][0] == rule && q.rules[i..][1..] == q.rules[i + 1..];
        if EvaluateRule(rule, value, answers) {
          var outcome := ApplyRuleAction(value, rule);
          value := outcome.value;
          if !outcome.valid {
            errors := errors[q.sequenceNumber := outcome.message.GetOr("")];
            invalid := true;
          }
          if rule.action == Some(SetToBlank) {
            disabled := true;
            break;
          }
        }
        i := i + 1;
      }
    }

    /**
     * `render_question` without its widgets: the rule loop gives the value the widget starts
     * from and whether it is disabled; `entered` stands for what the widget returns. A non-empty
     * date or number entered is type checked, and the entered value is saved as the answer.
     */
    method RenderQuestion(q: Question, entered: string) returns (shown: string, disabled: bool)
      requires WellTyped(q)
      modifies this
      ensures var r := RenderPass(q.rules, AnswerOr(old(answers), q.sequenceNumber, q.defaultValue), old(answers));
        var ruleErrors := if r.invalid then old(errors)[q.sequenceNumber := InvalidMessage] else old(errors);
        shown == r.value && disabled == r.disabled &&
        errors == match TypeError(q, entered)
                  case Some(m) => ruleErrors[q.sequenceNumber := m]
                  case None => ruleErrors
      ensures answers == old(answers)[q.sequenceNumber := entered]
    {
      shown, disabled := ApplyRenderRules(q);
      CheckEntered(q, entered);
      answers := answers[q.sequenceNumber := entered];
    }

    /**
     * The type checks `render_question` runs on the value its widget returned and `validate_all`
     * runs on each answer: a non-empty date must validate, a non-empty number must parse and lie
     * in range; the last failing check's message is recorded.
     */
    method CheckEntered(q: Question, value: string)
      requires WellTyped(q)
      modifies this`errors
      ensures errors == match TypeError(q, value)
                        case Some(m) => old(errors)[q.sequenceNumber := m]
                        case None => old(errors)
    {
      if q.fieldType == DateField {
        if value != "" && !ValidateDate(value) {
          errors := errors[q.sequenceNumber := DateMessage];
        }
      } else if q.fieldType == NumericField {
        var minVal := MinBound(q.validValues);
        var maxVal := MaxBound(q.validValues);
        if value != "" {
          match ParseInt(value)
          case None =>
            errors := errors[q.sequenceNumber := NumberMessage];
          case Some(n) =>
            if n < minVal || n > maxVal {
              errors := errors[q.sequenceNumber := RangeMessage(minVal, maxVal)];
            }
        }
      }
    }

    /**
     * `validate_all`: the error map is rebuilt from nothing (so no earlier error survives), and
     * the result is true exactly when the rebuilt map is empty.
     */
    method ValidateAll() returns (ok: bool)
      requires Valid()
      modifies this`errors
      ensures errors == ValidationErrors(questions, answers)
      ensures ok <==> errors == map[]
    {
      errors := map[];
      var i := 0;
      while i < |questions|
        invariant 0 <= i <= |questions|
        invariant AllWellTyped(questions[i..])
        invariant ValidatePass(errors, questions[i..], answers) == ValidatePass(map[], questions, answers)
      {
        var q := questions[i];
        assert questions[i..][0] == q && questions[i..][1..] == questions[i + 1..];
        var seqNum := q.sequenceNumber;
        var value := AnswerOr(answers, seqNum, "");
        ghost var before := errors;
        var j := 0;
        while j < |q.rules|
          invariant 0 <= j <= |q.rules|
          invariant RuleFold(errors, seqNum, q.rules[j..], value, answers) == RuleFold(before, seqNum, q.rules, value, answers)
        {
          var rule := q.rules[j];
          assert q.rules[j..][0] == rule && q.rules[j..][1..] == q.rules[j + 1..];
          if EvaluateRule(rule, value, answers) {
            var outcome := ApplyRuleAction(value, rule);
            if !outcome.valid {
              errors := errors[seqNum := outcome.message.GetOr("")];
            }
          }
          j := j + 1;
        }
        CheckEntered(q, value);
        assert errors == QuestionStep(before, q, answers);
        i := i + 1;
      }
      ValidateCrossField();
      ok := |errors| == 0;
    }

    /** `validate_cross_field`: the duplicate-drug checks on the answers to "73", "74" and "75". */
    method ValidateCrossField()
      modifies this`errors
      ensures errors == CrossField(old(errors), answers)
    {
      var primary := AnswerOr(answers, "73", "");
      var secondary := AnswerOr(answers, "74", "");
      var tertiary := AnswerOr(answers, "75", "");
      if primary != "" && secondary != "" && primary == secondary {
        errors := errors["74" := SecondaryMessage];
      }
      if secondary != "" && tertiary != "" && secondary == tertiary {
        errors := errors["75" := TertiarySecondaryMessage];
      }
      if primary != "" && tertiary != "" && primary == tertiary {
        errors := errors["75" := TertiaryPrimaryMessage];
      }
    }

    /** The question search inside `get_formatted_answers`: the first question with that number. */
    method LookupQuestion(sequenceNumber: string) returns (question: Option<Question>)
      ensures question == FindQuestion(questions, sequenceNumber)
    {
      question := None;
      var i := 0;
      while i < |questions|
        invariant 0 <= i <= |questions|
        invariant FindQuestion(questions[i..], sequenceNumber) == FindQuestion(questions, sequenceNumber)
      {
        assert questions[i..][0] == questions[i] && questions[i..][1..] == questions[i + 1..];
        if questions[i].sequenceNumber == sequenceNumber {
          question := Some(questions[i]);
          break;
        }
        i := i + 1;
      }
    }

    /**
     * `get_formatted_answers`: every answer whose number belongs to a question, in its export
     * form; answers to unknown numbers are skipped.
     */
    method GetFormattedAnswers() returns (formatted: map<string, string>)
      requires Valid()
      ensures formatted == FormattedAnswers(questions, answers)
    {
      formatted := map[];
      ghost var spec := FormattedAnswers(questions, answers);
      var pending := answers.Keys;
      while pending != {}
        invariant pending <= answers.Keys
        invariant forall k :: k in formatted <==> k in spec && k !in pending
        invariant forall k :: k in formatted ==> formatted[k] == spec[k]
        decreases pending
      {
        var seqNum :| seqNum in pending;
        pending := pending - {seqNum};
        var value := answers[seqNum];
        var question := LookupQuestion(seqNum);
        if question.None? {
          assert seqNum !in spec;
          continue;
        }
        var q := question.value;
        var out := value;
        if q.fieldType == DateField && value != "" {
          out := FormatDate(value);
        } else if q.fieldType == NumericField && value != "" {
          if Truthy(q.validValues) {
            var maxVal := MaxBound(q.validValues);
            var padLength := |IntToString(maxVal)|;
            out := ZFill(value, padLength);
          }
        }
        assert seqNum in spec && out == spec[seqNum];
        formatted := formatted[seqNum := out];
      }
    }
  }
}
