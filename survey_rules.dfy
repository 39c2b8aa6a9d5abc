/**
 * What the survey engine computes, as functions of its question list and answer map: whether a
 * rule fires, what a fired rule does, the render pass over a question's rules, the error map
 * that a full validation produces, and the export formatting of the answers.
 */
module SurveyRules {
  import opened Wrappers
  import opened Strings
  import opened DataModels
  import opened SurveyConfig

  /** `answers.get(key, default)`. */
  function AnswerOr(answers: map<string, string>, key: string, default: string): (r: string)
    ensures key in answers ==> r == answers[key]
    ensures key !in answers ==> r == default
  {
    if key in answers then answers[key] else default
  }

  // ---------------------------------------------------------------------------------------------
  // evaluate_rule

  /** Does some dependency's answer (missing reads as "") equal `target`? */
  predicate SomeAnswerIs(deps: seq<string>, answers: map<string, string>, target: string) {
    exists i :: 0 <= i < |deps| && AnswerOr(answers, deps[i], "") == target
  }

  /** The truth of a condition for the candidate `value`. */
  predicate Holds(c: Condition, deps: seq<string>, value: string, answers: map<string, string>) {
    match c
    case Always => true
    case AnswerEquals(k, lit) => AnswerOr(answers, k, "") == lit
    case AnswerDiffers(k, lit) => AnswerOr(answers, k, "") != lit
    case AnswerEmpty(k) => AnswerOr(answers, k, "") == ""
    case AnyDependencyEquals(lit) => SomeAnswerIs(deps, answers, lit)
    case ValueEquals(k) => AnswerOr(answers, k, "") == value
  }

  /**
   * `!=` is the negation of `==`, `not answers.get(key, '')` is a comparison with "", and only
   * the any-dependency condition reads the dependency list.
   */
  lemma HoldsRelations(k: string, lit: string, c: Condition, deps: seq<string>, value: string,
                       answers: map<string, string>)
    ensures Holds(AnswerDiffers(k, lit), deps, value, answers) <==> !Holds(AnswerEquals(k, lit), deps, value, answers)
    ensures Holds(AnswerEmpty(k), deps, value, answers) <==> Holds(AnswerEquals(k, ""), deps, value, answers)
    ensures !c.AnyDependencyEquals? ==> (Holds(c, deps, value, answers) <==> Holds(c, [], value, answers))
  {
  }

  /**
   * `evaluate_rule`: a rule without dependencies never fires; otherwise its condition decides,
   * and a condition that reads no answer always holds.
   */
  predicate EvaluateRule(rule: Rule, value: string, answers: map<string, string>)
    ensures rule.dependencies.None? ==> !EvaluateRule(rule, value, answers)
    ensures rule.dependencies.Some? && rule.condition == Always ==> EvaluateRule(rule, value, answers)
  {
    match rule.dependencies
    case None => false
    case Some(deps) => Holds(rule.condition, deps, value, answers)
  }

  /** The answer keys a rule's condition reads. */
  function ReadKeys(rule: Rule): set<string> {
    match (rule.dependencies, rule.condition)
    case (None, _) => {}
    case (Some(_), Always) => {}
    case (Some(_), AnswerEquals(k, _)) => {k}
    case (Some(_), AnswerDiffers(k, _)) => {k}
    case (Some(_), AnswerEmpty(k)) => {k}
    case (Some(deps), AnyDependencyEquals(_)) => set i | 0 <= i < |deps| :: deps[i]
    case (Some(_), ValueEquals(k)) => {k}
  }

  /** Whether a rule fires depends only on the answers to the keys it reads. */
  lemma EvaluateRuleLocal(rule: Rule, value: string, a1: map<string, string>, a2: map<string, string>)
    requires forall k :: k in ReadKeys(rule) ==> AnswerOr(a1, k, "") == AnswerOr(a2, k, "")
    ensures EvaluateRule(rule, value, a1) == EvaluateRule(rule, value, a2)
  {
    if rule.dependencies.Some? && rule.condition.AnyDependencyEquals? {
      var deps := rule.dependencies.value;
      forall i | 0 <= i < |deps| ensures AnswerOr(a1, deps[i], "") == AnswerOr(a2, deps[i], "") {
        assert deps[i] in ReadKeys(rule);
      }
    }
  }

  // ---------------------------------------------------------------------------------------------
  // apply_rule_action

  const InvalidMessage: string := "Invalid value based on other selections"

  /** `(updated_value, is_field_valid, error_message)`. */
  datatype Outcome = Outcome(value: string, valid: bool, message: Option<string>)

  /**
   * `apply_rule_action`: "set_to_blank" blanks the value, "set_value '0'" sets "0", "invalid"
   * keeps it and reports the fixed message; "enable", any other action and a missing action
   * keep the value and report it valid.
   */
  function ApplyRuleAction(value: string, rule: Rule): (r: Outcome)
    ensures rule.action == Some(SetToBlank) ==> r.value == ""
    ensures rule.action == Some(SetValueZero) ==> r.value == "0"
    ensures r.value != value ==> rule.action == Some(SetToBlank) || rule.action == Some(SetValueZero)
    ensures !r.valid <==> rule.action == Some(MarkInvalid)
    ensures r.valid <==> r.message == None
    ensures !r.valid ==> r.value == value && r.message == Some(InvalidMessage)
  {
    match rule.action
    case None => Outcome(value, true, None)
    case Some(SetToBlank) => Outcome("", true, None)
    case Some(SetValueZero) => Outcome("0", true, None)
    case Some(MarkInvalid) => Outcome(value, false, Some(InvalidMessage))
    case Some(Enable) => Outcome(value, true, None)
    case Some(OtherAction) => Outcome(value, true, None)
  }

  // ---------------------------------------------------------------------------------------------
  // The rule loop of render_question

  /**
   * The state of the render loop: the current value, whether the field was disabled, and
   * whether a fired rule reported the value invalid.
   */
  datatype RenderState = RenderState(value: string, disabled: bool, invalid: bool)

  /** A rule that fires and is a "set_to_blank": the loop stops after it. */
  predicate StopsRender(rule: Rule, value: string, answers: map<string, string>) {
    EvaluateRule(rule, value, answers) && rule.action == Some(SetToBlank)
  }

  /**
   * The rule loop: each rule is evaluated on the value the previous ones produced, a fired rule's
   * action replaces the value, and a fired "set_to_blank" disables the field and ends the loop.
   */
  function RenderPass(rules: seq<Rule>, value: string, answers: map<string, string>): (r: RenderState)
    ensures r.disabled ==> r.value == ""
    ensures (forall i :: 0 <= i < |rules| ==> rules[i].action != Some(SetToBlank)) ==> !r.disabled
    ensures (forall i :: 0 <= i < |rules| ==> rules[i].action != Some(MarkInvalid)) ==> !r.invalid
    decreases |rules|
  {
    if rules == [] then RenderState(value, false, false)
    else
      var rule := rules[0];
      if EvaluateRule(rule, value, answers) then
        var o := ApplyRuleAction(value, rule);
        if rule.action == Some(SetToBlank) then RenderState(o.value, true, !o.valid)
        else
          var rest := RenderPass(rules[1..], o.value, answers);
          RenderState(rest.value, rest.disabled, !o.valid || rest.invalid)
      else RenderPass(rules[1..], value, answers)
  }

  /**
   * Rules run in list order, each on the value the previous ones left: the pass over `xs + ys`
   * is the pass over `xs` followed, unless `xs` stopped it, by the pass over `ys`.
   */
  lemma {:induction false} RenderPassAppend(xs: seq<Rule>, ys: seq<Rule>, value: string, answers: map<string, string>)
    ensures var first := RenderPass(xs, value, answers);
      RenderPass(xs + ys, value, answers) ==
        if first.disabled then first
        else
          var second := RenderPass(ys, first.value, answers);
          RenderState(second.value, second.disabled, first.invalid || second.invalid)
    decreases |xs|
  {
    if xs == [] {
      assert xs + ys == ys;
      assert RenderPass(xs, value, answers) == RenderState(value, false, false);
    } else {
      assert (xs + ys)[0] == xs[0] && (xs + ys)[1..] == xs[1..] + ys;
      var rule := xs[0];
      if EvaluateRule(rule, value, answers) {
        var o := ApplyRuleAction(value, rule);
        if rule.action != Some(SetToBlank) {
          RenderPassAppend(xs[1..], ys, o.value, answers);
        }
      } else {
        RenderPassAppend(xs[1..], ys, value, answers);
      }
    }
  }

  /** Once a fired "set_to_blank" has stopped the loop, later rules are not evaluated. */
  lemma RenderStopsAtBlank(xs: seq<Rule>, ys: seq<Rule>, value: string, answers: map<string, string>)
    requires RenderPass(xs, value, answers).disabled
    ensures RenderPass(xs + ys, value, answers) == RenderPass(xs, value, answers)
    ensures RenderPass(xs + ys, value, answers).value == ""
  {
    RenderPassAppend(xs, ys, value, answers);
  }

  /** A rule that does not fire leaves the loop's state as it was. */
  lemma RenderSkipsUnfired(rule: Rule, ys: seq<Rule>, value: string, answers: map<string, string>)
    requires !EvaluateRule(rule, value, answers)
    ensures RenderPass([rule] + ys, value, answers) == RenderPass(ys, value, answers)
  {
    assert ([rule] + ys)[1..] == ys;
  }

  /** The value a rule leaves for the next one. */
  function NextValue(rule: Rule, value: string, answers: map<string, string>): string {
    if EvaluateRule(rule, value, answers) then ApplyRuleAction(value, rule).value else value
  }

  /** After a first rule that does not stop the loop, a prefix's pass continues from that rule's value. */
  lemma RenderPrefixStep(rules: seq<Rule>, value: string, answers: map<string, string>, i: nat)
    requires 1 <= i <= |rules| && !StopsRender(rules[0], value, answers)
    ensures var later := RenderPass(rules[1..][..i - 1], NextValue(rules[0], value, answers), answers);
      RenderPass(rules[..i], value, answers).value == later.value &&
      RenderPass(rules[..i], value, answers).disabled == later.disabled
  {
    var p := rules[..i];
    assert p[0] == rules[0] && p[1..] == rules[1..][..i - 1];
  }

  /** The field ends disabled exactly when a fired "set_to_blank" is reached. */
  lemma {:induction false} RenderDisabledWitness(rules: seq<Rule>, value: string, answers: map<string, string>)
    ensures RenderPass(rules, value, answers).disabled <==>
      exists i :: 0 <= i < |rules| && !RenderPass(rules[..i], value, answers).disabled &&
        StopsRender(rules[i], RenderPass(rules[..i], value, answers).value, answers)
    decreases |rules|
  {
    if rules != [] {
      var rule := rules[0];
      var tail := rules[1..];
      assert rules[..0] == [];
      var v1 := NextValue(rule, value, answers);
      if StopsRender(rule, value, answers) {
        assert !RenderPass(rules[..0], value, answers).disabled;
      } else {
        RenderDisabledWitness(tail, v1, answers);
        RenderPrefixStep(rules, value, answers, |rules|);
        assert rules[..|rules|] == rules && tail[..|rules| - 1] == tail;
        if RenderPass(rules, value, answers).disabled {
          var j :| 0 <= j < |tail| && !RenderPass(tail[..j], v1, answers).disabled &&
            StopsRender(tail[j], RenderPass(tail[..j], v1, answers).value, answers);
          RenderPrefixStep(rules, value, answers, j + 1);
          assert rules[j + 1] == tail[j];
        } else {
          forall i | 0 <= i < |rules| && !RenderPass(rules[..i], value, answers).disabled
            ensures !StopsRender(rules[i], RenderPass(rules[..i], value, answers).value, answers)
          {
            if i > 0 {
              RenderPrefixStep(rules, value, answers, i);
              assert rules[i] == tail[i - 1];
            }
          }
        }
      }
    }
  }

  // ---------------------------------------------------------------------------------------------
  // Type checks (shared by render_question and validate_all)

  const DateMessage: string := "Please enter a valid date in MM/DD/YYYY format"
  const NumberMessage: string := "Please enter a valid number"

  /** `f"Value must be between {min_val} and {max_val}"`. */
  function RangeMessage(lo: int, hi: int): string {
    "Value must be between " + IntToString(lo) + " and " + IntToString(hi)
  }

  /** Python truth of `valid_values`: None, an empty dict and an empty list are false. */
  predicate Truthy(vv: ValidValues) {
    match vv
    case NoValues => false
    case Bounds(lo, hi) => lo.Some? || hi.Some?
    case Codes(cs) => cs != []
  }

  /**
   * The engine reads "min" and "max" from a numeric question's `valid_values` with `.get`, which
   * a non-empty list does not have: such a question makes the engine raise, so the model
   * requires its questions not to be of that shape.
   */
  predicate WellTyped(q: Question) {
    q.fieldType == NumericField ==> !(q.validValues.Codes? && q.validValues.codes != [])
  }

  predicate AllWellTyped(qs: seq<Question>) {
    forall i :: 0 <= i < |qs| ==> WellTyped(qs[i])
  }

  /** `valid_values.get("min", 0) if valid_values else 0`. */
  function MinBound(vv: ValidValues): (r: int)
    ensures r == 0 || (vv.Bounds? && vv.min == Some(r))
    ensures vv.Bounds? && vv.min.Some? ==> r == vv.min.value
  {
    if vv.Bounds? then vv.min.GetOr(0) else 0
  }

  /** `valid_values.get("max", 999) if valid_values else 999`. */
  function MaxBound(vv: ValidValues): (r: int)
    ensures r == 999 || (vv.Bounds? && vv.max == Some(r))
    ensures vv.Bounds? && vv.max.Some? ==> r == vv.max.value
  {
    if vv.Bounds? then vv.max.GetOr(999) else 999
  }

  /**
   * The type check of a non-empty value: a date must pass `validate_date`; a number must parse
   * with `int()` and lie in the inclusive range; other types and empty values are not checked.
   */
  function TypeError(q: Question, value: string): (r: Option<string>)
    requires WellTyped(q)
    ensures value == "" || (q.fieldType != DateField && q.fieldType != NumericField) ==> r == None
    ensures q.fieldType == DateField && value != "" ==> (r.Some? <==> !ValidateDate(value))
    ensures q.fieldType == NumericField && value != "" ==>
      (r == Some(NumberMessage) <==> ParseInt(value).None?)
    ensures q.fieldType == NumericField && value != "" && ParseInt(value).Some? ==>
      (r.Some? <==> !(MinBound(q.validValues) <= ParseInt(value).value <= MaxBound(q.validValues)))
  {
    if q.fieldType == DateField && value != "" then
      if !ValidateDate(value) then Some(DateMessage) else None
    else if q.fieldType == NumericField && value != "" then
      var lo, hi := MinBound(q.validValues), MaxBound(q.validValues);
      match ParseInt(value)
      case None => Some(NumberMessage)
      case Some(n) => if n < lo || n > hi then Some(RangeMessage(lo, hi)) else None
    else None
  }

  /** A number written in decimal is accepted by a numeric question exactly when it is in range. */
  lemma NumericInRange(q: Question, n: int)
    requires WellTyped(q) && q.fieldType == NumericField
    ensures TypeError(q, IntToString(n)) ==
      if MinBound(q.validValues) <= n <= MaxBound(q.validValues) then None
      else Some(RangeMessage(MinBound(q.validValues), MaxBound(q.validValues)))
  {
    ParseIntToString(n);
  }

  // ---------------------------------------------------------------------------------------------
  // validate_all and validate_cross_field

  /** Some rule fires on `value` with the "invalid" action. */
  predicate RulesInvalid(rules: seq<Rule>, value: string, answers: map<string, string>) {
    exists i :: 0 <= i < |rules| && EvaluateRule(rules[i], value, answers) && rules[i].action == Some(MarkInvalid)
  }

  /** The rule pass of `validate_all` for one question: every rule is evaluated on the same value. */
  function RuleFold(errs: map<string, string>, key: string, rules: seq<Rule>, value: string,
                    answers: map<string, string>): (r: map<string, string>)
    ensures key in errs ==> key in r
    ensures forall k :: k != key ==> (k in r <==> k in errs) && (k in errs ==> r[k] == errs[k])
    decreases |rules|
  {
    if rules == [] then errs
    else
      var o := ApplyRuleAction(value, rules[0]);
      var e := if EvaluateRule(rules[0], value, answers) && !o.valid then errs[key := o.message.GetOr("")] else errs;
      RuleFold(e, key, rules[1..], value, answers)
  }

  /** The rule pass records the invalid message exactly when some rule fires with "invalid". */
  lemma {:induction false} RuleFoldMeaning(errs: map<string, string>, key: string, rules: seq<Rule>,
                                           value: string, answers: map<string, string>)
    ensures RuleFold(errs, key, rules, value, answers) ==
      if RulesInvalid(rules, value, answers) then errs[key := InvalidMessage] else errs
    decreases |rules|
  {
    if rules != [] {
      var o := ApplyRuleAction(value, rules[0]);
      var fires := EvaluateRule(rules[0], value, answers) && !o.valid;
      var e := if fires then errs[key := InvalidMessage] else errs;
      RuleFoldMeaning(e, key, rules[1..], value, answers);
      if fires {
        assert RulesInvalid(rules, value, answers);
        assert e[key := InvalidMessage] == errs[key := InvalidMessage];
      } else if RulesInvalid(rules[1..], value, answers) {
        var i :| 0 <= i < |rules[1..]| && EvaluateRule(rules[1..][i], value, answers) &&
          rules[1..][i].action == Some(MarkInvalid);
        assert rules[i + 1] == rules[1..][i];
      } else {
        forall i | 0 <= i < |rules| && EvaluateRule(rules[i], value, answers)
          ensures rules[i].action != Some(MarkInvalid)
        {
          if i > 0 {
            assert rules[i] == rules[1..][i - 1];
          }
        }
      }
    }
  }

  /**
   * The error `validate_all` leaves for one question: a type error when there is one (it is
   * written last), otherwise the invalid-rule message when some rule fires with "invalid".
   */
  function QuestionError(q: Question, answers: map<string, string>): (r: Option<string>)
    requires WellTyped(q)
    ensures r.None? <==>
      TypeError(q, AnswerOr(answers, q.sequenceNumber, "")).None? &&
      !RulesInvalid(q.rules, AnswerOr(answers, q.sequenceNumber, ""), answers)
  {
    var value := AnswerOr(answers, q.sequenceNumber, "");
    match TypeError(q, value)
    case Some(m) => Some(m)
    case None => if RulesInvalid(q.rules, value, answers) then Some(InvalidMessage) else None
  }

  /** One question of `validate_all`: its value (missing reads as ""), the rule pass, the type check. */
  function QuestionStep(errs: map<string, string>, q: Question, answers: map<string, string>): (r: map<string, string>)
    requires WellTyped(q)
    ensures q.sequenceNumber in errs ==> q.sequenceNumber in r
    ensures forall k :: k != q.sequenceNumber ==> (k in r <==> k in errs) && (k in errs ==> r[k] == errs[k])
    ensures TypeError(q, AnswerOr(answers, q.sequenceNumber, "")).Some? ==>
      q.sequenceNumber in r && r[q.sequenceNumber] == TypeError(q, AnswerOr(answers, q.sequenceNumber, "")).value
  {
    var value := AnswerOr(answers, q.sequenceNumber, "");
    var e := RuleFold(errs, q.sequenceNumber, q.rules, value, answers);
    match TypeError(q, value)
    case Some(m) => e[q.sequenceNumber := m]
    case None => e
  }

  /** A question's step writes its own error, if any, and touches no other key. */
  lemma QuestionStepMeaning(errs: map<string, string>, q: Question, answers: map<string, string>)
    requires WellTyped(q)
    ensures QuestionStep(errs, q, answers) ==
      match QuestionError(q, answers)
      case Some(m) => errs[q.sequenceNumber := m]
      case None => errs
  {
    var value := AnswerOr(answers, q.sequenceNumber, "");
    RuleFoldMeaning(errs, q.sequenceNumber, q.rules, value, answers);
    StepOverwrite(errs, q.sequenceNumber, TypeError(q, value), RulesInvalid(q.rules, value, answers));
  }

  /** One key after a question's step: set when it was set or is that question's erroneous number. */
  lemma QuestionStepKey(errs: map<string, string>, q: Question, answers: map<string, string>, k: string)
    requires WellTyped(q)
    ensures var e := QuestionStep(errs, q, answers);
      (k in e <==> k in errs || (q.sequenceNumber == k && QuestionError(q, answers).Some?)) &&
      (q.sequenceNumber != k && k in errs ==> e[k] == errs[k])
  {
    QuestionStepMeaning(errs, q, answers);
  }

  /** A type error written after the rule message replaces it; without one the rule message stays. */
  lemma StepOverwrite(errs: map<string, string>, key: string, typeError: Option<string>, invalid: bool)
    ensures var e := if invalid then errs[key := InvalidMessage] else errs;
      var err := match typeError case Some(m) => Some(m) case None => if invalid then Some(InvalidMessage) else None;
      (match typeError case Some(m) => e[key := m] case None => e) ==
      (match err case Some(m) => errs[key := m] case None => errs)
  {
    if typeError.Some? && invalid {
      assert errs[key := InvalidMessage][key := typeError.value] == errs[key := typeError.value];
    }
  }

  /** The question loop of `validate_all`, in list order. */
  function ValidatePass(errs: map<string, string>, qs: seq<Question>, answers: map<string, string>): (r: map<string, string>)
    requires AllWellTyped(qs)
    ensures errs.Keys <= r.Keys
    decreases |qs|
  {
    if qs == [] then errs else ValidatePass(QuestionStep(errs, qs[0], answers), qs[1..], answers)
  }

  /**
   * After the question loop a key holds an error exactly when it held one before or some
   * question with that number has an error; keys of no question keep what they had.
   */
  lemma {:induction false} ValidatePassKeys(errs: map<string, string>, qs: seq<Question>, answers: map<string, string>, k: string)
    requires AllWellTyped(qs)
    ensures k in ValidatePass(errs, qs, answers) <==>
      k in errs || exists i :: 0 <= i < |qs| && qs[i].sequenceNumber == k && QuestionError(qs[i], answers).Some?
    ensures (forall i :: 0 <= i < |qs| ==> qs[i].sequenceNumber != k) && k in errs ==>
      ValidatePass(errs, qs, answers)[k] == errs[k]
    decreases |qs|
  {
    if qs != [] {
      var e := QuestionStep(errs, qs[0], answers);
      QuestionStepKey(errs, qs[0], answers, k);
      ValidatePassKeys(e, qs[1..], answers, k);
      ErroneousNumberSplit(qs, answers, k);
    }
  }

  /** Some question numbered `k` has an error exactly when the first one does or some later one does. */
  lemma ErroneousNumberSplit(qs: seq<Question>, answers: map<string, string>, k: string)
    requires AllWellTyped(qs) && qs != []
    ensures (exists i :: 0 <= i < |qs| && qs[i].sequenceNumber == k && QuestionError(qs[i], answers).Some?) <==>
      (qs[0].sequenceNumber == k && QuestionError(qs[0], answers).Some?) ||
      (exists i :: 0 <= i < |qs[1..]| && qs[1..][i].sequenceNumber == k && QuestionError(qs[1..][i], answers).Some?)
    ensures (forall i :: 0 <= i < |qs| ==> qs[i].sequenceNumber != k) ==>
      qs[0].sequenceNumber != k && forall i :: 0 <= i < |qs[1..]| ==> qs[1..][i].sequenceNumber != k
  {
    if exists i :: 0 <= i < |qs[1..]| && qs[1..][i].sequenceNumber == k && QuestionError(qs[1..][i], answers).Some? {
      var i :| 0 <= i < |qs[1..]| && qs[1..][i].sequenceNumber == k && QuestionError(qs[1..][i], answers).Some?;
      assert qs[i + 1] == qs[1..][i];
    }
    if exists i :: 0 <= i < |qs| && qs[i].sequenceNumber == k && QuestionError(qs[i], answers).Some? {
      var i :| 0 <= i < |qs| && qs[i].sequenceNumber == k && QuestionError(qs[i], answers).Some?;
      if i > 0 {
        assert qs[1..][i - 1] == qs[i];
      }
    }
    if forall i :: 0 <= i < |qs| ==> qs[i].sequenceNumber != k {
      forall i | 0 <= i < |qs[1..]| ensures qs[1..][i].sequenceNumber != k {
        assert qs[1..][i] == qs[i + 1];
      }
    }
  }

  /** With distinct numbers, each question's entry after the loop is its own error. */
  lemma {:induction false} ValidatePassValue(errs: map<string, string>, qs: seq<Question>, answers: map<string, string>, i: nat)
    requires AllWellTyped(qs) && DistinctNumbers(qs) && i < |qs|
    requires QuestionError(qs[i], answers).Some?
    ensures qs[i].sequenceNumber in ValidatePass(errs, qs, answers)
    ensures ValidatePass(errs, qs, answers)[qs[i].sequenceNumber] == QuestionError(qs[i], answers).value
    decreases |qs|
  {
    var k := qs[i].sequenceNumber;
    var e := QuestionStep(errs, qs[0], answers);
    QuestionStepMeaning(errs, qs[0], answers);
    assert DistinctNumbers(qs[1..]) by {
      forall a, b | 0 <= a < |qs[1..]| && 0 <= b < |qs[1..]| && a != b
        ensures qs[1..][a].sequenceNumber != qs[1..][b].sequenceNumber
      {
        assert qs[1..][a] == qs[a + 1] && qs[1..][b] == qs[b + 1];
      }
    }
    if i == 0 {
      forall j | 0 <= j < |qs[1..]| ensures qs[1..][j].sequenceNumber != k {
        assert qs[1..][j] == qs[j + 1];
      }
      ValidatePassKeys(e, qs[1..], answers, k);
    } else {
      ValidatePassValue(e, qs[1..], answers, i - 1);
      assert qs[1..][i - 1] == qs[i];
    }
  }

  const SecondaryMessage: string := "Secondary drug cannot be the same as primary drug"
  const TertiarySecondaryMessage: string := "Tertiary drug cannot be the same as secondary drug"
  const TertiaryPrimaryMessage: string := "Tertiary drug cannot be the same as primary drug"

  /** Both answers are given (missing reads as "") and equal. */
  predicate SameDrug(answers: map<string, string>, k1: string, k2: string) {
    var a, b := AnswerOr(answers, k1, ""), AnswerOr(answers, k2, "");
    a != "" && b != "" && a == b
  }

  /**
   * `validate_cross_field`: "74" is flagged when it repeats "73"; "75" is flagged when it repeats
   * "74", and the primary-drug message written afterwards wins when it also repeats "73".
   */
  function CrossField(errs: map<string, string>, answers: map<string, string>): (r: map<string, string>)
    ensures forall k :: k != "74" && k != "75" ==> (k in r <==> k in errs)
    ensures forall k :: k in errs && k != "74" && k != "75" ==> r[k] == errs[k]
    ensures "74" in r <==> "74" in errs || SameDrug(answers, "73", "74")
    ensures SameDrug(answers, "73", "74") ==> r["74"] == SecondaryMessage
    ensures !SameDrug(answers, "73", "74") && "74" in errs ==> r["74"] == errs["74"]
    ensures "75" in r <==> "75" in errs || SameDrug(answers, "74", "75") || SameDrug(answers, "73", "75")
    ensures SameDrug(answers, "73", "75") ==> r["75"] == TertiaryPrimaryMessage
    ensures !SameDrug(answers, "73", "75") && SameDrug(answers, "74", "75") ==> r["75"] == TertiarySecondaryMessage
    ensures !SameDrug(answers, "73", "75") && !SameDrug(answers, "74", "75") && "75" in errs ==> r["75"] == errs["75"]
  {
    var e1 := if SameDrug(answers, "73", "74") then errs["74" := SecondaryMessage] else errs;
    var e2 := if SameDrug(answers, "74", "75") then e1["75" := TertiarySecondaryMessage] else e1;
    if SameDrug(answers, "73", "75") then e2["75" := TertiaryPrimaryMessage] else e2
  }

  /** The error map `validate_all` leaves: it starts empty, then the question loop, then the cross-field check. */
  function ValidationErrors(qs: seq<Question>, answers: map<string, string>): (r: map<string, string>)
    requires AllWellTyped(qs)
    ensures forall k :: k != "74" && k != "75" ==>
      (k in r <==> exists i :: 0 <= i < |qs| && qs[i].sequenceNumber == k && QuestionError(qs[i], answers).Some?)
  {
    ValidatePassErrorKeys(qs, answers);
    CrossField(ValidatePass(map[], qs, answers), answers)
  }

  /** From no errors, the question loop leaves an error exactly under each erroneous question's number. */
  lemma ValidatePassErrorKeys(qs: seq<Question>, answers: map<string, string>)
    requires AllWellTyped(qs)
    ensures forall k :: k in ValidatePass(map[], qs, answers) <==>
      exists i :: 0 <= i < |qs| && qs[i].sequenceNumber == k && QuestionError(qs[i], answers).Some?
  {
    forall k
      ensures k in ValidatePass(map[], qs, answers) <==>
        exists i :: 0 <= i < |qs| && qs[i].sequenceNumber == k && QuestionError(qs[i], answers).Some?
    {
      ValidatePassKeys(map[], qs, answers, k);
    }
  }

  /**
   * `validate_all` returns true exactly when no question has an error and no drug answer
   * repeats an earlier one.
   */
  lemma ValidationAccepts(qs: seq<Question>, answers: map<string, string>)
    requires AllWellTyped(qs)
    ensures ValidationErrors(qs, answers) == map[] <==>
      (forall i :: 0 <= i < |qs| ==> QuestionError(qs[i], answers).None?) &&
      !SameDrug(answers, "73", "74") && !SameDrug(answers, "74", "75") && !SameDrug(answers, "73", "75")
  {
    var pass := ValidatePass(map[], qs, answers);
    var r := ValidationErrors(qs, answers);
    if r == map[] {
      assert "74" !in r && "75" !in r;
      forall i | 0 <= i < |qs| ensures QuestionError(qs[i], answers).None? {
        var k := qs[i].sequenceNumber;
        ValidatePassKeys(map[], qs, answers, k);
        if k != "74" && k != "75" {
          assert k !in r;
        }
      }
    } else {
      var k :| k in r;
      ValidatePassKeys(map[], qs, answers, k);
    }
  }

  // ---------------------------------------------------------------------------------------------
  // get_formatted_answers

  /**
   * The export form of one answer: a non-empty date is re-emitted by `format_date`; a
   * non-empty number whose `valid_values` is set is zero-filled to the width of `str(max)`;
   * everything else is kept.
   */
  function FormatAnswer(q: Question, value: string): (r: string)
    requires WellTyped(q)
    ensures q.fieldType == DateField && value != "" ==> r == FormatDate(value)
    ensures q.fieldType == NumericField && value != "" && Truthy(q.validValues) ==>
      r == ZFill(value, |IntToString(MaxBound(q.validValues))|)
    ensures q.fieldType == NumericField ==> |r| >= |value|
    ensures value == "" || (q.fieldType != DateField && !(q.fieldType == NumericField && Truthy(q.validValues))) ==> r == value
  {
    if q.fieldType == DateField && value != "" then FormatDate(value)
    else if q.fieldType == NumericField && value != "" then
      if Truthy(q.validValues) then ZFill(value, |IntToString(MaxBound(q.validValues))|) else value
    else value
  }

  /** Formatting an exported answer again changes nothing. */
  lemma FormatAnswerIdempotent(q: Question, value: string)
    requires WellTyped(q)
    ensures FormatAnswer(q, FormatAnswer(q, value)) == FormatAnswer(q, value)
  {
    if q.fieldType == DateField && value != "" {
      FormatDateIdempotent(value);
    } else if q.fieldType == NumericField && value != "" && Truthy(q.validValues) {
      ZFillIdempotent(value, |IntToString(MaxBound(q.validValues))|);
    }
  }

  /** Zero-filling a numeric answer written in digits keeps the number it denotes. */
  lemma FormatNumericKeepsValue(q: Question, value: string)
    requires WellTyped(q) && q.fieldType == NumericField && value != "" && AllDigits(value)
    ensures ParseInt(FormatAnswer(q, value)) == ParseInt(value)
  {
    if Truthy(q.validValues) {
      ZFillValue(value, |IntToString(MaxBound(q.validValues))|);
    }
  }

  /** `get_formatted_answers`: one entry per answered number that some question has. */
  function FormattedAnswers(qs: seq<Question>, answers: map<string, string>): (r: map<string, string>)
    requires AllWellTyped(qs)
    ensures forall k :: k in r <==> k in answers && exists i :: 0 <= i < |qs| && qs[i].sequenceNumber == k
  {
    map k | k in answers && FindQuestion(qs, k).Some? :: FormatAnswer(FindQuestion(qs, k).value, answers[k])
  }

  /** Each exported entry is the answer formatted by the first question with that number. */
  lemma FormattedAnswerOf(qs: seq<Question>, answers: map<string, string>, i: nat)
    requires AllWellTyped(qs) && i < |qs| && qs[i].sequenceNumber in answers
    requires forall j :: 0 <= j < i ==> qs[j].sequenceNumber != qs[i].sequenceNumber
    ensures FormattedAnswers(qs, answers)[qs[i].sequenceNumber] == FormatAnswer(qs[i], answers[qs[i].sequenceNumber])
  {
    FindQuestionFirst(qs, qs[i].sequenceNumber, i);
  }

  // ---------------------------------------------------------------------------------------------
  // The bank

  /** Every question of the bank is well typed, and every default passes its own type check. */
  lemma BankDefaultsValid()
    ensures AllWellTyped(AdmissionSurveyQuestions)
    ensures forall i :: 0 <= i < |AdmissionSurveyQuestions| ==>
      TypeError(AdmissionSurveyQuestions[i], AdmissionSurveyQuestions[i].defaultValue) == None
  {
    var qs := AdmissionSurveyQuestions;
    forall i | 0 <= i < |qs| ensures WellTyped(qs[i]) && TypeError(qs[i], qs[i].defaultValue) == None {
      if i == 1 {
        ZeroDefaultValid(qs[1]);
      } else {
        assert qs[i].defaultValue == "";
      }
    }
  }

  /** A numeric question whose default is "000" accepts it when its bounds admit 0. */
  lemma ZeroDefaultValid(q: Question)
    requires q == AdmissionSurveyQuestions[1]
    ensures WellTyped(q) && TypeError(q, q.defaultValue) == None
  {
    var z := q.defaultValue;
    assert z == Zeros(3);
    ZerosValue(3);
    ParseIntDigits(z);
  }

  /** Every numeric question of the bank has `min <= max`. */
  lemma BankBoundsOrdered()
    ensures forall i :: 0 <= i < |AdmissionSurveyQuestions| && AdmissionSurveyQuestions[i].fieldType == NumericField ==>
      AdmissionSurveyQuestions[i].validValues.Bounds? &&
      MinBound(AdmissionSurveyQuestions[i].validValues) <= MaxBound(AdmissionSurveyQuestions[i].validValues)
  {
  }
}
