/** The execution engine: runs each field's rule chain against the request's
    field values, using the validators of a registry, and gathers at most one
    failure record per field. */
module ExecutionEngine {
  import opened ValidationTypes
  import opened ValidatorRegistry

  /** What applying `rule` to `fieldName` returns: the registered validator's
      answer on a fresh context, or None (as good as blank) when no validator
      is registered under the rule's name. */
  function RuleOutcome(validators: map<string, Validator>, fieldValues: map<string, Value>,
                       fieldName: string, rule: Rule): Option<string>
  {
    if rule.validatorName in validators then
      validators[rule.validatorName].validate(Context(fieldName, rule, fieldValues))
    else None
  }

  /** Whether `rule` fails `fieldName`: its outcome is not blank. */
  predicate Fails(validators: map<string, Validator>, fieldValues: map<string, Value>,
                  fieldName: string, rule: Rule)
  {
    !IsBlank(RuleOutcome(validators, fieldValues, fieldName, rule))
  }

  /** The index of the first rule at or after `from` that fails `fieldName`. */
  function FirstFailure(validators: map<string, Validator>, fieldValues: map<string, Value>,
                        fieldName: string, rules: seq<Rule>, from: nat): (r: Option<nat>)
    requires from <= |rules|
    ensures r.Some? ==> from <= r.value < |rules| && Fails(validators, fieldValues, fieldName, rules[r.value])
    ensures r.Some? ==> forall j :: from <= j < r.value ==> !Fails(validators, fieldValues, fieldName, rules[j])
    ensures r.None? <==> forall j :: from <= j < |rules| ==> !Fails(validators, fieldValues, fieldName, rules[j])
    decreases |rules| - from
  {
    if from == |rules| then None
    else if Fails(validators, fieldValues, fieldName, rules[from]) then Some(from)
    else FirstFailure(validators, fieldValues, fieldName, rules, from + 1)
  }

  /** The message recorded for `fieldName`: the outcome of its first failing
      rule, or None when it has no rules or every rule passes. */
  function FieldMessage(validators: map<string, Validator>, ruleMap: RuleMap,
                        fieldValues: map<string, Value>, fieldName: string): Option<string>
  {
    if fieldName in ruleMap && |ruleMap[fieldName]| > 0 then
      match FirstFailure(validators, fieldValues, fieldName, ruleMap[fieldName], 0)
      case Some(i) => RuleOutcome(validators, fieldValues, fieldName, ruleMap[fieldName][i])
      case None => None
    else None
  }

  /** The failure records of the fields `keys`, examined in order. */
  function ResultsOf(validators: map<string, Validator>, ruleMap: RuleMap,
                     fieldValues: map<string, Value>, keys: seq<string>): set<ValidateResult>
  {
    if keys == [] then {}
    else
      var last := keys[|keys| - 1];
      ResultsOf(validators, ruleMap, fieldValues, keys[..|keys| - 1])
      + match FieldMessage(validators, ruleMap, fieldValues, last)
        case Some(m) => {ValidateResult(last, m)}
        case None => {}
  }

  /** The fields `execute` examines: all of them in full mode, otherwise only
      the first in iteration order, whether it fails or not. */
  function Examined(policy: Policy, order: seq<string>): seq<string>
  {
    if policy.fullMode || |order| <= 1 then order else order[..1]
  }

  /** The failure set `execute` returns for one iteration order of the keys. */
  function Executed(validators: map<string, Validator>, policy: Policy, ruleMap: RuleMap,
                    fieldValues: map<string, Value>, order: seq<string>): set<ValidateResult>
  {
    ResultsOf(validators, ruleMap, fieldValues, Examined(policy, order))
  }

  /** `order` lists every key of `fieldValues` exactly once: an iteration order
      of its key set. */
  ghost predicate IsIterationOrder(order: seq<string>, fieldValues: map<string, Value>)
  {
    && (forall i, j :: 0 <= i < j < |order| ==> order[i] != order[j])
    && (forall k :: k in fieldValues <==> k in order)
  }

  /** `execute`: for each field in iteration order, runs its rules in declared
      order, skipping unregistered validators, records the first non-blank
      answer and stops that field's chain there; outside full mode it stops
      after the first field, failed or not. */
  method Execute(registry: Registry, policy: Policy, ruleMap: RuleMap,
                 fieldValues: map<string, Value>, order: seq<string>) returns (results: set<ValidateResult>)
    requires IsIterationOrder(order, fieldValues)
    ensures results == Executed(registry.validators, policy, ruleMap, fieldValues, order)
  {
    var validators := registry.validators;
    results := {};
    var i := 0;
    while i < |order|
      invariant 0 <= i <= |order|
      invariant !policy.fullMode ==> i == 0
      invariant results == ResultsOf(validators, ruleMap, fieldValues, order[..i])
    {
      var fieldName := order[i];
      assert order[..i + 1][..i] == order[..i];
      if fieldName in ruleMap && |ruleMap[fieldName]| > 0 {
        var rules := ruleMap[fieldName];
        ghost var before := results;
        var j := 0;
        while j < |rules|
          invariant 0 <= j <= |rules|
          invariant forall q :: 0 <= q < j ==> !Fails(validators, fieldValues, fieldName, rules[q])
          invariant results == before
        {
          var rule := rules[j];
          if rule.validatorName in validators {
            var validator := validators[rule.validatorName];
            var result := validator.validate(Context(fieldName, rule, fieldValues));
            if !IsBlank(result) {
              FirstFailureIs(validators, fieldValues, fieldName, rules, j);
              results := results + {ValidateResult(fieldName, result.value)};
              break;
            }
          }
          j := j + 1;
        }
      }
      i := i + 1;
      if !policy.fullMode {
        break;
      }
    }
    assert order[..|order|] == order;
  }

  /** A failing rule preceded only by passing rules is THE first failure. */
  lemma FirstFailureIs(validators: map<string, Validator>, fieldValues: map<string, Value>,
                       fieldName: string, rules: seq<Rule>, i: nat)
    requires i < |rules| && Fails(validators, fieldValues, fieldName, rules[i])
    requires forall j :: 0 <= j < i ==> !Fails(validators, fieldValues, fieldName, rules[j])
    ensures FirstFailure(validators, fieldValues, fieldName, rules, 0) == Some(i)
  {
  }

  /** Within one field the first failing rule decides the message, whatever
      rules follow it: those later rules are never consulted. */
  lemma FirstFailingRuleWins(validators: map<string, Validator>, ruleMap: RuleMap,
                             fieldValues: map<string, Value>, fieldName: string, i: nat, later: seq<Rule>)
    requires fieldName in ruleMap && i < |ruleMap[fieldName]|
    requires Fails(validators, fieldValues, fieldName, ruleMap[fieldName][i])
    requires forall j :: 0 <= j < i ==> !Fails(validators, fieldValues, fieldName, ruleMap[fieldName][j])
    ensures FieldMessage(validators, ruleMap, fieldValues, fieldName)
            == RuleOutcome(validators, fieldValues, fieldName, ruleMap[fieldName][i])
    ensures FieldMessage(validators, ruleMap[fieldName := ruleMap[fieldName][..i + 1] + later], fieldValues, fieldName)
            == RuleOutcome(validators, fieldValues, fieldName, ruleMap[fieldName][i])
  {
    var rules := ruleMap[fieldName];
    var rules' := rules[..i + 1] + later;
    FirstFailureIs(validators, fieldValues, fieldName, rules, i);
    assert forall j :: 0 <= j <= i ==> rules'[j] == rules[j];
    FirstFailureIs(validators, fieldValues, fieldName, rules', i);
  }

  /** A field produces no message exactly when it has no rules or each of its
      rules passes (an unregistered validator or a blank answer); otherwise the
      message is a validator's non-blank answer. */
  lemma FieldMessageCases(validators: map<string, Validator>, ruleMap: RuleMap,
                          fieldValues: map<string, Value>, fieldName: string)
    ensures FieldMessage(validators, ruleMap, fieldValues, fieldName).None?
            <==> (fieldName !in ruleMap
                  || forall j :: 0 <= j < |ruleMap[fieldName]| ==> !Fails(validators, fieldValues, fieldName, ruleMap[fieldName][j]))
    ensures FieldMessage(validators, ruleMap, fieldValues, fieldName).Some?
            ==> fieldName in ruleMap && |ruleMap[fieldName]| > 0
                && !IsBlank(FieldMessage(validators, ruleMap, fieldValues, fieldName))
  {
  }

  /** A rule naming an unregistered validator is skipped: putting it in front
      of a field's rules changes nothing. */
  lemma UnregisteredRuleIsSkipped(validators: map<string, Validator>, ruleMap: RuleMap,
                                  fieldValues: map<string, Value>, fieldName: string, rule: Rule)
    requires rule.validatorName !in validators
    requires fieldName in ruleMap
    ensures FieldMessage(validators, ruleMap[fieldName := [rule] + ruleMap[fieldName]], fieldValues, fieldName)
            == FieldMessage(validators, ruleMap, fieldValues, fieldName)
  {
    var rules := ruleMap[fieldName];
    var rules' := [rule] + rules;
    assert !Fails(validators, fieldValues, fieldName, rules'[0]);
    assert forall j :: 0 <= j < |rules| ==> rules'[j + 1] == rules[j];
    var r := FirstFailure(validators, fieldValues, fieldName, rules, 0);
    if r.Some? {
      FirstFailureIs(validators, fieldValues, fieldName, rules', r.value + 1);
    } else {
      assert forall j :: 0 <= j < |rules'| ==> !Fails(validators, fieldValues, fieldName, rules'[j]) by {
        forall j | 0 <= j < |rules'| ensures !Fails(validators, fieldValues, fieldName, rules'[j]) {
          if j > 0 {
            assert rules'[j] == rules[j - 1];
          }
        }
      }
    }
  }

  /** A record is in the failure set of `keys` exactly when its field is one of
      `keys` and its message is that field's message. */
  lemma {:induction false} ResultsOfMembership(validators: map<string, Validator>, ruleMap: RuleMap,
                                               fieldValues: map<string, Value>, keys: seq<string>, r: ValidateResult)
    ensures r in ResultsOf(validators, ruleMap, fieldValues, keys)
            <==> r.fieldName in keys && FieldMessage(validators, ruleMap, fieldValues, r.fieldName) == Some(r.message)
  {
    if keys != [] {
      var init := keys[..|keys| - 1];
      ResultsOfMembership(validators, ruleMap, fieldValues, init, r);
      assert keys == init + [keys[|keys| - 1]];
    }
  }

  /** Every failure record names a key of the field values whose rule array is
      present and non-empty, and carries a non-blank message; no field has two
      records. */
  lemma ExecutedWellFormed(validators: map<string, Validator>, policy: Policy, ruleMap: RuleMap,
                           fieldValues: map<string, Value>, order: seq<string>)
    requires IsIterationOrder(order, fieldValues)
    ensures forall r :: r in Executed(validators, policy, ruleMap, fieldValues, order)
              ==> r.fieldName in fieldValues && r.fieldName in ruleMap && |ruleMap[r.fieldName]| > 0
                  && !IsBlank(Some(r.message))
    ensures forall r1, r2 ::
              (r1 in Executed(validators, policy, ruleMap, fieldValues, order)
               && r2 in Executed(validators, policy, ruleMap, fieldValues, order)
               && r1.fieldName == r2.fieldName) ==> r1 == r2
  {
    var keys := Examined(policy, order);
    var results := Executed(validators, policy, ruleMap, fieldValues, order);
    forall r | r in results
      ensures r.fieldName in fieldValues && r.fieldName in ruleMap && |ruleMap[r.fieldName]| > 0
      ensures !IsBlank(Some(r.message))
      ensures FieldMessage(validators, ruleMap, fieldValues, r.fieldName) == Some(r.message)
    {
      ResultsOfMembership(validators, ruleMap, fieldValues, keys, r);
      FieldMessageCases(validators, ruleMap, fieldValues, r.fieldName);
    }
  }

  /** Outside full mode only the first field in iteration order is examined:
      the result is that field's record if it fails and empty otherwise, even
      when a later field would fail. */
  lemma NotFullModeExaminesFirstField(validators: map<string, Validator>, policy: Policy, ruleMap: RuleMap,
                                      fieldValues: map<string, Value>, order: seq<string>)
    requires !policy.fullMode && IsIterationOrder(order, fieldValues)
    ensures order == [] ==> Executed(validators, policy, ruleMap, fieldValues, order) == {}
    ensures order != [] ==>
              Executed(validators, policy, ruleMap, fieldValues, order)
              == match FieldMessage(validators, ruleMap, fieldValues, order[0])
                 case Some(m) => {ValidateResult(order[0], m)}
                 case None => {}
  {
    var keys := Examined(policy, order);
    var results := Executed(validators, policy, ruleMap, fieldValues, order);
    if order == [] {
      assert results == {};
    } else {
      assert keys == [order[0]];
      var msg := FieldMessage(validators, ruleMap, fieldValues, order[0]);
      forall r | r in results ensures r.fieldName == order[0] && msg == Some(r.message) {
        ResultsOfMembership(validators, ruleMap, fieldValues, keys, r);
      }
      if msg.Some? {
        ResultsOfMembership(validators, ruleMap, fieldValues, keys, ValidateResult(order[0], msg.value));
        assert results == {ValidateResult(order[0], msg.value)};
      } else {
        assert results == {};
      }
    }
  }

  /** In full mode every key of the field values is examined: the failure set
      holds exactly one record per failing field, so it does not depend on the
      iteration order. */
  lemma FullModeExaminesAllFields(validators: map<string, Validator>, policy: Policy, ruleMap: RuleMap,
                                  fieldValues: map<string, Value>, order: seq<string>, r: ValidateResult)
    requires policy.fullMode && IsIterationOrder(order, fieldValues)
    ensures r in Executed(validators, policy, ruleMap, fieldValues, order)
            <==> r.fieldName in fieldValues && FieldMessage(validators, ruleMap, fieldValues, r.fieldName) == Some(r.message)
  {
    ResultsOfMembership(validators, ruleMap, fieldValues, order, r);
  }

  /** In full mode two iteration orders of the same keys give the same set. */
  lemma FullModeOrderIrrelevant(validators: map<string, Validator>, policy: Policy, ruleMap: RuleMap,
                                fieldValues: map<string, Value>, order1: seq<string>, order2: seq<string>)
    requires policy.fullMode
    requires IsIterationOrder(order1, fieldValues) && IsIterationOrder(order2, fieldValues)
    ensures Executed(validators, policy, ruleMap, fieldValues, order1)
            == Executed(validators, policy, ruleMap, fieldValues, order2)
  {
    forall r ensures r in Executed(validators, policy, ruleMap, fieldValues, order1)
                     <==> r in Executed(validators, policy, ruleMap, fieldValues, order2) {
      FullModeExaminesAllFields(validators, policy, ruleMap, fieldValues, order1, r);
      FullModeExaminesAllFields(validators, policy, ruleMap, fieldValues, order2, r);
    }
  }

  /** The validator the source registers as "required", reduced to what the
      example below needs: it fails a field whose value is null. */
  function RequiredExample(): Validator
  {
    Validator("required", (c: Context) => if c.FieldValue().Null? then Some("required") else None)
  }

  /** As written, outside full mode a failing field goes unreported when a
      passing field comes first: the result is empty, so the request reads as
      valid although field "b" fails its rule. */
  lemma NotFullModeMissesLaterFailure()
    ensures var validators := map["required" := RequiredExample()];
            var ruleMap := map["a" := [Rule("required", [], "")], "b" := [Rule("required", [], "")]];
            var fieldValues := map["a" := Text("x"), "b" := Null];
            && IsIterationOrder(["a", "b"], fieldValues)
            && FieldMessage(validators, ruleMap, fieldValues, "b") == Some("required")
            && Executed(validators, Policy(false), ruleMap, fieldValues, ["a", "b"]) == {}
  {
    var validators := map["required" := RequiredExample()];
    var rule := Rule("required", [], "");
    var ruleMap := map["a" := [rule], "b" := [rule]];
    var fieldValues := map["a" := Text("x"), "b" := Null];
    assert RuleOutcome(validators, fieldValues, "b", rule) == Some("required");
    assert "required"[0] == 'r' && !IsWhitespace('r');
    assert Fails(validators, fieldValues, "b", rule);
    assert !Fails(validators, fieldValues, "a", rule);
    FirstFailureIs(validators, fieldValues, "b", [rule], 0);
    assert Examined(Policy(false), ["a", "b"]) == ["a"];
    assert ["a"][..0] == [];
  }

  /** The walk the stop-at-first-error mode evidently intends: fields in
      iteration order until the first one that fails. */
  function StopAtFirstFailure(validators: map<string, Validator>, ruleMap: RuleMap,
                              fieldValues: map<string, Value>, keys: seq<string>): set<ValidateResult>
  {
    if keys == [] then {}
    else
      match FieldMessage(validators, ruleMap, fieldValues, keys[0])
      case Some(m) => {ValidateResult(keys[0], m)}
      case None => StopAtFirstFailure(validators, ruleMap, fieldValues, keys[1..])
  }

  /** The failure set with the mode check moved into the failure branch:
      every failing field in full mode, the first failing one otherwise. */
  function ExecutedIntended(validators: map<string, Validator>, policy: Policy, ruleMap: RuleMap,
                            fieldValues: map<string, Value>, order: seq<string>): set<ValidateResult>
  {
    if policy.fullMode then ResultsOf(validators, ruleMap, fieldValues, order)
    else StopAtFirstFailure(validators, ruleMap, fieldValues, order)
  }

  /** The stop-at-first-error walk reports at most one record, a true failure,
      and reports nothing only when every field passes. */
  lemma {:induction false} StopAtFirstFailureReports(validators: map<string, Validator>, ruleMap: RuleMap,
                                                     fieldValues: map<string, Value>, keys: seq<string>)
    ensures |StopAtFirstFailure(validators, ruleMap, fieldValues, keys)| <= 1
    ensures forall r :: r in StopAtFirstFailure(validators, ruleMap, fieldValues, keys)
              ==> r.fieldName in keys && FieldMessage(validators, ruleMap, fieldValues, r.fieldName) == Some(r.message)
    ensures StopAtFirstFailure(validators, ruleMap, fieldValues, keys) == {}
            <==> forall i :: 0 <= i < |keys| ==> FieldMessage(validators, ruleMap, fieldValues, keys[i]).None?
  {
    if keys != [] {
      StopAtFirstFailureReports(validators, ruleMap, fieldValues, keys[1..]);
      assert forall i :: 1 <= i < |keys| ==> keys[i] == keys[1..][i - 1];
    }
  }

  /** With the mode check in the failure branch, a request is reported valid
      (empty set) exactly when every field passes, in either mode. */
  lemma IntendedEmptyIffAllPass(validators: map<string, Validator>, policy: Policy, ruleMap: RuleMap,
                                fieldValues: map<string, Value>, order: seq<string>)
    requires IsIterationOrder(order, fieldValues)
    ensures ExecutedIntended(validators, policy, ruleMap, fieldValues, order) == {}
            <==> forall k :: k in fieldValues ==> FieldMessage(validators, ruleMap, fieldValues, k).None?
  {
    if policy.fullMode {
      if exists k :: k in fieldValues && FieldMessage(validators, ruleMap, fieldValues, k).Some? {
        var k :| k in fieldValues && FieldMessage(validators, ruleMap, fieldValues, k).Some?;
        FullModeExaminesAllFields(validators, policy, ruleMap, fieldValues, order,
                                  ValidateResult(k, FieldMessage(validators, ruleMap, fieldValues, k).value));
      }
      forall r | r in ExecutedIntended(validators, policy, ruleMap, fieldValues, order)
        ensures r.fieldName in fieldValues && FieldMessage(validators, ruleMap, fieldValues, r.fieldName).Some?
      {
        FullModeExaminesAllFields(validators, policy, ruleMap, fieldValues, order, r);
      }
    } else {
      StopAtFirstFailureReports(validators, ruleMap, fieldValues, order);
      if exists k :: k in fieldValues && FieldMessage(validators, ruleMap, fieldValues, k).Some? {
        var k :| k in fieldValues && FieldMessage(validators, ruleMap, fieldValues, k).Some?;
        assert k in order;
      }
    }
  }
}
