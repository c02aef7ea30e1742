/** Rule resolution: from a class, or a method and its parameter names, to the
    `@Validation` policy and the flat map from field name to rule array.
    Reflection is replaced by finite descriptors of the annotated types. */
module RuleResolver {
  import opened ValidationTypes

  /** A `@Validate` annotation: the custom field `name()` ("" when not given),
      `isModel()` and the rule array `value()`. */
  datatype Validate = Validate(name: string, isModel: bool, rules: seq<Rule>)

  /** A class: its `@Validation` annotation, if any, and its declared fields in
      the order reflection lists them. */
  datatype Shape = Shape(validation: Option<Policy>, fields: seq<Field>)

  /** A declared field: its Java name, its `@Validate` annotation, if any, and
      the descriptor of its declared type. */
  datatype Field = Field(name: string, validate: Option<Validate>, fieldType: Shape)

  /** One annotation on a method parameter. */
  datatype Annotation = ValidateAnnotation(validate: Validate) | OtherAnnotation(annotationType: string)

  /** A method parameter: its annotations in order and its declared type. */
  datatype Parameter = Parameter(annotations: seq<Annotation>, paramType: Shape)

  /** A method: its `@Validation` annotation, if any, and its parameters. */
  datatype MethodShape = MethodShape(validation: Option<Policy>, params: seq<Parameter>)

  /** Puts every map of `parts` into an empty map in order, as successive
      `put`/`putAll` calls do: a later part overwrites an earlier one's key. */
  function Merge(parts: seq<RuleMap>): RuleMap
  {
    if parts == [] then map[] else Merge(parts[..|parts| - 1]) + parts[|parts| - 1]
  }

  /** A key is in the merge exactly when some part has it, and it maps to the
      value of the last part that has it. */
  lemma {:induction false} MergeLastWins(parts: seq<RuleMap>, k: string)
    ensures k in Merge(parts) <==> exists i :: 0 <= i < |parts| && k in parts[i]
    ensures forall i :: 0 <= i < |parts| && k in parts[i] && (forall j :: i < j < |parts| ==> k !in parts[j])
                     ==> k in Merge(parts) && Merge(parts)[k] == parts[i][k]
  {
    if parts != [] {
      var n := |parts| - 1;
      var init := parts[..n];
      MergeLastWins(init, k);
      assert forall i :: 0 <= i < n ==> init[i] == parts[i];
    }
  }

  /** The rule map of a class: None without `@Validation`, otherwise the merge
      of what each field contributes. */
  function ClassRules(s: Shape): Option<RuleMap>
    decreases s, 1
  {
    if s.validation.None? then None
    else Some(Merge(FieldParts(s, |s.fields|)))
  }

  /** What the first `n` fields of `s` contribute, in declaration order. */
  function FieldParts(s: Shape, n: nat): (parts: seq<RuleMap>)
    requires n <= |s.fields|
    ensures |parts| == n
    decreases s, 0, n
  {
    if n == 0 then [] else FieldParts(s, n - 1) + [FieldContribution(s, n - 1)]
  }

  /** What field `i` of `s` puts into the rule map: nothing without
      `@Validate`; the nested type's whole map for a model field that lists
      rules (nothing if that type has no `@Validation`); otherwise its own rule
      array under its custom name, or its Java name when that is empty. */
  function FieldContribution(s: Shape, i: nat): RuleMap
    requires i < |s.fields|
    decreases s, 0, 0
  {
    var f := s.fields[i];
    match f.validate
    case None => map[]
    case Some(v) =>
      if v.isModel && |v.rules| > 0 then
        ClassRules(f.fieldType).GetOr(map[])
      else
        map[DefaultIfEmpty(v.name, f.name) := v.rules]
  }

  /** Part `i` of the field parts is field `i`'s contribution. */
  lemma {:induction false} FieldPartsAt(s: Shape, n: nat, i: nat)
    requires i < n <= |s.fields|
    ensures FieldParts(s, n)[i] == FieldContribution(s, i)
    decreases n
  {
    if i < n - 1 {
      FieldPartsAt(s, n - 1, i);
    }
  }

  /** Merging one more field adds that field's contribution on top. */
  lemma FieldPartsStep(s: Shape, i: nat)
    requires i < |s.fields|
    ensures Merge(FieldParts(s, i + 1)) == Merge(FieldParts(s, i)) + FieldContribution(s, i)
  {
  }

  /** The first `@Validate` among a parameter's annotations; later ones are
      never looked at. */
  function FirstValidate(annotations: seq<Annotation>): (r: Option<Validate>)
    ensures r.None? <==> forall i :: 0 <= i < |annotations| ==> !annotations[i].ValidateAnnotation?
    ensures r.Some? ==> exists i :: 0 <= i < |annotations| && annotations[i] == ValidateAnnotation(r.value)
                                    && forall j :: 0 <= j < i ==> !annotations[j].ValidateAnnotation?
  {
    if annotations == [] then None
    else if annotations[0].ValidateAnnotation? then Some(annotations[0].validate)
    else
      var r := FirstValidate(annotations[1..]);
      assert forall i :: 1 <= i < |annotations| ==> annotations[i] == annotations[1..][i - 1];
      r
  }

  /** The rule map of a method: None without `@Validation`, otherwise the
      merge of what each parameter contributes. */
  function MethodRules(m: MethodShape, fieldNames: seq<string>): Option<RuleMap>
    requires |m.params| <= |fieldNames|
  {
    if m.validation.None? then None
    else Some(Merge(ParamParts(m, fieldNames, |m.params|)))
  }

  /** What the first `n` parameters of `m` contribute, in order. */
  function ParamParts(m: MethodShape, fieldNames: seq<string>, n: nat): (parts: seq<RuleMap>)
    requires n <= |m.params| <= |fieldNames|
    ensures |parts| == n
  {
    if n == 0 then [] else ParamParts(m, fieldNames, n - 1) + [ParamContribution(m, fieldNames, n - 1)]
  }

  /** What parameter `i` puts into the rule map, judged by its first
      `@Validate` only: nothing without one; the declared type's whole map for
      a model parameter, whatever rules it lists (nothing if that type has no
      `@Validation`); otherwise its rule array under its custom name, or under
      `fieldNames[i]` when that is empty. */
  function ParamContribution(m: MethodShape, fieldNames: seq<string>, i: nat): RuleMap
    requires i < |m.params| <= |fieldNames|
  {
    match FirstValidate(m.params[i].annotations)
    case None => map[]
    case Some(v) =>
      if v.isModel then ClassRules(m.params[i].paramType).GetOr(map[])
      else map[DefaultIfEmpty(v.name, fieldNames[i]) := v.rules]
  }

  /** Part `i` of the parameter parts is parameter `i`'s contribution. */
  lemma {:induction false} ParamPartsAt(m: MethodShape, fieldNames: seq<string>, n: nat, i: nat)
    requires i < n <= |m.params| <= |fieldNames|
    ensures ParamParts(m, fieldNames, n)[i] == ParamContribution(m, fieldNames, i)
    decreases n
  {
    if i < n - 1 {
      ParamPartsAt(m, fieldNames, n - 1, i);
    }
  }

  /** Merging one more parameter adds that parameter's contribution on top. */
  lemma ParamPartsStep(m: MethodShape, fieldNames: seq<string>, i: nat)
    requires i < |m.params| <= |fieldNames|
    ensures Merge(ParamParts(m, fieldNames, i + 1)) == Merge(ParamParts(m, fieldNames, i)) + ParamContribution(m, fieldNames, i)
  {
  }

  /** A class with `@Validation` but no `@Validate` field resolves to an
      empty rule map, not to an absent one. */
  lemma NoAnnotatedFieldsEmptyMap(s: Shape)
    requires s.validation.Some?
    requires forall i :: 0 <= i < |s.fields| ==> s.fields[i].validate.None?
    ensures ClassRules(s) == Some(map[])
  {
    var parts := FieldParts(s, |s.fields|);
    forall k ensures k !in Merge(parts) {
      MergeLastWins(parts, k);
      forall i | 0 <= i < |parts| ensures k !in parts[i] {
        FieldPartsAt(s, |s.fields|, i);
      }
    }
  }

  /** The part at index `i` decides key `k` when no later part has `k`. */
  lemma MergeAt(parts: seq<RuleMap>, i: nat, k: string)
    requires i < |parts| && k in parts[i]
    requires forall j :: i < j < |parts| ==> k !in parts[j]
    ensures k in Merge(parts) && Merge(parts)[k] == parts[i][k]
  {
  }

  /** A key of a class's rule map is exactly a key some field contributes. */
  lemma ClassKeyOrigin(s: Shape, k: string)
    requires s.validation.Some?
    ensures k in ClassRules(s).value <==> exists i :: 0 <= i < |s.fields| && k in FieldContribution(s, i)
  {
    var parts := FieldParts(s, |s.fields|);
    MergeLastWins(parts, k);
    if k in Merge(parts) {
      var i :| 0 <= i < |parts| && k in parts[i];
      FieldPartsAt(s, |s.fields|, i);
    }
    if exists i :: 0 <= i < |s.fields| && k in FieldContribution(s, i) {
      var i :| 0 <= i < |s.fields| && k in FieldContribution(s, i);
      FieldPartsAt(s, |s.fields|, i);
    }
  }

  /** No field after `i` contributes `k`, stated on the field parts. */
  lemma NoLaterFieldPart(s: Shape, i: nat, k: string)
    requires i < |s.fields|
    requires forall j :: i < j < |s.fields| ==> k !in FieldContribution(s, j)
    ensures forall j :: i < j < |s.fields| ==> k !in FieldParts(s, |s.fields|)[j]
  {
    forall j | i < j < |s.fields| ensures k !in FieldParts(s, |s.fields|)[j] {
      FieldPartsAt(s, |s.fields|, j);
    }
  }

  /** No parameter after `i` contributes `k`, stated on the parameter parts. */
  lemma NoLaterParamPart(m: MethodShape, fieldNames: seq<string>, i: nat, k: string)
    requires i < |m.params| <= |fieldNames|
    requires forall j :: i < j < |m.params| ==> k !in ParamContribution(m, fieldNames, j)
    ensures forall j :: i < j < |m.params| ==> k !in ParamParts(m, fieldNames, |m.params|)[j]
  {
    forall j | i < j < |m.params| ensures k !in ParamParts(m, fieldNames, |m.params|)[j] {
      ParamPartsAt(m, fieldNames, |m.params|, j);
    }
  }

  /** A field that is not a model, or is a model listing no rules, is keyed by
      its custom name, else its Java name, and maps to its own rule array,
      unless a later field puts the same key. */
  lemma LeafFieldRule(s: Shape, i: nat)
    requires s.validation.Some? && i < |s.fields|
    requires s.fields[i].validate.Some?
    requires !(s.fields[i].validate.value.isModel && |s.fields[i].validate.value.rules| > 0)
    requires forall j :: i < j < |s.fields|
               ==> DefaultIfEmpty(s.fields[i].validate.value.name, s.fields[i].name) !in FieldContribution(s, j)
    ensures var key := DefaultIfEmpty(s.fields[i].validate.value.name, s.fields[i].name);
            key in ClassRules(s).value && ClassRules(s).value[key] == s.fields[i].validate.value.rules
  {
    var key := DefaultIfEmpty(s.fields[i].validate.value.name, s.fields[i].name);
    FieldPartsAt(s, |s.fields|, i);
    NoLaterFieldPart(s, i, key);
    MergeAt(FieldParts(s, |s.fields|), i, key);
  }

  /** A model field that lists rules puts its type's entries in, unqualified
      by the field's own name, unless a later field puts the same key. */
  lemma ModelFieldFlattens(s: Shape, i: nat, k: string)
    requires s.validation.Some? && i < |s.fields|
    requires s.fields[i].validate.Some?
    requires s.fields[i].validate.value.isModel && |s.fields[i].validate.value.rules| > 0
    requires ClassRules(s.fields[i].fieldType).Some? && k in ClassRules(s.fields[i].fieldType).value
    requires forall j :: i < j < |s.fields| ==> k !in FieldContribution(s, j)
    ensures k in ClassRules(s).value && ClassRules(s).value[k] == ClassRules(s.fields[i].fieldType).value[k]
  {
    FieldPartsAt(s, |s.fields|, i);
    NoLaterFieldPart(s, i, k);
    MergeAt(FieldParts(s, |s.fields|), i, k);
  }

  /** A key of a method's rule map is exactly a key some parameter contributes. */
  lemma MethodKeyOrigin(m: MethodShape, fieldNames: seq<string>, k: string)
    requires m.validation.Some? && |m.params| <= |fieldNames|
    ensures k in MethodRules(m, fieldNames).value
            <==> exists i :: 0 <= i < |m.params| && k in ParamContribution(m, fieldNames, i)
  {
    var parts := ParamParts(m, fieldNames, |m.params|);
    MergeLastWins(parts, k);
    if k in Merge(parts) {
      var i :| 0 <= i < |parts| && k in parts[i];
      ParamPartsAt(m, fieldNames, |m.params|, i);
    }
    if exists i :: 0 <= i < |m.params| && k in ParamContribution(m, fieldNames, i) {
      var i :| 0 <= i < |m.params| && k in ParamContribution(m, fieldNames, i);
      ParamPartsAt(m, fieldNames, |m.params|, i);
    }
  }

  /** A parameter whose first `@Validate` is not a model is keyed by its custom
      name, else by `fieldNames[i]`, and maps to that annotation's rule array,
      unless a later parameter puts the same key. */
  lemma LeafParamRule(m: MethodShape, fieldNames: seq<string>, i: nat, v: Validate)
    requires m.validation.Some? && i < |m.params| <= |fieldNames|
    requires FirstValidate(m.params[i].annotations) == Some(v) && !v.isModel
    requires forall j :: i < j < |m.params| ==> DefaultIfEmpty(v.name, fieldNames[i]) !in ParamContribution(m, fieldNames, j)
    ensures DefaultIfEmpty(v.name, fieldNames[i]) in MethodRules(m, fieldNames).value
    ensures MethodRules(m, fieldNames).value[DefaultIfEmpty(v.name, fieldNames[i])] == v.rules
  {
    var key := DefaultIfEmpty(v.name, fieldNames[i]);
    ParamPartsAt(m, fieldNames, |m.params|, i);
    NoLaterParamPart(m, fieldNames, i, key);
    MergeAt(ParamParts(m, fieldNames, |m.params|), i, key);
  }

  /** A parameter whose first `@Validate` is a model puts its declared type's
      entries in, whatever rules that annotation lists, unless a later
      parameter puts the same key. */
  lemma ModelParamFlattens(m: MethodShape, fieldNames: seq<string>, i: nat, v: Validate, k: string)
    requires m.validation.Some? && i < |m.params| <= |fieldNames|
    requires FirstValidate(m.params[i].annotations) == Some(v) && v.isModel
    requires ClassRules(m.params[i].paramType).Some? && k in ClassRules(m.params[i].paramType).value
    requires forall j :: i < j < |m.params| ==> k !in ParamContribution(m, fieldNames, j)
    ensures k in MethodRules(m, fieldNames).value
    ensures MethodRules(m, fieldNames).value[k] == ClassRules(m.params[i].paramType).value[k]
  {
    ParamPartsAt(m, fieldNames, |m.params|, i);
    NoLaterParamPart(m, fieldNames, i, k);
    MergeAt(ParamParts(m, fieldNames, |m.params|), i, k);
  }

  /** `loadValidateRule(Class)`: walks the annotated fields, recursing into a
      model field's type only when the field lists rules of its own. */
  method LoadClassRules(s: Shape) returns (validation: Option<Policy>, rules: Option<RuleMap>)
    ensures validation == s.validation
    ensures rules.None? <==> s.validation.None?
    ensures rules == ClassRules(s)
    decreases s
  {
    validation := s.validation;
    rules := None;
    if validation.Some? {
      var acc: RuleMap := map[];
      var i := 0;
      while i < |s.fields|
        invariant 0 <= i <= |s.fields|
        invariant acc == Merge(FieldParts(s, i))
      {
        FieldPartsStep(s, i);
        var field := s.fields[i];
        if field.validate.Some? {
          var v := field.validate.value;
          if v.isModel && |v.rules| > 0 {
            var _, nested := LoadClassRules(field.fieldType);
            if nested.Some? {
              acc := acc + nested.value;
            }
          } else {
            var key := DefaultIfEmpty(v.name, field.name);
            assert acc[key := v.rules] == acc + map[key := v.rules];
            acc := acc[key := v.rules];
          }
        }
        i := i + 1;
      }
      rules := Some(acc);
    }
  }

  /** `loadValidateRule(Method, String[])`: for each parameter, the first
      `@Validate` decides; a model parameter always recurses into its type. */
  method LoadMethodRules(m: MethodShape, fieldNames: seq<string>) returns (validation: Option<Policy>, rules: Option<RuleMap>)
    requires |m.params| <= |fieldNames|
    ensures validation == m.validation
    ensures rules.None? <==> m.validation.None?
    ensures rules == MethodRules(m, fieldNames)
  {
    validation := m.validation;
    rules := None;
    if validation.Some? {
      var acc: RuleMap := map[];
      var idx := 0;
      while idx < |m.params|
        invariant 0 <= idx <= |m.params|
        invariant acc == Merge(ParamParts(m, fieldNames, idx))
      {
        ParamPartsStep(m, fieldNames, idx);
        ghost var before := acc;
        var annotations := m.params[idx].annotations;
        var j := 0;
        while j < |annotations|
          invariant 0 <= j <= |annotations|
          invariant forall q :: 0 <= q < j ==> !annotations[q].ValidateAnnotation?
          invariant acc == before
        {
          if annotations[j].ValidateAnnotation? {
            var v := annotations[j].validate;
            assert FirstValidate(annotations) == Some(v);
            if v.isModel {
              var _, nested := LoadClassRules(m.params[idx].paramType);
              if nested.Some? {
                acc := acc + nested.value;
              }
            } else {
              var key := DefaultIfEmpty(v.name, fieldNames[idx]);
              assert acc[key := v.rules] == acc + map[key := v.rules];
              acc := acc[key := v.rules];
            }
            break;
          }
          j := j + 1;
        }
        idx := idx + 1;
      }
      rules := Some(acc);
    }
  }
}
