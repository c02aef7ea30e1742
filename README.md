# Validation engine of ymateplatform, modelled in Dafny

This project models the declarative validation engine of ymateplatform, the class
`net.ymate.platform.validation.Validates`. The engine has three parts:

- **Validator registry** (`registry.dfy`, module `ValidatorRegistry`). This is the
  process-wide map from validator name to validator instance. `registerValidatorClass`
  instantiates a validator class and stores the instance under its own `getName()`. The
  class initialiser registers the seven built-in validators this way. The model is a
  class `Registry` whose `validators` field is a `map`.
- **Rule resolver** (`resolver.dfy`, module `RuleResolver`). These are the two
  `loadValidateRule` overloads. They read the `@Validation` policy and build the flat
  map from field name to `@ValidateRule` array. One works over a class's `@Validate`
  fields, the other over a method's `@Validate` parameters. Both recurse into "model"
  types and merge the nested maps flat with `putAll`. Reflection is replaced by finite
  descriptor datatypes (`Shape`, `Field`, `MethodShape`, `Parameter`). The two loader
  methods are proved equal to the specification functions `ClassRules` and
  `MethodRules`, and lemmas state what those maps contain.
- **Execution engine** (`engine.dfy`, module `ExecutionEngine`). This is `execute`. It
  visits the keys of the field-value map in iteration order and runs each field's rules
  in declared order. It skips rules whose validator is not registered, records the first
  non-blank answer and stops that field's chain there. When `fullMode` is false it stops
  after the first field. The method `Execute` is proved equal to the specification
  function `Executed`, and lemmas state its properties.

`types.dfy` (module `ValidationTypes`) holds the shared values: rules, the policy, field
values, the per-invocation validation context, validators, failure records, and
Apache Commons' `isBlank`/`defaultIfEmpty`.

Three behaviours of the code are easy to misread; the model follows the code:

- In the class overload, a model field is recursed into only when its own rule list is
  **non-empty**. A model field without rules is stored as a leaf with an empty rule
  array, and `execute` then never checks it.
- In the method overload, a model parameter always recurses, whatever its rule list.
- With `fullMode` false, `execute` stops after the first field it examines, whether or
  not that field failed. This is logged under "## Findings".

A validator is modelled as a name plus a total function from a context to an optional
string, where None stands for a `null` return. `HashMap` iteration order is an explicit
parameter: a sequence listing each key exactly once.

## Model

| member | source | states |
|---|---|---|
| `ValidatorRegistry.Registry.constructor` | ymateplatform/src/main/java/net/ymate/platform/validation/Validates.java:81 | The registry starts as an empty map. |
| `ValidatorRegistry.Registry.RegisterValidatorClass` | ymateplatform/src/main/java/net/ymate/platform/validation/Validates.java:96-105 | On successful instantiation the map binds the instance's own name to it, replacing any earlier entry, and every other entry is unchanged. On failure a `ValidationException` carrying the cause is returned and the map is exactly as before. |
| `ValidatorRegistry.Registry.RegisterAll` | ymateplatform/src/main/java/net/ymate/platform/validation/Validates.java:82-88 | Registering classes one after another gives the map and outcome of `RegisteredAll`: in order, stopping at the first exception. |
| `ValidatorRegistry.CreateDefault` | ymateplatform/src/main/java/net/ymate/platform/validation/Validates.java:80-89 | The class initialiser registers the built-in classes in order into an empty map. If all instantiate, it yields a fresh registry holding exactly that map. If one fails, its exception is the outcome and no registry is yielded (null), as a class whose initialiser throws is never usable. |
| `ValidatorRegistry.LastRegistrationWins` | ymateplatform/src/main/java/net/ymate/platform/validation/Validates.java:96-101 | When every class instantiates, registration succeeds. A name ends up bound to the instance of the last class carrying it, so re-registering a name replaces it. |
| `ValidatorRegistry.UnnamedKeepsBinding` | ymateplatform/src/main/java/net/ymate/platform/validation/Validates.java:101 | A name that no registered instance carries keeps its old binding, or stays absent. |
| `ValidatorRegistry.RegistrationKeepsOwnNames` | ymateplatform/src/main/java/net/ymate/platform/validation/Validates.java:96-104 | Each instance is stored under its own `getName()`: if every entry of the map is keyed by its validator's own name before registering, that still holds afterwards, whether every class registers or one fails. |
| `ValidatorRegistry.FailedRegistrationStops` | ymateplatform/src/main/java/net/ymate/platform/validation/Validates.java:100-104 | A class that fails to instantiate ends registration with its cause. The map holds exactly what the earlier classes put there. |
| `RuleResolver.MergeLastWins` | ymateplatform/src/main/java/net/ymate/platform/validation/Validates.java:115-126 | Successive `put`/`putAll` into a fresh map: a key is present iff some step puts it, and it holds the value of the last such step. |
| `RuleResolver.LoadClassRules` | ymateplatform/src/main/java/net/ymate/platform/validation/Validates.java:111-129 | Returns the class's `@Validation` policy. The map is absent exactly when that policy is absent, and otherwise equals `ClassRules`. |
| `RuleResolver.NoAnnotatedFieldsEmptyMap` | ymateplatform/src/main/java/net/ymate/platform/validation/Validates.java:113-128 | With `@Validation` but no `@Validate` field, the map is empty, not absent. |
| `RuleResolver.ClassKeyOrigin` | ymateplatform/src/main/java/net/ymate/platform/validation/Validates.java:115-126 | A key of the class map is exactly a key that some annotated field contributes. |
| `RuleResolver.LeafFieldRule` | ymateplatform/src/main/java/net/ymate/platform/validation/Validates.java:118-124 | A non-model field, or a model field with an empty rule list, is keyed by its non-empty custom name, else its Java name. It maps to its own rule array unless a later field puts the same key. |
| `RuleResolver.ModelFieldFlattens` | ymateplatform/src/main/java/net/ymate/platform/validation/Validates.java:118-122 | A model field with rules puts its nested type's entries in under their own unqualified names, unless a later field overwrites them. |
| `RuleResolver.FirstValidate` | ymateplatform/src/main/java/net/ymate/platform/validation/Validates.java:144-156 | The chosen annotation is the first `@Validate` among a parameter's annotations. It is None exactly when the parameter has none. |
| `RuleResolver.LoadMethodRules` | ymateplatform/src/main/java/net/ymate/platform/validation/Validates.java:136-161 | Returns the method's `@Validation` policy. The map is absent exactly when that policy is absent, and otherwise equals `MethodRules`. |
| `RuleResolver.MethodKeyOrigin` | ymateplatform/src/main/java/net/ymate/platform/validation/Validates.java:140-158 | A key of the method map is exactly a key that some parameter contributes. |
| `RuleResolver.LeafParamRule` | ymateplatform/src/main/java/net/ymate/platform/validation/Validates.java:152-154 | A parameter whose first `@Validate` is not a model is keyed by its custom name, else `fieldNames[idx]`, and maps to that rule array unless a later parameter puts the same key. |
| `RuleResolver.ModelParamFlattens` | ymateplatform/src/main/java/net/ymate/platform/validation/Validates.java:147-151 | A model parameter merges its declared type's entries, whatever its own rule list holds. |
| `ExecutionEngine.FirstFailure` | ymateplatform/src/main/java/net/ymate/platform/validation/Validates.java:174-205 | Returns the index of the first rule whose validator is registered and answers non-blank. Every earlier rule passes. It is None iff every rule passes. |
| `ExecutionEngine.Execute` | ymateplatform/src/main/java/net/ymate/platform/validation/Validates.java:169-213 | The nested loops with their two `break`s return exactly `Executed`: the failure records of the examined fields. |
| `ExecutionEngine.FirstFailingRuleWins` | ymateplatform/src/main/java/net/ymate/platform/validation/Validates.java:201-204 | The first failing rule's answer is the field's message. Replacing every later rule changes nothing, so later rules are never consulted. |
| `ExecutionEngine.FieldMessageCases` | ymateplatform/src/main/java/net/ymate/platform/validation/Validates.java:172-205 | A field has no message iff it has no rules or every rule passes (unregistered or blank). Any message is non-blank and comes from a non-empty rule array. |
| `ExecutionEngine.UnregisteredRuleIsSkipped` | ymateplatform/src/main/java/net/ymate/platform/validation/Validates.java:175-176 | Prefixing a rule whose validator is unregistered does not change the field's message. |
| `ExecutionEngine.ResultsOfMembership` | ymateplatform/src/main/java/net/ymate/platform/validation/Validates.java:171-207 | A record is produced iff its field was examined and its message is that field's first failing answer. |
| `ExecutionEngine.ExecutedWellFormed` | ymateplatform/src/main/java/net/ymate/platform/validation/Validates.java:171-203 | Every record names a key of the field values with a present, non-empty rule array and a non-blank message, and no field has two records. |
| `ExecutionEngine.NotFullModeExaminesFirstField` | ymateplatform/src/main/java/net/ymate/platform/validation/Validates.java:208-210 | With `fullMode` false only the first key in iteration order is examined: the result is exactly that key's record when it fails, and empty when it passes or there are no keys. |
| `ExecutionEngine.FullModeExaminesAllFields` | ymateplatform/src/main/java/net/ymate/platform/validation/Validates.java:171-211 | With `fullMode` true the result holds exactly one record for each failing key of the field values. |
| `ExecutionEngine.FullModeOrderIrrelevant` | ymateplatform/src/main/java/net/ymate/platform/validation/Validates.java:171 | With `fullMode` true, any two iteration orders of the keys give the same result. |
| `ExecutionEngine.NotFullModeMissesLaterFailure` | ymateplatform/src/main/java/net/ymate/platform/validation/Validates.java:208-210 | Counterexample: with `fullMode` false, a passing first field hides a failing second field, and the result is empty. |
| `ExecutionEngine.StopAtFirstFailureReports` | ymateplatform/src/main/java/net/ymate/platform/validation/Validates.java:201-210 | The corrected stop-at-first-failure walk reports at most one true failure. It reports nothing only if every field passes. |
| `ExecutionEngine.IntendedEmptyIffAllPass` | ymateplatform/src/main/java/net/ymate/platform/validation/Validates.java:201-210 | With the mode check moved into the failure branch, the result is empty iff every field passes, in either mode. |
| `ValidationTypes.DefaultIfEmpty` | ymateplatform/src/main/java/net/ymate/platform/validation/Validates.java:124 | The key is the custom name unless that name is empty, in which case it is the fallback name. |

## Left out

- Logging and I18N message formatting (`Validates.java` lines 99 and 200). They do not affect any result.
- Reflection (`getAnnotation`, `ClassUtils.getFieldAnnotations`, `getParameterAnnotations`, `newInstance`). It is replaced by descriptor datatypes and by a per-class instantiation outcome. `ClassUtils` is not part of this model: the fields of a `Shape` are taken in the order given, and fields without `@Validate` are skipped.
- Self-referential model types. A `Shape` is a finite tree, so resolution always terminates. In the source, a model type that contains itself would recurse until the stack overflows.
- The built-in validators (required, regex, email, length, date, numeric, compare). Their sources are not part of this model, so they are opaque `Validator` values. `RequiredExample` is only a stand-in used by the counterexample lemma.
- A `getName()` that throws. Only a failing `newInstance()` is modelled. `RuntimeUtils.unwrapThrow` is taken to yield the cause, which is carried as a string.
- Thread safety of the static `HashMap`. It is a concurrency concern, not a sequential one.
- Java `null` rule arrays, custom names and `fieldNames` entries. Annotation members are never null, so strings and sequences here are always present.
- Java `char` is a UTF-16 code unit, while Dafny's `char` is a Unicode scalar value. `IsWhitespace` follows `Character.isWhitespace` as of the Unicode tables of Java 6 and 7, which include U+180E.
- `ValidateResult`'s `equals`/`hashCode` are not part of this model. The result set is a set of (field, message) values.
- RuleResolver.LoadMethodRules: requires at least as many `fieldNames` as parameters. The source fails with an index error only when it reaches a non-model `@Validate` parameter whose index has no name, and that error is not modelled.
- ValidatorRegistry.CreateDefault: in the source a failing built-in makes the static initialiser throw, which surfaces as `ExceptionInInitializerError` and makes every later use of `Validates` fail with `NoClassDefFoundError`. The model returns the exception as the outcome with a null registry instead, and does not model those later failures.
- ExecutionEngine.Execute: validators are total functions. A `validate` call that throws inside `execute` has no catch, so it aborts `execute` and discards the results gathered so far; that path is not modelled.
- ExecutionEngine.Execute: the `HashMap` key order is an explicit parameter that lists each key once. No particular order is assumed.
- The JDBC repository façade and the Log4J logger of the repository. They are resource plumbing and I/O around collaborators outside the engine.

## Findings

| source | as written | input that shows it | evidently intended | confidence | as-written member | corrected member |
|---|---|---|---|---|---|---|
| ymateplatform/src/main/java/net/ymate/platform/validation/Validates.java:208-210 | The `fullMode` test sits after the rule loop, outside the failure branch. With `fullMode` false, the field loop therefore ends after the first key whether or not that key failed. | `fullMode` false; keys iterated as "a", "b"; both carry a `required` rule; "a" is `"x"` and "b" is null. The result is empty although "b" fails. | Stop after the first field that FAILS. As written, with `fullMode` false, which single field gets checked depends on `HashMap` iteration order, which callers do not control, so the same invalid request is accepted or rejected depending on how its keys hash. With the check inside the failure branch, in either mode the result is empty only when every field passes (`ExecutedIntended`). | medium (not executed) | `ExecutionEngine.NotFullModeMissesLaterFailure` | `ExecutionEngine.IntendedEmptyIffAllPass` |

`Execute` keeps the behaviour as written. `ExecutedIntended` and `StopAtFirstFailure` define the corrected behaviour.
