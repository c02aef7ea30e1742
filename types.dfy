/** Values shared by the validator registry, the rule resolver and the
    execution engine: rule descriptors, the validation policy, field values,
    the per-invocation validation context, validators and failure records. */
module ValidationTypes {

  datatype Option<+T> = None | Some(value: T) {
    /** The wrapped value, or `default` for None. */
    function GetOr(default: T): T {
      match this
      case Some(v) => v
      case None => default
    }
  }

  datatype Result<+T, +E> = Success(value: T) | Failure(error: E)

  datatype Outcome<+E> = Pass | Fail(error: E)

  /** A field value as the engine passes it around: a Java `null`, a string,
      or any other object, which the engine never inspects. */
  datatype Value = Null | Text(text: string) | Object(token: int)

  /** One `@ValidateRule`: the registered name of the validator it invokes
      (`value()`), the validator-specific `params()` and the custom `message()`. */
  datatype Rule = Rule(validatorName: string, params: seq<string>, message: string)

  /** The `@Validation` annotation of a class or method; the engine reads only
      `fullMode()`: collect every field's failure, or stop early. */
  datatype Policy = Policy(fullMode: bool)

  /** Field name to its ordered rule array (`Map<String, ValidateRule[]>`). */
  type RuleMap = map<string, seq<Rule>>

  /** The context handed to one validator invocation: the field under test,
      the rule being applied and a view of every field value of the request. */
  datatype Context = Context(fieldName: string, rule: Rule, fieldValues: map<string, Value>) {
    /** The value of any named field; a missing key reads as `null`, as `Map.get` does. */
    function ValueOf(name: string): Value
    {
      if name in fieldValues then fieldValues[name] else Null
    }

    function FieldValue(): Value { ValueOf(fieldName) }

    function Params(): seq<string> { rule.params }

    function Message(): string { rule.message }
  }

  /** A validator instance: the name it reports through `getName()` and its
      `validate` operation, where None stands for a `null` return. */
  datatype Validator = Validator(name: string, validate: Context -> Option<string>)

  /** A failure record: the field and the message of its first failing rule. */
  datatype ValidateResult = ValidateResult(fieldName: string, message: string)

  /** Java's `Character.isWhitespace`: the space, line and paragraph separators
      other than the non-breaking ones, plus the ASCII controls TAB, LF, VT, FF,
      CR and the file, group, record and unit separators. */
  predicate IsWhitespace(c: char) {
    || '\t' <= c <= '\r'
    || '\U{1C}' <= c <= ' '
    || c == '\U{1680}' || c == '\U{180E}'
    || ('\U{2000}' <= c <= '\U{200A}' && c != '\U{2007}')
    || c == '\U{2028}' || c == '\U{2029}' || c == '\U{205F}' || c == '\U{3000}'
  }

  /** Apache Commons `StringUtils.isBlank`: null, empty, or whitespace only. */
  predicate IsBlank(s: Option<string>) {
    s.None? || forall i :: 0 <= i < |s.value| ==> IsWhitespace(s.value[i])
  }

  /** Apache Commons `StringUtils.defaultIfEmpty`. */
  function DefaultIfEmpty(s: string, default: string): (r: string)
    ensures r == s || r == default
    ensures r == default <==> s == [] || s == default
  {
    if s == [] then default else s
  }
}
