/** The process-wide validator registry: validator name to validator instance,
    filled by registering validator classes. */
module ValidatorRegistry {
  import opened ValidationTypes

  /** The exception a failed registration throws, wrapping the (unwrapped)
      cause of the failed instantiation. */
  datatype ValidationException = ValidationException(cause: string)

  /** A validator class as registration sees it: what `newInstance()` gives,
      either an instance or the exception it throws. */
  datatype ValidatorClass = ValidatorClass(className: string, newInstance: Result<Validator, string>)

  /** The registry map after registering `cls` into `m`, or the exception. */
  function Registered(m: map<string, Validator>, cls: ValidatorClass): Result<map<string, Validator>, ValidationException>
  {
    match cls.newInstance
    case Success(v) => Success(m[v.name := v])
    case Failure(cause) => Failure(ValidationException(cause))
  }

  /** Registering `classes` in order from `m`, stopping at the first class that
      cannot be instantiated: the resulting map and whether all succeeded. */
  function RegisteredAll(m: map<string, Validator>, classes: seq<ValidatorClass>): (map<string, Validator>, Outcome<ValidationException>)
    decreases |classes|
  {
    if classes == [] then (m, Pass)
    else
      match Registered(m, classes[0])
      case Failure(e) => (m, Fail(e))
      case Success(m') => RegisteredAll(m', classes[1..])
  }

  /** The instance name of class `i`, for a class that instantiates. */
  function InstanceName(classes: seq<ValidatorClass>, i: nat): string
    requires i < |classes| && classes[i].newInstance.Success?
  {
    classes[i].newInstance.value.name
  }

  /** When every class instantiates, registration succeeds, and a name that no
      class's instance carries keeps its old binding (or stays absent). */
  lemma {:induction false} UnnamedKeepsBinding(m: map<string, Validator>, classes: seq<ValidatorClass>, name: string)
    requires forall i :: 0 <= i < |classes| ==> classes[i].newInstance.Success?
    requires forall i :: 0 <= i < |classes| ==> InstanceName(classes, i) != name
    ensures RegisteredAll(m, classes).1 == Pass
    ensures name in RegisteredAll(m, classes).0 <==> name in m
    ensures name in m ==> RegisteredAll(m, classes).0[name] == m[name]
    decreases |classes|
  {
    if classes != [] {
      var v := classes[0].newInstance.value;
      assert InstanceName(classes, 0) == v.name;
      forall j | 0 <= j < |classes[1..]| ensures classes[1..][j].newInstance.Success? && InstanceName(classes[1..], j) != name {
        assert classes[1..][j] == classes[j + 1];
        assert InstanceName(classes, j + 1) != name;
      }
      UnnamedKeepsBinding(m[v.name := v], classes[1..], name);
    }
  }

  /** When every class instantiates, the name carried by class `i`, where no
      later class carries it, ends up bound to class `i`'s instance: a later
      registration under an existing name replaces the earlier one. */
  lemma {:induction false} LastRegistrationWins(m: map<string, Validator>, classes: seq<ValidatorClass>, i: nat)
    requires forall j :: 0 <= j < |classes| ==> classes[j].newInstance.Success?
    requires i < |classes|
    requires forall j :: i < j < |classes| ==> InstanceName(classes, j) != InstanceName(classes, i)
    ensures RegisteredAll(m, classes).1 == Pass
    ensures InstanceName(classes, i) in RegisteredAll(m, classes).0
    ensures RegisteredAll(m, classes).0[InstanceName(classes, i)] == classes[i].newInstance.value
    decreases |classes|
  {
    var v := classes[0].newInstance.value;
    var rest := classes[1..];
    forall j | 0 <= j < |rest| ensures rest[j].newInstance.Success? {
      assert rest[j] == classes[j + 1];
    }
    if i == 0 {
      forall j | 0 <= j < |rest| ensures InstanceName(rest, j) != v.name {
        assert rest[j] == classes[j + 1];
        assert InstanceName(classes, j + 1) != InstanceName(classes, 0);
      }
      UnnamedKeepsBinding(m[v.name := v], rest, v.name);
    } else {
      assert rest[i - 1] == classes[i];
      forall j | i - 1 < j < |rest| ensures InstanceName(rest, j) != InstanceName(rest, i - 1) {
        assert rest[j] == classes[j + 1];
        assert InstanceName(classes, j + 1) != InstanceName(classes, i);
      }
      LastRegistrationWins(m[v.name := v], rest, i - 1);
    }
  }

  /** Every entry of `m` is stored under its own validator's name. */
  ghost predicate KeyedByOwnName(m: map<string, Validator>)
  {
    forall k :: k in m ==> m[k].name == k
  }

  /** Registration stores each instance under its own `getName()`, so a
      registry keyed by its validators' own names stays so, whether every
      class registers or one fails part way. */
  lemma {:induction false} RegistrationKeepsOwnNames(m: map<string, Validator>, classes: seq<ValidatorClass>)
    requires KeyedByOwnName(m)
    ensures KeyedByOwnName(RegisteredAll(m, classes).0)
    decreases |classes|
  {
    if classes != [] && classes[0].newInstance.Success? {
      var v := classes[0].newInstance.value;
      assert KeyedByOwnName(m[v.name := v]);
      RegistrationKeepsOwnNames(m[v.name := v], classes[1..]);
    }
  }

  /** A class that fails to instantiate ends the registration with its
      exception, and the registry keeps exactly what the classes before it put
      there: the failing class and every later one leave no trace. */
  lemma {:induction false} FailedRegistrationStops(m: map<string, Validator>, classes: seq<ValidatorClass>, k: nat)
    requires k < |classes| && classes[k].newInstance.Failure?
    requires forall i :: 0 <= i < k ==> classes[i].newInstance.Success?
    ensures RegisteredAll(m, classes)
            == (RegisteredAll(m, classes[..k]).0, Fail(ValidationException(classes[k].newInstance.error)))
    decreases k
  {
    if k > 0 {
      var v := classes[0].newInstance.value;
      FailedRegistrationStops(m[v.name := v], classes[1..], k - 1);
      assert classes[1..][..k - 1] == classes[..k][1..];
    }
  }

  /** The registry: `validators` is the map from validator name to instance. */
  class Registry {
    var validators: map<string, Validator>

    /** An empty registry, before any built-in validator is registered. */
    constructor ()
      ensures validators == map[]
    {
      validators := map[];
    }

    /** Instantiates `cls` and binds the instance under its own name,
        replacing any validator of that name; a failed instantiation throws
        and leaves the registry as it was. */
    method RegisterValidatorClass(cls: ValidatorClass) returns (outcome: Outcome<ValidationException>)
      modifies this
      ensures cls.newInstance.Success? ==>
                outcome == Pass
                && validators == old(validators)[cls.newInstance.value.name := cls.newInstance.value]
      ensures cls.newInstance.Failure? ==>
                outcome == Fail(ValidationException(cls.newInstance.error))
                && validators == old(validators)
    {
      match cls.newInstance
      case Failure(cause) =>
        outcome := Fail(ValidationException(cause));
      case Success(instance) =>
        validators := validators[instance.name := instance];
        outcome := Pass;
    }

    /** Registers `classes` one after the other; the first exception ends the
        sequence and is passed on. */
    method RegisterAll(classes: seq<ValidatorClass>) returns (outcome: Outcome<ValidationException>)
      modifies this
      ensures (validators, outcome) == RegisteredAll(old(validators), classes)
    {
      outcome := Pass;
      var i := 0;
      while i < |classes|
        invariant 0 <= i <= |classes|
        invariant outcome == Pass
        invariant RegisteredAll(validators, classes[i..]) == RegisteredAll(old(validators), classes)
      {
        assert classes[i..][1..] == classes[i + 1..];
        outcome := RegisterValidatorClass(classes[i]);
        if outcome.Fail? {
          return;
        }
        i := i + 1;
      }
    }
  }

  /** The class initialiser: an empty map into which the built-in validator
      classes are registered in order (in the source: required, regex, email,
      length, date, numeric and compare). An exception from a built-in escapes
      the initialiser, so the class never initialises and no registry is
      usable: the result is then null, with the exception as the outcome. */
  method CreateDefault(builtins: seq<ValidatorClass>) returns (registry: Registry?, outcome: Outcome<ValidationException>)
    ensures outcome == RegisteredAll(map[], builtins).1
    ensures outcome.Pass? ==> registry != null && fresh(registry)
                              && registry.validators == RegisteredAll(map[], builtins).0
    ensures outcome.Fail? ==> registry == null
  {
    var created := new Registry();
    outcome := created.RegisterAll(builtins);
    registry := if outcome.Pass? then created else null;
  }
}
