/** `validateModel` and `validateModels`: a depth-first walk over a tree of response
    models that calls every JSON-property accessor in the order of the model's property
    list and stops at the first accessor that fails. Reflection is replaced by an
    explicit list of accessors per model, each with its `nullable` flag and what
    calling it does. */
module ModelValidation {
  import opened Outcomes
  import opened FailureHandling
  import opened JavaStrings

  /** What a normally returning accessor gives back: null, a value that is not a
      model, or a nested model that is validated in turn. */
  datatype Value = Null | Leaf | Nested(model: Model)

  /** What calling an accessor does: return a value, throw (the cause wrapped in an
      `InvocationTargetException`), or be refused by reflection (`IllegalAccessException`). */
  datatype Invocation = Returns(value: Value) | Throws(cause: Throwable) | Inaccessible(message: Option<string>)

  datatype Accessor = Accessor(name: string, nullable: bool, invocation: Invocation)

  /** A model object: its fully qualified class name and its accessors in the order its property list gives them. */
  datatype Model = Model(typeName: string, accessors: seq<Accessor>)

  const NullPointerClass := "java.lang.NullPointerException"
  const IllegalAccessClass := "java.lang.IllegalAccessException"

  /** The failure for a non-nullable accessor that threw a `NullPointerException`. */
  function NonNullableMessage(m: Model, a: Accessor): string {
    "Non-nullable JsonInteraction method returned null: " + m.typeName + "." + a.name + "()"
  }

  /** The outcome of the `i`-th accessor of `m`, including the validation of a nested
      model it returns. */
  function AccessorOutcome(m: Model, i: nat): (r: Outcome)
    requires i < |m.accessors|
    decreases m, |m.accessors| - i, 0
    ensures r.Pass? ==> m.accessors[i].invocation.Returns?
    ensures m.accessors[i].invocation.Returns? && !m.accessors[i].invocation.value.Nested? ==> r == Pass
    ensures m.accessors[i].invocation.Returns? && m.accessors[i].invocation.value.Nested? ==>
              r == FromIndex(m.accessors[i].invocation.value.model, 0)
    ensures m.accessors[i].invocation.Throws? ==> r.Fail?
    ensures !r.Skip?
  {
    var a := m.accessors[i];
    match a.invocation
    case Inaccessible(message) =>
      Handle(Throwable(IllegalAccessClass, message, None))
    case Throws(cause) =>
      if cause.className == NullPointerClass && !a.nullable then
        Fail(NonNullableMessage(m, a))
      else
        Fail(cause.className + ": " + ValueOf(cause.message))
    case Returns(v) =>
      if v.Nested? then FromIndex(v.model, 0) else Pass
  }

  /** The outcome of checking the accessors of `m` from index `i` on: the first
      outcome that is not a pass, or a pass when there is none. */
  function FromIndex(m: Model, i: nat): (r: Outcome)
    requires i <= |m.accessors|
    decreases m, |m.accessors| - i, 1
    ensures i == |m.accessors| ==> r == Pass
    ensures !r.Skip?
  {
    if i == |m.accessors| then Pass
    else
      var here := AccessorOutcome(m, i);
      if here.Pass? then FromIndex(m, i + 1) else here
  }

  /** `validateModel`: a null model fails TestNG's not-null assertion; otherwise its
      accessors are checked in order. It never skips a test: a refused access is not a
      network error, so `handle` fails it, and every other failure is an `Assert.fail`. */
  function ModelOutcome(model: Option<Model>): (r: Outcome)
    ensures model.None? ==> r == Fail(NotNullMessage)
    ensures !r.Skip?
  {
    match model
    case None => Fail(NotNullMessage)
    case Some(m) => FromIndex(m, 0)
  }

  /** A model conforms when every accessor, nullable or not, returns normally and every
      nested model it returns conforms: the reference the validator is measured against. */
  ghost predicate Conforms(m: Model)
    decreases m
  {
    forall a :: a in m.accessors ==>
      a.invocation.Returns? && (a.invocation.value.Nested? ==> Conforms(a.invocation.value.model))
  }

  /** The outcome of the `validateModels` loop: the models are validated in iteration
      order and the first one that does not pass ends the batch with its outcome. */
  function BatchOutcome(models: seq<Option<Model>>): (r: Outcome)
    ensures models == [] ==> r == Pass
    ensures r != Pass ==> exists i :: 0 <= i < |models| && r == ModelOutcome(models[i])
    ensures !r.Skip?
  {
    if models == [] then Pass
    else
      var first := ModelOutcome(models[0]);
      if first.Pass? then
        assert forall i :: 0 <= i < |models| - 1 ==> models[1..][i] == models[i + 1];
        BatchOutcome(models[1..])
      else first
  }

  // ---------------------------------------------------------------------------
  // Properties of the validator

  /** An accessor passes exactly when it returns normally and whatever model it
      returns conforms. */
  lemma {:induction false} AccessorPassIff(m: Model, i: nat)
    requires i < |m.accessors|
    decreases m, |m.accessors| - i, 0
    ensures AccessorOutcome(m, i) == Pass <==>
              m.accessors[i].invocation.Returns? &&
              (m.accessors[i].invocation.value.Nested? ==> Conforms(m.accessors[i].invocation.value.model))
  {
    var inv := m.accessors[i].invocation;
    if inv.Returns? && inv.value.Nested? {
      ModelPassIffConforms(inv.value.model);
    }
  }

  /** The loop from index `i` passes exactly when every accessor from `i` on passes. */
  lemma FromIndexPassIff(m: Model, i: nat)
    requires i <= |m.accessors|
    ensures FromIndex(m, i) == Pass ==> forall j :: i <= j < |m.accessors| ==> AccessorOutcome(m, j) == Pass
    ensures (forall j :: i <= j < |m.accessors| ==> AccessorOutcome(m, j) == Pass) ==> FromIndex(m, i) == Pass
  {
    var n := |m.accessors|;
    if FromIndex(m, i) == Pass {
      var k := i;
      while k < n
        invariant i <= k <= n
        invariant FromIndex(m, k) == Pass
        invariant forall j :: i <= j < k ==> AccessorOutcome(m, j) == Pass
      {
        assert AccessorOutcome(m, k) == Pass;
        k := k + 1;
      }
    }
    if forall j :: i <= j < n ==> AccessorOutcome(m, j) == Pass {
      var k := n;
      while k > i
        invariant i <= k <= n
        invariant FromIndex(m, k) == Pass
      {
        k := k - 1;
        assert AccessorOutcome(m, k) == Pass;
      }
    }
  }

  /** A model passes validation exactly when it conforms: every accessor returns
      normally and every nested model conforms. The `nullable` flag never decides
      between pass and fail; a null return always passes and a thrown
      `NullPointerException` always fails, nullable or not. */
  lemma {:induction false} ModelPassIffConforms(m: Model)
    decreases m, |m.accessors| + 1, 2
    ensures FromIndex(m, 0) == Pass <==> Conforms(m)
  {
    FromIndexPassIff(m, 0);
    forall j | 0 <= j < |m.accessors|
      ensures AccessorOutcome(m, j) == Pass <==>
                m.accessors[j].invocation.Returns? &&
                (m.accessors[j].invocation.value.Nested? ==> Conforms(m.accessors[j].invocation.value.model))
    {
      AccessorPassIff(m, j);
    }
    if FromIndex(m, 0) == Pass {
      forall a | a in m.accessors
        ensures a.invocation.Returns? && (a.invocation.value.Nested? ==> Conforms(a.invocation.value.model))
      {
        var j :| 0 <= j < |m.accessors| && m.accessors[j] == a;
        assert AccessorOutcome(m, j) == Pass;
      }
    }
  }

  /** The accessors are checked in order and the first failure wins: when the loop
      starts at `start`, every accessor from `start` up to `i` passes and accessor `i`
      does not, the loop's outcome is accessor `i`'s. From `start == 0` this is the
      outcome of the whole model. */
  lemma FirstFailureWins(m: Model, start: nat, i: nat)
    requires start <= i < |m.accessors|
    requires forall j :: start <= j < i ==> AccessorOutcome(m, j) == Pass
    requires AccessorOutcome(m, i) != Pass
    ensures FromIndex(m, start) == AccessorOutcome(m, i)
    ensures start == 0 ==> ModelOutcome(Some(m)) == AccessorOutcome(m, i)
  {
    var k := i;
    while k > start
      invariant start <= k <= i
      invariant FromIndex(m, k) == AccessorOutcome(m, i)
    {
      k := k - 1;
      assert AccessorOutcome(m, k) == Pass;
      assert FromIndex(m, k) == FromIndex(m, k + 1);
    }
  }

  /** Conversely, a model that does not pass owes its outcome to one accessor, every
      accessor before which passed. */
  lemma FailureHasFirstCause(m: Model)
    requires ModelOutcome(Some(m)) != Pass
    ensures exists i :: 0 <= i < |m.accessors| && ModelOutcome(Some(m)) == AccessorOutcome(m, i) &&
                        forall j :: 0 <= j < i ==> AccessorOutcome(m, j) == Pass
  {
    var i := 0;
    while AccessorOutcome(m, i) == Pass
      invariant 0 <= i < |m.accessors|
      invariant forall j :: 0 <= j < i ==> AccessorOutcome(m, j) == Pass
      invariant FromIndex(m, i) == FromIndex(m, 0)
      decreases |m.accessors| - i
    {
      i := i + 1;
    }
  }

  /** A non-nullable accessor that throws exactly a `NullPointerException`, reached after
      every accessor before it passed, fails the model with the message naming the
      model's class and the accessor. */
  lemma NonNullableNpeFails(m: Model, i: nat)
    requires i < |m.accessors|
    requires forall j :: 0 <= j < i ==> AccessorOutcome(m, j) == Pass
    requires m.accessors[i].invocation.Throws?
    requires m.accessors[i].invocation.cause.className == NullPointerClass
    requires !m.accessors[i].nullable
    ensures ModelOutcome(Some(m))
            == Fail("Non-nullable JsonInteraction method returned null: "
                    + m.typeName + "." + m.accessors[i].name + "()")
  {
    FirstFailureWins(m, 0, i);
  }

  /** Any other thrown cause (another class, or a `NullPointerException` from a nullable
      accessor), reached after every accessor before it passed, fails the model with
      the cause's class name and message. */
  lemma ThrownCauseFails(m: Model, i: nat)
    requires i < |m.accessors|
    requires forall j :: 0 <= j < i ==> AccessorOutcome(m, j) == Pass
    requires m.accessors[i].invocation.Throws?
    requires m.accessors[i].invocation.cause.className != NullPointerClass || m.accessors[i].nullable
    ensures ModelOutcome(Some(m))
            == Fail(m.accessors[i].invocation.cause.className + ": "
                    + ValueOf(m.accessors[i].invocation.cause.message))
  {
    FirstFailureWins(m, 0, i);
  }

  /** An accessor that reflection refuses, reached after every accessor before it
      passed, is handed to `handle` and fails the model with the exception's message,
      or its class name when the message is null. */
  lemma RefusedAccessFails(m: Model, i: nat)
    requires i < |m.accessors|
    requires forall j :: 0 <= j < i ==> AccessorOutcome(m, j) == Pass
    requires m.accessors[i].invocation.Inaccessible?
    ensures ModelOutcome(Some(m))
            == Fail(if m.accessors[i].invocation.message.None? then IllegalAccessClass
                    else m.accessors[i].invocation.message.value)
  {
    FirstFailureWins(m, 0, i);
  }

  /** An accessor returning a nested model that does not pass, reached after every
      accessor before it passed, fails the model with the nested model's own outcome:
      a failure deep in the tree carries the message of the model where it happened. */
  lemma NestedFailureFails(m: Model, i: nat)
    requires i < |m.accessors|
    requires forall j :: 0 <= j < i ==> AccessorOutcome(m, j) == Pass
    requires m.accessors[i].invocation.Returns? && m.accessors[i].invocation.value.Nested?
    requires ModelOutcome(Some(m.accessors[i].invocation.value.model)) != Pass
    ensures ModelOutcome(Some(m)) == ModelOutcome(Some(m.accessors[i].invocation.value.model))
  {
    FirstFailureWins(m, 0, i);
  }

  /** A model whose accessor `post()` returns a nested model whose non-nullable `title()`
      throws a `NullPointerException` fails with the message naming the nested model's
      class. */
  lemma NestedTitleScenario(outerType: string, innerType: string, message: Option<string>)
    ensures ModelOutcome(Some(Model(outerType, [Accessor("post", false, Returns(Nested(
              Model(innerType, [Accessor("title", false, Throws(Throwable(NullPointerClass, message, None)))]))))])))
            == Fail("Non-nullable JsonInteraction method returned null: " + innerType + ".title()")
  {
    var inner := Model(innerType, [Accessor("title", false, Throws(Throwable(NullPointerClass, message, None)))]);
    NonNullableNpeFails(inner, 0);
    NestedFailureFails(Model(outerType, [Accessor("post", false, Returns(Nested(inner)))]), 0);
  }

  /** A model whose one accessor `title()` is not nullable and throws a
      `NullPointerException` fails with a message naming the model's class and `title`. */
  lemma NonNullableTitleScenario(typeName: string, message: Option<string>)
    ensures ModelOutcome(Some(Model(typeName, [Accessor("title", false, Throws(Throwable(NullPointerClass, message, None)))])))
            == Fail("Non-nullable JsonInteraction method returned null: " + typeName + ".title()")
  {
    NonNullableNpeFails(Model(typeName, [Accessor("title", false, Throws(Throwable(NullPointerClass, message, None)))]), 0);
  }

  /** A model whose one accessor `editedAt()` is nullable and returns null passes. */
  lemma NullableEditedAtScenario(typeName: string)
    ensures ModelOutcome(Some(Model(typeName, [Accessor("editedAt", true, Returns(Null))]))) == Pass
  {
    var m := Model(typeName, [Accessor("editedAt", true, Returns(Null))]);
    assert AccessorOutcome(m, 0) == Pass;
    assert FromIndex(m, 1) == Pass;
  }

  /** A nullable accessor that throws a `NullPointerException` still fails, with the
      cause's class and message. */
  lemma NullableNpeScenario(typeName: string, name: string, message: Option<string>)
    ensures ModelOutcome(Some(Model(typeName, [Accessor(name, true, Throws(Throwable(NullPointerClass, message, None)))])))
            == Fail(NullPointerClass + ": " + ValueOf(message))
  {
    ThrownCauseFails(Model(typeName, [Accessor(name, true, Throws(Throwable(NullPointerClass, message, None)))]), 0);
  }

  /** `validateModels` passes exactly when every model in it passes. */
  lemma {:induction false} BatchPassIff(models: seq<Option<Model>>)
    ensures BatchOutcome(models) == Pass <==> forall i :: 0 <= i < |models| ==> ModelOutcome(models[i]) == Pass
  {
    if models != [] {
      BatchPassIff(models[1..]);
      assert forall i :: 1 <= i < |models| ==> models[1..][i - 1] == models[i];
    }
  }

  /** `validateModels` stops at the first model that fails, with that model's outcome,
      and never skips. */
  lemma {:induction false} BatchFirstFailureWins(models: seq<Option<Model>>, i: nat)
    requires i < |models|
    requires forall j :: 0 <= j < i ==> ModelOutcome(models[j]) == Pass
    requires ModelOutcome(models[i]) != Pass
    ensures BatchOutcome(models) == ModelOutcome(models[i])
    ensures BatchOutcome(models).Fail?
  {
    if i > 0 {
      BatchFirstFailureWins(models[1..], i - 1);
    }
  }

  // ---------------------------------------------------------------------------
  // The validator as the source runs it: loops that leave at the first failure

  /** `validateModel`. */
  method ValidateModel(model: Option<Model>) returns (r: Outcome)
    ensures r == ModelOutcome(model)
  {
    if model.None? {
      return Fail(NotNullMessage);
    }
    r := ValidateAccessors(model.value);
  }

  /** The accessor loop of `validateModel` on a non-null model; a nested model is
      validated by a recursive call before the loop moves on. */
  method ValidateAccessors(m: Model) returns (r: Outcome)
    decreases m
    ensures r == FromIndex(m, 0)
  {
    var i := 0;
    while i < |m.accessors|
      invariant 0 <= i <= |m.accessors|
      invariant FromIndex(m, i) == FromIndex(m, 0)
    {
      var a := m.accessors[i];
      match a.invocation {
        case Inaccessible(message) =>
          return Handle(Throwable(IllegalAccessClass, message, None));
        case Throws(cause) =>
          if cause.className == NullPointerClass && !a.nullable {
            return Fail(NonNullableMessage(m, a));
          } else {
            return Fail(cause.className + ": " + ValueOf(cause.message));
          }
        case Returns(v) =>
          if v.Nested? {
            var nested := ValidateAccessors(v.model);
            if nested != Pass {
              return nested;
            }
          }
      }
      i := i + 1;
    }
    r := Pass;
  }

  /** `validateModels`: validates each model in iteration order and stops at the first
      that does not pass. */
  method ValidateModels(models: seq<Option<Model>>) returns (r: Outcome)
    ensures r == BatchOutcome(models)
  {
    var i := 0;
    while i < |models|
      invariant 0 <= i <= |models|
      invariant BatchOutcome(models[i..]) == BatchOutcome(models)
    {
      assert models[i..][1..] == models[i + 1..];
      r := ValidateModel(models[i]);
      if r != Pass {
        return r;
      }
      i := i + 1;
    }
    r := Pass;
  }
}
