# JRAW test base class: verdict rules and the model validator

This project models the decision logic of `RedditTest`, the base class of the JRAW
test suite (JRAW is a Java client for the reddit API). The class turns errors into
test verdicts and checks response models:

- `handle` turns a thrown error into a skip when it is a 5xx network error, and into a
  failure otherwise;
- `isRateLimit` and `handlePostingQuota` skip a test that hit reddit's rate limit or link
  posting quota, and fail it on any other API error;
- `validateRenderString` checks that a markdown/HTML pair and both its strings are non-null;
- `validateModel` and `validateModels` walk a tree of response models depth-first. They
  call every JSON-property accessor in the order the model's property list gives
  them, and stop at the first failure.

TestNG's verdicts become the datatype `Outcome = Pass | Fail(msg) | Skip(msg)`.
Returning normally is `Pass`, `Assert.fail` is `Fail`, and `SkipException` is `Skip`.
Reflection is replaced by an explicit accessor list per model. Each `Accessor` has a
name, its `nullable` flag, and what calling it does (`Invocation`): it returns `Null`,
a `Leaf` value or a `Nested` model; it throws a cause; or reflection refuses access.
A Java reference that may be null is an `Option`.

Modules:

- `Outcomes` (outcomes.dfy): `Outcome` and `Option`.
- `JavaStrings` (java_strings.dfy): the Java string behaviour the messages depend on.
  This covers how null is printed, the decimal text of a status code, and ASCII upper-casing.
- `FailureHandling` (failure_handling.dfy): `handle`, `isRateLimit`, `handlePostingQuota`
  and `validateRenderString`, as pure functions.
- `ModelValidation` (model_validation.dfy): the validator. It is specified by recursive
  functions (`AccessorOutcome`, `FromIndex`, `ModelOutcome`, `BatchOutcome`). The source's
  loops are the methods `ValidateModel`, `ValidateAccessors` and `ValidateModels`, each
  proved equal to its function.

What the code does, set against the source's own comments:

- `isRateLimit` compares the reason with an exact, case-sensitive `equals` (line 50), and
  `handlePostingQuota` fails every error it rejects (lines 54-55). So the `toUpperCase`
  switch at line 61 only ever sees the two capitalised reasons. The comment at line 59
  ("just in case") describes a case that cannot occur, and the fallback `Assert.fail` at
  line 74 is dead (`PostingQuotaFallbackUnreachable`). A lower-case `"ratelimit"` fails the test.
- A null return value never fails on its own (line 121). The "returned null" message at
  line 113 is used when the accessor throws a `NullPointerException` and is not nullable,
  which is the case the comment at lines 110-111 describes.
- A `NullPointerException` from a nullable accessor fails too, through the else-branch
  at lines 114-118, with `"<cause class>: <cause message>"`. So the `nullable` flag only
  picks the failure message and never decides between pass and fail (`ModelPassIffConforms`).

## Model

| member | source | states |
|---|---|---|
| `FailureHandling.Handle` | src/test/java/net/dean/jraw/test/RedditTest.java:38-47 | never passes; skips iff the error is a network error with 500 <= code < 600, with message "Received <code>, skipping"; otherwise fails with the error's message, or its class name when the message is null |
| `FailureHandling.HandleSkipIdentifiesCode` | src/test/java/net/dean/jraw/test/RedditTest.java:39-43 | two skips of `handle` with the same message come from the same status code |
| `FailureHandling.HandleServiceUnavailable` | src/test/java/net/dean/jraw/test/RedditTest.java:39-43 | a 503 network error is skipped with exactly "Received 503, skipping" |
| `JavaStrings.Decimal` | src/test/java/net/dean/jraw/test/RedditTest.java:42 | the text of a status code is a non-empty digit string with no leading zero, one digit long iff the code is below 10 |
| `JavaStrings.DecimalRoundTrip` | src/test/java/net/dean/jraw/test/RedditTest.java:42 | reading back the decimal text of a number gives the number |
| `JavaStrings.DecimalInjective` | src/test/java/net/dean/jraw/test/RedditTest.java:42 | distinct numbers have distinct decimal texts |
| `JavaStrings.ValueOf` | src/test/java/net/dean/jraw/test/RedditTest.java:118 | a null string prints as "null", any other string as itself |
| `JavaStrings.ToUpperCase` | src/test/java/net/dean/jraw/test/RedditTest.java:61 | upper-casing keeps the length, leaves no ASCII lower-case letter, keeps every other character, and puts each lower-case letter's capital in its place |
| `JavaStrings.UpperCaseKeepsCapitals` | src/test/java/net/dean/jraw/test/RedditTest.java:61 | upper-casing a string with no lower-case letter is the identity |
| `FailureHandling.IsRateLimit` | src/test/java/net/dean/jraw/test/RedditTest.java:49-51 | true iff the reason is exactly "QUOTA_FILLED" or "RATELIMIT"; a reason it accepts is unchanged by upper-casing |
| `FailureHandling.RateLimitIsCaseSensitive` | src/test/java/net/dean/jraw/test/RedditTest.java:49-51 | "RATELIMIT" is a rate limit and "ratelimit" is not |
| `FailureHandling.QuotaSkipMessage` | src/test/java/net/dean/jraw/test/RedditTest.java:61-68 | the switch yields a message iff the upper-cased reason is "QUOTA_FILLED" or "RATELIMIT" |
| `FailureHandling.HandlePostingQuota` | src/test/java/net/dean/jraw/test/RedditTest.java:53-76 | never passes; an error that is not a rate limit fails with the error's message; a skip only happens for a rate limit |
| `FailureHandling.PostingQuotaFallbackUnreachable` | src/test/java/net/dean/jraw/test/RedditTest.java:61-75 | for a rate-limit error, upper-casing keeps the reason and the switch always finds a message, so the fallback `Assert.fail` at line 74 is dead |
| `FailureHandling.PostingQuotaSkipsExactlyRateLimits` | src/test/java/net/dean/jraw/test/RedditTest.java:53-76 | skips iff the error is a rate limit; "QUOTA_FILLED" skips with "Skipping <caller>(), link posting quota has been filled for this user" and "RATELIMIT" with "Skipping <caller>(), reached ratelimit (<explanation>)", a null explanation printed as "null" |
| `FailureHandling.PostingQuotaRateLimitScenario` | src/test/java/net/dean/jraw/test/RedditTest.java:65-72 | a "RATELIMIT" error with explanation "60s" met by a method `<m>` skips with "Skipping <m>(), reached ratelimit (60s)" |
| `FailureHandling.ValidateRenderString` | src/test/java/net/dean/jraw/test/RedditTest.java:78-82 | passes iff the pair and both its strings are non-null; otherwise fails TestNG's not-null assertion |
| `ModelValidation.AccessorOutcome` | src/test/java/net/dean/jraw/test/RedditTest.java:105-127 | an accessor passes only if it returns normally; a null or non-model return always passes; an accessor returning a nested model has exactly the nested model's loop outcome; a thrown cause always fails, nullable or not; never a skip, even for a refused access handed to `handle` |
| `ModelValidation.ModelOutcome` | src/test/java/net/dean/jraw/test/RedditTest.java:99-128 | a null model fails the not-null assertion; `validateModel` passes or fails and never skips |
| `ModelValidation.FromIndex` | src/test/java/net/dean/jraw/test/RedditTest.java:104-124 | the accessor loop from index i: a pass when no accessor is left, and never a skip; with `FromIndexPassIff` and `FirstFailureWins` it is the first non-pass accessor outcome from i on |
| `ModelValidation.BatchOutcome` | src/test/java/net/dean/jraw/test/RedditTest.java:93-97 | the `validateModels` loop: a pass on no models, never a skip, and any other outcome is the outcome of one of the models (the first non-pass one, by `BatchFirstFailureWins`) |
| `ModelValidation.AccessorPassIff` | src/test/java/net/dean/jraw/test/RedditTest.java:107-123 | an accessor passes iff it returns normally and any nested model it returns conforms |
| `ModelValidation.FromIndexPassIff` | src/test/java/net/dean/jraw/test/RedditTest.java:104-124 | the loop from index i passes iff every accessor from i on passes |
| `ModelValidation.ModelPassIffConforms` | src/test/java/net/dean/jraw/test/RedditTest.java:104-124 | a model passes iff every accessor returns normally and every nested model conforms, recursively |
| `ModelValidation.FirstFailureWins` | src/test/java/net/dean/jraw/test/RedditTest.java:104-124 | for a loop started at any index s: when accessors s..i-1 pass and accessor i does not, the loop's outcome is accessor i's; from s = 0 it is the model's outcome |
| `ModelValidation.FailureHasFirstCause` | src/test/java/net/dean/jraw/test/RedditTest.java:104-124 | a model that does not pass owes its outcome to one accessor, all of whose predecessors passed |
| `ModelValidation.NonNullableNpeFails` | src/test/java/net/dean/jraw/test/RedditTest.java:108-113 | when every earlier accessor passes and accessor i is not nullable and throws exactly a NullPointerException, the model fails with "Non-nullable JsonInteraction method returned null: <type>.<name>()" |
| `ModelValidation.ThrownCauseFails` | src/test/java/net/dean/jraw/test/RedditTest.java:108-118 | when every earlier accessor passes and accessor i throws any other cause (another class, or a NullPointerException from a nullable accessor), the model fails with "<cause class>: <cause message>", a null message printed as "null" |
| `ModelValidation.RefusedAccessFails` | src/test/java/net/dean/jraw/test/RedditTest.java:103-127 | when every earlier accessor passes and reflection refuses accessor i, `handle` fails the model with the IllegalAccessException's message, or its class name when the message is null |
| `ModelValidation.NestedFailureFails` | src/test/java/net/dean/jraw/test/RedditTest.java:121-122 | when every earlier accessor passes and accessor i returns a nested model that does not pass, the model's outcome is the nested model's own outcome |
| `ModelValidation.NestedTitleScenario` | src/test/java/net/dean/jraw/test/RedditTest.java:112-122 | a non-nullable `title()` throwing a NullPointerException inside a nested model fails the outer model with "Non-nullable JsonInteraction method returned null: <inner type>.title()" |
| `ModelValidation.NonNullableTitleScenario` | src/test/java/net/dean/jraw/test/RedditTest.java:112-113 | a non-nullable `title()` throwing a NullPointerException fails with "Non-nullable JsonInteraction method returned null: <type>.title()" |
| `ModelValidation.NullableEditedAtScenario` | src/test/java/net/dean/jraw/test/RedditTest.java:121 | a nullable `editedAt()` returning null passes |
| `ModelValidation.NullableNpeScenario` | src/test/java/net/dean/jraw/test/RedditTest.java:114-118 | a nullable accessor throwing a NullPointerException fails with "java.lang.NullPointerException: <message>" |
| `ModelValidation.BatchPassIff` | src/test/java/net/dean/jraw/test/RedditTest.java:93-97 | `validateModels` passes iff every model passes |
| `ModelValidation.BatchFirstFailureWins` | src/test/java/net/dean/jraw/test/RedditTest.java:93-97 | `validateModels` ends with the outcome of the first model that fails, and that outcome is a failure |
| `ModelValidation.ValidateModel` | src/test/java/net/dean/jraw/test/RedditTest.java:99-128 | the method computes `ModelOutcome`: a null model fails, otherwise the accessor loop's outcome |
| `ModelValidation.ValidateAccessors` | src/test/java/net/dean/jraw/test/RedditTest.java:101-127 | the accessor loop, with early exits and recursion into nested models, computes `FromIndex(m, 0)` |
| `ModelValidation.ValidateModels` | src/test/java/net/dean/jraw/test/RedditTest.java:93-97 | the batch loop, stopping at the first failing model, computes `BatchOutcome` |

## Left out

- The shared `RedditClient` and the constructor that sets its user agent (lines 24-28): HTTP client state.
- `getUserAgent` (lines 30-32): it depends on `Version`, which is not part of this model.
- `epochMillis` (lines 34-36): it reads the wall clock.
- `getCallingMethod` (lines 84-91): it inspects the stack trace. `HandlePostingQuota` takes the calling method's name as the parameter `caller`.
- `printStackTrace` and the logger call (lines 45, 71, 117): output with no bearing on the verdict.
- The cause that `handle` attaches to its failure (line 46): a `Fail` carries only its message.
- Reflection (`JsonModel.getJsonProperties`, `getAnnotation`, `Method.invoke`): replaced by the explicit accessor list. An `IllegalAccessException` is the `Inaccessible` invocation.
- `JavaStrings.ToUpperCase`: maps only ASCII letters. Java's full, locale-dependent Unicode mapping is not modelled. It agrees with Java on the two capitalised reasons, which are the only strings that reach the switch.
- The wording of TestNG's failed `assertNotNull` is taken as "expected object to not be null". TestNG is not part of this model.
- The message of `ApiException` is a field of `ApiError`. How `ApiException` builds it is not part of this model.
- A null `Iterable` passed to `validateModels` throws a `NullPointerException` out of the helper. The model takes the models as a sequence and does not represent that path.
- The order of the accessors: the source walks the list that `JsonModel.getJsonProperties` returns (lines 101, 104). That method is not part of this model, and Java reflection promises no particular order. The model takes the list order as given.
- A null `Throwable` passed to `handle`: the source throws a `NullPointerException` at `t.printStackTrace()` (line 45) and never reaches `Assert.fail`. `Throwable` is not an `Option`, so the model does not represent that path.
- A null reason on an API error: `isRateLimit` throws a `NullPointerException` at line 50, and so does `handlePostingQuota`. `ApiError.reason` is not an `Option`, so the model does not represent that path.
- Cyclic model graphs: models are a well-founded datatype, so the validator's missing cycle guard cannot cause non-termination here.
- Java's 32-bit `int` for status codes: codes are unbounded integers. Only codes in 500..599 are rendered as text, and those fit in any width.
