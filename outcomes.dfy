/** The verdicts a test helper can reach, in place of TestNG's exceptions:
    returning normally is `Pass`, `Assert.fail` is `Fail` and `SkipException` is `Skip`. */
module Outcomes {

  /** A Java reference that may be null. */
  datatype Option<+T> = None | Some(value: T)

  datatype Outcome = Pass | Fail(msg: string) | Skip(msg: string)
}
