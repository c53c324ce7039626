/**
 * The generator object and its test lifecycle: a step-definitions context
 * is created by `SetUp` (or by `Generate` when none exists), steps run in it
 * through `Execute`, and `TearDown` closes the application only when some
 * step ran, then drops the context unless closing the application failed.
 */
module Lifecycle {
  import opened GherkinModel
  import opened Generation

  /** The live step-definitions object; `needsTearDown` is set once a step runs in it. */
  datatype StepDefsContext = StepDefsContext(needsTearDown: bool)

  datatype ExecuteError =
    | NotGenerated     // `execute` called before `generate` or after `tearDown`
    | InvalidTestStep  // a step to run without a function or without a parameter array
    | HandlerFailed    // the step-definition function threw; its exception leaves `execute`

  /** One call of a step-definition function with its parameters, and whether it returned normally. */
  datatype Invocation = Invocation(func: Handler, parameters: seq<string>, returned: bool)

  /** Some call among `calls` returned normally. */
  ghost predicate AnyReturned(calls: seq<Invocation>) {
    exists i :: 0 <= i < |calls| && calls[i].returned
  }

  lemma AnyReturnedAppend(calls: seq<Invocation>, call: Invocation)
    ensures AnyReturned(calls + [call]) <==> AnyReturned(calls) || call.returned
  {
    var all := calls + [call];
    assert all[|calls|] == call;
    assert forall i :: 0 <= i < |calls| ==> all[i] == calls[i];
  }

  class GherkinTestGenerator {
    const feature: Feature
    const stepDefinitions: StepDefinitions

    /** The shared context steps run in; None stands for `null`. */
    var context: Option<StepDefsContext>

    /** The step-definition functions run so far, in order. */
    var invocations: seq<Invocation>

    /** How many times `closeApplication` has been called. */
    var closeCount: nat

    /** Length of `invocations` when the current context was created. */
    ghost var runsAtSetUp: nat

    /** A context needs tear-down exactly when a step ran in it and returned normally. */
    ghost predicate Valid()
      reads this
    {
      && runsAtSetUp <= |invocations|
      && (context.Some? ==> (context.value.needsTearDown <==> AnyReturned(invocations[runsAtSetUp..])))
    }

    constructor (feature: Feature, stepDefinitions: StepDefinitions)
      ensures Valid()
      ensures this.feature == feature && this.stepDefinitions == stepDefinitions
      ensures context == None && invocations == [] && closeCount == 0
    {
      this.feature := feature;
      this.stepDefinitions := stepDefinitions;
      context := None;
      invocations := [];
      closeCount := 0;
      runsAtSetUp := 0;
    }

    /** Creates a fresh shared context, dropping any previous one. */
    method SetUp()
      requires Valid()
      modifies this
      ensures Valid()
      ensures context == Some(StepDefsContext(false))
      ensures invocations == old(invocations) && closeCount == old(closeCount)
    {
      context := Some(StepDefsContext(false));
      runsAtSetUp := |invocations|;
    }

    /**
     * Closes the application if a step ran and returned since the context was
     * created, then clears the context. `closeApplication` is code not shown
     * here, so `closeThrows` says whether it throws; when it does, it has been
     * called, its exception leaves `tearDown` as `failed`, and the context is
     * not cleared.
     */
    method TearDown(closeThrows: bool) returns (failed: bool)
      requires Valid()
      modifies this
      ensures Valid()
      ensures closeCount == old(closeCount)
                            + (if old(context).Some? && AnyReturned(old(invocations)[old(runsAtSetUp)..]) then 1 else 0)
      ensures failed <==> closeThrows && old(context).Some? && AnyReturned(old(invocations)[old(runsAtSetUp)..])
      ensures context == if failed then old(context) else None
      ensures invocations == old(invocations)
    {
      failed := false;
      if context.Some? && context.value.needsTearDown {
        closeCount := closeCount + 1;
        if closeThrows {
          return true;
        }
      }
      context := None;
    }

    /** Creates a context if none exists and returns the feature test. */
    method Generate() returns (r: FeatureTest)
      requires Valid()
      modifies this
      ensures Valid()
      ensures r == FeatureTestOf(stepDefinitions, feature)
      ensures context == if old(context).None? then Some(StepDefsContext(false)) else old(context)
      ensures invocations == old(invocations) && closeCount == old(closeCount)
    {
      if context.None? {
        SetUp();
      }
      r := GenerateFeatureTest(stepDefinitions, feature);
    }

    /**
     * Runs a test step in the shared context unless it is to be skipped, and
     * tells whether it ran. Fails without a context, and for a step to run
     * that lacks a function or a parameter array. The handler's own outcome
     * is code not shown here, so `throws` says whether it throws; a handler
     * that throws has been called, but the context is not marked as needing
     * tear-down.
     */
    method Execute(testStep: TestStep, throws: bool) returns (r: Result<bool, ExecuteError>)
      requires Valid()
      modifies this
      ensures Valid()
      ensures old(context).None? ==> r == Err(NotGenerated)
      ensures old(context).Some? && !testStep.skip && (testStep.func.None? || testStep.parameters.None?)
              ==> r == Err(InvalidTestStep)
      ensures r == Err(NotGenerated) || r == Err(InvalidTestStep) || testStep.skip ==> unchanged(this)
      ensures r.Ok? ==> old(context).Some? && r.value == !testStep.skip
      ensures r.Ok? && !testStep.skip ==>
        && context == Some(StepDefsContext(true))
        && invocations == old(invocations) + [Invocation(testStep.func.value, testStep.parameters.value, true)]
        && closeCount == old(closeCount)
      ensures r == Err(HandlerFailed) ==>
        && old(context).Some? && !testStep.skip && throws
        && context == old(context)
        && invocations == old(invocations) + [Invocation(testStep.func.value, testStep.parameters.value, false)]
        && closeCount == old(closeCount)
      ensures old(context).Some? && !testStep.skip && testStep.func.Some? && testStep.parameters.Some?
              ==> r == if throws then Err(HandlerFailed) else Ok(true)
      ensures old(context).Some? && testStep.skip ==> r == Ok(false)
    {
      if context.None? {
        return Err(NotGenerated);
      }
      if !testStep.skip && (testStep.func.None? || testStep.parameters.None?) {
        return Err(InvalidTestStep);
      }
      if !testStep.skip {
        var call := Invocation(testStep.func.value, testStep.parameters.value, !throws);
        AnyReturnedAppend(invocations[runsAtSetUp..], call);
        assert (invocations + [call])[runsAtSetUp..] == invocations[runsAtSetUp..] + [call];
        invocations := invocations + [call];
        if throws {
          return Err(HandlerFailed);
        }
        context := Some(StepDefsContext(true));
      }
      r := Ok(!testStep.skip);
    }
  }
}
