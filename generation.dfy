/**
 * Test plan generation: Gherkin steps are resolved against the step
 * definitions, skip flags are propagated (a step that cannot be matched skips
 * itself and every later step), and scenarios and the feature are assembled
 * with their names and "@wip" flags.
 */
module Generation {
  import opened GherkinModel
  import opened Outline

  const SkippedPrefix: string := "(SKIPPED) "
  const WipPrefix: string := "(WIP) "

  /** The matcher's TestStep, or the alternate generator's when the matcher finds no match and one is given. */
  function Resolve(defs: StepDefinitions, step: Step): TestStep {
    var t := defs.generateTestStep(step);
    if !t.isMatch && defs.alternate.Some? then defs.alternate.value(step) else t
  }

  predicate Unmatched(defs: StepDefinitions, step: Step) {
    !Resolve(defs, step).isMatch
  }

  /** Sets the skip flag; a matched step that is skipped gets the "(SKIPPED) " text prefix. */
  function MarkSkip(t: TestStep, skip: bool): TestStep {
    t.(skip := skip, text := if t.isMatch && skip then SkippedPrefix + t.text else t.text)
  }

  /**
   * The test steps for `steps` when the sticky skipping flag comes in as
   * `skipping`: each step is resolved, an unmatched one turns skipping on for
   * itself and every later step, and the flag is passed on.
   */
  function TestStepsOf(defs: StepDefinitions, isWip: bool, steps: seq<Step>, skipping: bool): (r: seq<TestStep>)
    ensures |r| == |steps|
    decreases |steps|
  {
    if steps == [] then []
    else
      var t := Resolve(defs, steps[0]);
      var flag := skipping || !t.isMatch;
      [MarkSkip(t, flag || isWip)] + TestStepsOf(defs, isWip, steps[1..], flag)
  }

  /** Some step cannot be matched, looked for from the first step on. */
  predicate AnyUnmatched(defs: StepDefinitions, steps: seq<Step>)
    decreases |steps|
  {
    steps != [] && (Unmatched(defs, steps[0]) || AnyUnmatched(defs, steps[1..]))
  }

  lemma {:induction false} AnyUnmatchedMeans(defs: StepDefinitions, steps: seq<Step>)
    ensures AnyUnmatched(defs, steps) <==> exists j :: 0 <= j < |steps| && Unmatched(defs, steps[j])
    decreases |steps|
  {
    if steps != [] {
      var rest := steps[1..];
      AnyUnmatchedMeans(defs, rest);
      assert forall j :: 1 <= j < |steps| ==> rest[j - 1] == steps[j];
    }
  }

  /** Step i of the test steps, read off the first step and the rest. */
  lemma TestStepsAt(defs: StepDefinitions, isWip: bool, steps: seq<Step>, skipping: bool, i: nat)
    requires i < |steps|
    ensures i == 0 ==> TestStepsOf(defs, isWip, steps, skipping)[i]
                       == MarkSkip(Resolve(defs, steps[0]), skipping || Unmatched(defs, steps[0]) || isWip)
    ensures i > 0 ==> TestStepsOf(defs, isWip, steps, skipping)[i]
                      == TestStepsOf(defs, isWip, steps[1..], skipping || Unmatched(defs, steps[0]))[i - 1]
  {
    var flag := skipping || Unmatched(defs, steps[0]);
    var first := MarkSkip(Resolve(defs, steps[0]), flag || isWip);
    var later := TestStepsOf(defs, isWip, steps[1..], flag);
    assert TestStepsOf(defs, isWip, steps, skipping) == [first] + later;
    if i == 0 {
      assert ([first] + later)[0] == first;
    } else {
      assert ([first] + later)[i] == later[i - 1];
    }
  }

  /** Looking for an unmatched step among the first i + 1 steps, from the first one on. */
  lemma AnyUnmatchedFront(defs: StepDefinitions, steps: seq<Step>, i: nat)
    requires i < |steps|
    ensures AnyUnmatched(defs, steps[..i + 1])
         == (Unmatched(defs, steps[0]) || (i > 0 && AnyUnmatched(defs, steps[1..][..i])))
  {
    var pre := steps[..i + 1];
    assert pre[0] == steps[0] && pre[1..] == steps[1..][..i];
  }

  lemma {:induction false} StepIsMarked(defs: StepDefinitions, isWip: bool, steps: seq<Step>, skipping: bool, i: nat)
    requires i < |steps|
    ensures TestStepsOf(defs, isWip, steps, skipping)[i]
         == MarkSkip(Resolve(defs, steps[i]), isWip || skipping || AnyUnmatched(defs, steps[..i + 1]))
    decreases i
  {
    var flag := skipping || Unmatched(defs, steps[0]);
    TestStepsAt(defs, isWip, steps, skipping, i);
    AnyUnmatchedFront(defs, steps, i);
    if i > 0 {
      StepIsMarked(defs, isWip, steps[1..], flag, i - 1);
      assert steps[1..][i - 1] == steps[i];
    }
  }

  /**
   * Step i is skipped exactly when the scenario is "@wip", or skipping was
   * already on, or some step up to and including i could not be matched. Its
   * match flag and its remaining fields are those the matcher (or alternate
   * generator) produced, and its text gains "(SKIPPED) " exactly when it
   * matched and is skipped.
   */
  lemma StickySkip(defs: StepDefinitions, isWip: bool, steps: seq<Step>, skipping: bool, i: nat)
    requires i < |steps|
    ensures
      var t := Resolve(defs, steps[i]);
      var skip := isWip || skipping || exists j :: 0 <= j <= i && Unmatched(defs, steps[j]);
      TestStepsOf(defs, isWip, steps, skipping)[i]
        == t.(skip := skip, text := if t.isMatch && skip then SkippedPrefix + t.text else t.text)
  {
    var prefix := steps[..i + 1];
    StepIsMarked(defs, isWip, steps, skipping, i);
    AnyUnmatchedMeans(defs, prefix);
    assert forall j :: 0 <= j <= i ==> prefix[j] == steps[j];
  }

  /** Once a step cannot be matched, it and every later step are skipped. */
  lemma UnmatchedSkipsRest(defs: StepDefinitions, isWip: bool, steps: seq<Step>, skipping: bool, u: nat, i: nat)
    requires u <= i < |steps|
    requires Unmatched(defs, steps[u])
    ensures TestStepsOf(defs, isWip, steps, skipping)[i].skip
    ensures !TestStepsOf(defs, isWip, steps, skipping)[u].isMatch
  {
    StickySkip(defs, isWip, steps, skipping, i);
    StickySkip(defs, isWip, steps, skipping, u);
  }

  /**
   * One pass of the generation loop: resolves the step, turns skipping on if
   * it is unmatched, and sets the step's skip flag and text.
   */
  method GenerateTestStep(defs: StepDefinitions, isWip: bool, step: Step, skipping: bool)
    returns (testStep: TestStep, stillSkipping: bool)
    ensures stillSkipping == (skipping || Unmatched(defs, step))
    ensures testStep == MarkSkip(Resolve(defs, step), stillSkipping || isWip)
  {
    testStep := defs.generateTestStep(step);
    if !testStep.isMatch && defs.alternate.Some? {
      testStep := defs.alternate.value(step);
    }
    stillSkipping := skipping;
    if !testStep.isMatch {
      stillSkipping := true;
    }
    testStep := testStep.(skip := stillSkipping || isWip);
    if testStep.isMatch && testStep.skip {
      testStep := testStep.(text := SkippedPrefix + testStep.text);
    }
  }

  /**
   * One more pass of the generation loop keeps its invariant: the steps made
   * so far, followed by the steps still to make from the current flag, are
   * all the test steps.
   */
  lemma GenerationLoopStep(defs: StepDefinitions, isWip: bool, steps: seq<Step>, skipping: bool,
                            i: nat, done: seq<TestStep>, flag: bool)
    requires i < |steps|
    requires done + TestStepsOf(defs, isWip, steps[i..], flag) == TestStepsOf(defs, isWip, steps, skipping)
    ensures
      var next := flag || Unmatched(defs, steps[i]);
      (done + [MarkSkip(Resolve(defs, steps[i]), next || isWip)]) + TestStepsOf(defs, isWip, steps[i + 1..], next)
        == TestStepsOf(defs, isWip, steps, skipping)
  {
  }

  /** Generates the test steps of a scenario, carrying the sticky skipping flag from step to step. */
  method GenerateTestSteps(defs: StepDefinitions, isWip: bool, sc: Scenario, skipping: bool) returns (testSteps: seq<TestStep>)
    ensures testSteps == TestStepsOf(defs, isWip, sc.steps, skipping)
  {
    testSteps := [];
    var bSkipping := skipping;
    assert sc.steps[0..] == sc.steps;
    for i := 0 to |sc.steps|
      invariant testSteps + TestStepsOf(defs, isWip, sc.steps[i..], bSkipping) == TestStepsOf(defs, isWip, sc.steps, skipping)
    {
      GenerationLoopStep(defs, isWip, sc.steps, skipping, i, testSteps, bSkipping);
      var testStep;
      testStep, bSkipping := GenerateTestStep(defs, isWip, sc.steps[i], bSkipping);
      testSteps := testSteps + [testStep];
    }
    assert testSteps + [] == testSteps;
  }

  /** "(WIP) " for a "@wip" scenario, then "Scenario Outline: " or "Scenario: ", then its name. */
  function ScenarioName(sc: Scenario): string {
    (if IsWip(sc.tags) then WipPrefix else "")
      + (if IsScenarioOutline(sc) then "Scenario Outline: " else "Scenario: ")
      + sc.name
  }

  /**
   * A scenario test's name tells whether the scenario is "@wip" and whether it
   * is an outline, and ends with the scenario's own name.
   */
  lemma ScenarioNameDecodes(sc: Scenario)
    ensures HasPrefix(ScenarioName(sc), WipPrefix) <==> IsWip(sc.tags)
    ensures HasPrefix(ScenarioName(sc), (if IsWip(sc.tags) then WipPrefix else "") + "Scenario Outline: ")
            <==> IsScenarioOutline(sc)
    ensures
      var r := ScenarioName(sc);
      |r| >= |sc.name| && r[|r| - |sc.name|..] == sc.name
  {
    var wip := if IsWip(sc.tags) then WipPrefix else "";
    var r := ScenarioName(sc);
    assert r[|r| - |sc.name|..] == sc.name;
    assert r[..|wip|] == wip;
    if !IsWip(sc.tags) {
      NotPrefixAt(r, WipPrefix, 0);
    }
    if IsScenarioOutline(sc) {
      assert r[..|wip| + 18] == wip + "Scenario Outline: ";
    } else {
      NotPrefixAt(r, wip + "Scenario Outline: ", |wip| + 8);
    }
  }

  /** A string differing from `p` at a position of both does not start with `p`. */
  lemma NotPrefixAt(s: string, p: string, k: nat)
    requires k < |p| && k < |s| && s[k] != p[k]
    ensures !HasPrefix(s, p)
  {
  }

  /** The background's test steps: generated with the scenario's "@wip" flag and skipping off. */
  function BackgroundSteps(defs: StepDefinitions, isWip: bool, background: Option<Scenario>): seq<TestStep> {
    if background.Some? then TestStepsOf(defs, isWip, background.value.steps, false) else []
  }

  /** Whether the scenario's own steps start skipped. */
  predicate StartsSkipped(defs: StepDefinitions, sc: Scenario, background: Option<Scenario>) {
    var bg := BackgroundSteps(defs, IsWip(sc.tags), background);
    || (exists j :: 0 <= j < |bg| && !bg[j].isMatch)
    || (IsScenarioOutline(sc) && !IsScenarioOutlineWithExamples(sc))
  }

  /** The executable test scenario for a (concrete) scenario, preceded by the feature's background. */
  function TestScenarioOf(defs: StepDefinitions, sc: Scenario, background: Option<Scenario>): ScenarioTest {
    var isWip := IsWip(sc.tags);
    var own := TestStepsOf(defs, isWip, sc.steps, StartsSkipped(defs, sc, background));
    ScenarioTest(ScenarioName(sc), isWip, BackgroundSteps(defs, isWip, background) + own)
  }

  /** Some background step cannot be matched. */
  predicate BackgroundFails(defs: StepDefinitions, background: Option<Scenario>) {
    background.Some? && exists j :: 0 <= j < |background.value.steps| && Unmatched(defs, background.value.steps[j])
  }

  /** The scenario's own steps start skipped exactly when the background fails or it is an outline without active examples. */
  lemma StartsSkippedMeans(defs: StepDefinitions, sc: Scenario, background: Option<Scenario>)
    ensures StartsSkipped(defs, sc, background)
        <==> BackgroundFails(defs, background) || (IsScenarioOutline(sc) && !IsScenarioOutlineWithExamples(sc))
  {
    if background.Some? {
      var isWip := IsWip(sc.tags);
      var bsteps := background.value.steps;
      var bg := BackgroundSteps(defs, isWip, background);
      forall j | 0 <= j < |bsteps|
        ensures bg[j].isMatch == !Unmatched(defs, bsteps[j])
      {
        StickySkip(defs, isWip, bsteps, false, j);
      }
    }
  }

  /**
   * A test scenario holds the background's steps and then the scenario's own.
   * Background step i is skipped exactly when the scenario is "@wip" or a
   * background step up to i is unmatched.
   */
  lemma BackgroundStepSkip(defs: StepDefinitions, sc: Scenario, background: Option<Scenario>, i: nat)
    requires background.Some? && i < |background.value.steps|
    ensures
      var r := TestScenarioOf(defs, sc, background);
      && |r.testSteps| == |background.value.steps| + |sc.steps|
      && r.wip == IsWip(sc.tags)
      && r.testSteps[i].skip == (r.wip || exists j :: 0 <= j <= i && Unmatched(defs, background.value.steps[j]))
  {
    StickySkip(defs, IsWip(sc.tags), background.value.steps, false, i);
  }

  /**
   * The scenario's own step i is skipped exactly when the scenario is "@wip",
   * or the background fails, or the scenario is an outline without active
   * examples, or one of its own steps up to i is unmatched.
   */
  lemma OwnStepSkip(defs: StepDefinitions, sc: Scenario, background: Option<Scenario>, i: nat)
    requires i < |sc.steps|
    ensures
      var r := TestScenarioOf(defs, sc, background);
      var nb := if background.Some? then |background.value.steps| else 0;
      && |r.testSteps| == nb + |sc.steps|
      && r.testSteps[nb + i].skip
         == (|| IsWip(sc.tags)
             || BackgroundFails(defs, background)
             || (IsScenarioOutline(sc) && !IsScenarioOutlineWithExamples(sc))
             || exists j :: 0 <= j <= i && Unmatched(defs, sc.steps[j]))
  {
    var isWip := IsWip(sc.tags);
    var starts := StartsSkipped(defs, sc, background);
    var bg := BackgroundSteps(defs, isWip, background);
    assert TestScenarioOf(defs, sc, background).testSteps == bg + TestStepsOf(defs, isWip, sc.steps, starts);
    assert |bg| == if background.Some? then |background.value.steps| else 0;
    SkipAfterPrefix(defs, isWip, bg, sc.steps, starts, i);
    StartsSkippedMeans(defs, sc, background);
  }

  /** Step i of a step list placed after other test steps keeps its sticky skip flag. */
  lemma SkipAfterPrefix(defs: StepDefinitions, isWip: bool, bg: seq<TestStep>, steps: seq<Step>, starts: bool, i: nat)
    requires i < |steps|
    ensures (bg + TestStepsOf(defs, isWip, steps, starts))[|bg| + i].skip
         == (isWip || starts || exists j :: 0 <= j <= i && Unmatched(defs, steps[j]))
  {
    StickySkip(defs, isWip, steps, starts, i);
  }

  /** A background step that cannot be matched skips every step of the scenario it precedes. */
  lemma BackgroundFailureSkipsScenario(defs: StepDefinitions, sc: Scenario, background: Option<Scenario>, i: nat)
    requires BackgroundFails(defs, background)
    requires i < |sc.steps|
    ensures TestScenarioOf(defs, sc, background).testSteps[|background.value.steps| + i].skip
  {
    OwnStepSkip(defs, sc, background, i);
  }

  /**
   * A concrete scenario of an expanded outline is never made to skip: when the
   * outline is not "@wip", the background does not fail and all its steps
   * match, every step runs, whichever example table its row came from, "@wip"
   * tables included.
   */
  lemma ExpandedScenarioRuns(defs: StepDefinitions, sc: Scenario, background: Option<Scenario>, i: nat, s: nat)
    requires IsScenarioOutlineWithExamples(sc) && !IsWip(sc.tags)
    requires i < |Expansion(sc)|
    requires !BackgroundFails(defs, background)
    requires forall j :: 0 <= j < |Expansion(sc)[i].steps| ==> !Unmatched(defs, Expansion(sc)[i].steps[j])
    requires s < |TestScenarioOf(defs, Expansion(sc)[i], background).testSteps|
    ensures !TestScenarioOf(defs, Expansion(sc)[i], background).testSteps[s].skip
  {
    var c := Expansion(sc)[i];
    ExpansionKeepsExamples(sc, i);
    var nb := if background.Some? then |background.value.steps| else 0;
    if s < nb {
      BackgroundStepSkip(defs, c, background, s);
    } else {
      OwnStepSkip(defs, c, background, s - nb);
    }
  }

  /** Prepares one test scenario: background steps first, then the scenario's own. */
  method GenerateTestScenario(defs: StepDefinitions, sc: Scenario, background: Option<Scenario>) returns (r: ScenarioTest)
    ensures r == TestScenarioOf(defs, sc, background)
  {
    var isWip := IsWip(sc.tags);
    var prepend := if IsScenarioOutline(sc) then "Scenario Outline: " else "Scenario: ";
    var name := (if isWip then WipPrefix else "") + prepend + sc.name;
    var testSteps := [];
    var skip := false;
    if background.Some? {
      testSteps := GenerateTestSteps(defs, isWip, background.value, false);
      skip := exists j :: 0 <= j < |testSteps| && !testSteps[j].isMatch;
    }
    if IsScenarioOutline(sc) && !IsScenarioOutlineWithExamples(sc) {
      skip := true;
    }
    var own := GenerateTestSteps(defs, isWip, sc, skip);
    testSteps := testSteps + own;
    r := ScenarioTest(name, isWip, testSteps);
  }

  /** `f` applied to each element, the results concatenated in order. */
  function FlatMap<T, U>(f: T -> seq<U>, xs: seq<T>): seq<U>
    decreases |xs|
  {
    if xs == [] then [] else FlatMap(f, xs[..|xs| - 1]) + f(xs[|xs| - 1])
  }

  lemma {:induction false} FlatMapAppend<T, U>(f: T -> seq<U>, a: seq<T>, b: seq<T>)
    ensures FlatMap(f, a + b) == FlatMap(f, a) + FlatMap(f, b)
    decreases |b|
  {
    if b == [] {
      assert a + b == a;
    } else {
      var n := |b|;
      var front := b[..n - 1];
      assert (a + b)[..|a + b| - 1] == a + front;
      assert (a + b)[|a + b| - 1] == b[n - 1];
      FlatMapAppend(f, a, front);
    }
  }

  /** The concrete scenarios of the feature: each scenario's expansion, in order. */
  function ExpandAll(scenarios: seq<Scenario>): seq<Scenario> {
    FlatMap(Expansion, scenarios)
  }

  /** Expanding a concatenation expands each part. */
  lemma ExpandAllAppend(a: seq<Scenario>, b: seq<Scenario>)
    ensures ExpandAll(a + b) == ExpandAll(a) + ExpandAll(b)
  {
    FlatMapAppend(Expansion, a, b);
  }

  /** Every step of every scenario is skipped, as nested `every` calls compute it. */
  predicate EveryStepSkipped(steps: seq<TestStep>)
    decreases |steps|
  {
    steps == [] || (steps[0].skip && EveryStepSkipped(steps[1..]))
  }

  predicate EveryScenarioSkipped(scenarios: seq<ScenarioTest>)
    decreases |scenarios|
  {
    scenarios == [] || (EveryStepSkipped(scenarios[0].testSteps) && EveryScenarioSkipped(scenarios[1..]))
  }

  lemma {:induction false} EveryStepSkippedMeans(steps: seq<TestStep>)
    ensures EveryStepSkipped(steps) <==> forall j :: 0 <= j < |steps| ==> steps[j].skip
    decreases |steps|
  {
    if steps != [] {
      EveryStepSkippedMeans(steps[1..]);
      assert forall j :: 1 <= j < |steps| ==> steps[1..][j - 1] == steps[j];
    }
  }

  lemma {:induction false} EveryScenarioSkippedMeans(scenarios: seq<ScenarioTest>)
    ensures EveryScenarioSkipped(scenarios) <==>
      forall i, j :: 0 <= i < |scenarios| && 0 <= j < |scenarios[i].testSteps| ==> scenarios[i].testSteps[j].skip
    decreases |scenarios|
  {
    if scenarios != [] {
      EveryStepSkippedMeans(scenarios[0].testSteps);
      EveryScenarioSkippedMeans(scenarios[1..]);
      assert forall i :: 1 <= i < |scenarios| ==> scenarios[1..][i - 1] == scenarios[i];
    }
  }

  /** "(WIP) " for a "@wip" feature, then "Feature: ", then its name. */
  function FeatureName(f: Feature): string {
    (if IsWip(f.tags) then WipPrefix else "") + "Feature: " + f.name
  }

  /** A feature test's name tells whether the feature is "@wip" and ends with the feature's own name. */
  lemma FeatureNameDecodes(f: Feature)
    ensures HasPrefix(FeatureName(f), WipPrefix) <==> IsWip(f.tags)
    ensures
      var r := FeatureName(f);
      |r| >= |f.name| && r[|r| - |f.name|..] == f.name
  {
    var wip := if IsWip(f.tags) then WipPrefix else "";
    var r := FeatureName(f);
    assert r[|r| - |f.name|..] == f.name;
    assert r[..|wip|] == wip;
    if !IsWip(f.tags) {
      NotPrefixAt(r, WipPrefix, 0);
    }
  }

  function TestScenariosOf(defs: StepDefinitions, scenarios: seq<Scenario>, background: Option<Scenario>): (r: seq<ScenarioTest>)
    ensures |r| == |scenarios|
  {
    seq(|scenarios|, i requires 0 <= i < |scenarios| => TestScenarioOf(defs, scenarios[i], background))
  }

  /** The feature test: the test scenarios of every concrete scenario, with the roll-up of "@wip" and skip. */
  function FeatureTestOf(defs: StepDefinitions, f: Feature): FeatureTest {
    var testScenarios := TestScenariosOf(defs, ExpandAll(f.scenarios), f.background);
    var isWip := IsWip(f.tags);
    FeatureTest(FeatureName(f), isWip || EveryScenarioSkipped(testScenarios), isWip, testScenarios)
  }

  /**
   * The feature is "@wip" exactly when tagged so, and is skipped exactly when
   * it is "@wip" or every step of every test scenario is skipped (so a feature
   * without scenarios or steps is skipped). There is one test scenario per
   * concrete scenario, in order.
   */
  lemma FeatureRollUp(defs: StepDefinitions, f: Feature)
    ensures
      var r := FeatureTestOf(defs, f);
      && r.wip == IsWip(f.tags)
      && (r.skip <==> r.wip || forall i, j :: 0 <= i < |r.testScenarios| && 0 <= j < |r.testScenarios[i].testSteps| ==>
                                r.testScenarios[i].testSteps[j].skip)
      && |r.testScenarios| == |ExpandAll(f.scenarios)|
      && forall i :: 0 <= i < |r.testScenarios| ==>
           r.testScenarios[i] == TestScenarioOf(defs, ExpandAll(f.scenarios)[i], f.background)
  {
    EveryScenarioSkippedMeans(FeatureTestOf(defs, f).testScenarios);
  }

  /** Collects the concrete scenarios of all the feature's scenarios, in order. */
  method ExpandScenarios(scenarios: seq<Scenario>) returns (expanded: seq<Scenario>)
    ensures expanded == ExpandAll(scenarios)
  {
    expanded := [];
    for i := 0 to |scenarios|
      invariant expanded == ExpandAll(scenarios[..i])
    {
      var concrete := ExpandScenarioOutline(scenarios[i]);
      expanded := expanded + concrete;
      assert scenarios[..i + 1][..i] == scenarios[..i];
    }
    assert scenarios[..|scenarios|] == scenarios;
  }

  /** Builds the test scenario of each concrete scenario, in order. */
  method GenerateTestScenarios(defs: StepDefinitions, scenarios: seq<Scenario>, background: Option<Scenario>)
    returns (testScenarios: seq<ScenarioTest>)
    ensures testScenarios == TestScenariosOf(defs, scenarios, background)
  {
    testScenarios := [];
    for i := 0 to |scenarios|
      invariant |testScenarios| == i
      invariant forall k :: 0 <= k < i ==> testScenarios[k] == TestScenarioOf(defs, scenarios[k], background)
    {
      var testScenario := GenerateTestScenario(defs, scenarios[i], background);
      testScenarios := testScenarios + [testScenario];
    }
  }

  /** Assembles the feature test: expand every scenario, build each test scenario, roll up the flags. */
  method GenerateFeatureTest(defs: StepDefinitions, f: Feature) returns (r: FeatureTest)
    ensures r == FeatureTestOf(defs, f)
  {
    var expanded := ExpandScenarios(f.scenarios);
    var testScenarios := GenerateTestScenarios(defs, expanded, f.background);
    var isWip := IsWip(f.tags);
    var allSkipped := EveryScenarioSkipped(testScenarios);
    r := FeatureTest((if isWip then WipPrefix else "") + "Feature: " + f.name, isWip || allSkipped, isWip, testScenarios);
  }
}
