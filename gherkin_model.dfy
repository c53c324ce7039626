/**
 * The data handled by the Gherkin test generator: the parsed feature it reads
 * (Feature, Scenario, Examples, Step) and the test plan it produces
 * (FeatureTest, ScenarioTest, TestStep).
 */
module GherkinModel {

  datatype Option<+T> = None | Some(value: T)

  datatype Result<+T, +E> = Ok(value: T) | Err(error: E)

  /** The only tag the generator honours. */
  const WipTag: string := "@wip"

  /** Identifies a step-definition function (the `func` of a TestStep). */
  type Handler = string

  /** One Gherkin step line, e.g. keyword "Given", text "coffee costs $<price>". */
  datatype Step = Step(keyword: string, text: string)

  /**
   * One entry of an example table's data. The parser gives either a list of
   * rows (each a list of cells) or a flat list of single cells.
   */
  datatype ExampleRow = Cell(cell: string) | Cells(cells: seq<string>)

  /**
   * An "Examples:" block of a scenario outline. The header row is the first
   * entry of `data`. An empty `name` stands for a block without a name.
   */
  datatype Examples = Examples(name: string, tags: seq<string>, data: seq<ExampleRow>)

  /** A scenario; it is a scenario outline exactly when `examples` is present. */
  datatype Scenario = Scenario(name: string, tags: seq<string>, steps: seq<Step>, examples: Option<seq<Examples>>)

  datatype Feature = Feature(name: string, tags: seq<string>, background: Option<Scenario>, scenarios: seq<Scenario>)

  /**
   * A Gherkin step resolved against the step definitions. A missing `func` or
   * `parameters` stands for a value that is not a function or not an array.
   */
  datatype TestStep = TestStep(
    isMatch: bool,
    skip: bool,
    text: string,
    regex: Option<string>,
    parameters: Option<seq<string>>,
    func: Option<Handler>)

  datatype ScenarioTest = ScenarioTest(name: string, wip: bool, testSteps: seq<TestStep>)

  datatype FeatureTest = FeatureTest(name: string, skip: bool, wip: bool, testScenarios: seq<ScenarioTest>)

  /**
   * The step definitions the generator consults: the matcher that turns a
   * Gherkin step into a TestStep, and the optional alternate generator used
   * for steps the matcher does not match. Both are code outside the generator.
   */
  datatype StepDefinitions = StepDefinitions(
    generateTestStep: Step -> TestStep,
    alternate: Option<Step -> TestStep>)

  predicate IsWip(tags: seq<string>) {
    WipTag in tags
  }

  predicate HasPrefix(s: string, prefix: string) {
    |prefix| <= |s| && s[..|prefix|] == prefix
  }
}
