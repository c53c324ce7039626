# Gherkin test generator

A Dafny model of the UI5 Gherkin test generator. The model starts from a feature that has already been parsed: its scenarios, an optional background, and the example tables of its scenario outlines. It turns that feature into an executable test plan, which is a `FeatureTest`. A `FeatureTest` holds `ScenarioTest`s, and each `ScenarioTest` holds `TestStep`s. Step definitions resolve each Gherkin step to a `TestStep`. An optional alternate generator does the same for steps that no step definition matches.

Modules:

- `GherkinModel` (`gherkin_model.dfy`): the data model.
  - The input is a `Feature` made of `Scenario`s, `Step`s and `Examples` tables.
  - The output is `FeatureTest`, `ScenarioTest` and `TestStep`.
  - `StepDefinitions` holds the matcher and the optional alternate generator as function values.
  - Only the `@wip` tag has a meaning.
- `Text` (`text.dfy`): the string operations the generator relies on.
  - Replacement of every literal occurrence of a placeholder, scanning left to right.
  - How that replacement treats text around a tag, a `<`, then characters other than `<` and `>`, then `>`.
  - Writing a row number in decimal.
- `Outline` (`outline.dfy`): scenario outline expansion.
  - An outline is a scenario with an `examples` list. An empty list still makes it an outline.
  - An example table is active when it is not tagged `@wip`.
  - An example table becomes a list of row objects: the header row is zipped with each data row.
  - Each data row becomes one concrete scenario. The scenario is renamed, and `<column>` placeholders in its steps are replaced column by column.
  - `Expansion` specifies the result. `ExpandScenarioOutline` is the loop version, and `SubstituteRow` is its column-by-column, step-by-step inner loop.
- `Generation` (`generation.dfy`): building the test plan.
  - Step generation with a sticky skip flag: `TestStepsOf` specifies it and the loop `GenerateTestSteps` computes it.
  - Scenario assembly: background steps first, then the scenario's own steps, plus the scenario's name (`TestScenarioOf`, `GenerateTestScenario`).
  - Feature roll-up of the name and the `wip` and `skip` flags (`FeatureTestOf`, `GenerateFeatureTest`).
- `Lifecycle` (`lifecycle.dfy`): the generator object as a class.
  - Its field `context` is the shared step-definitions context. None stands for `null`.
  - `SetUp`, `TearDown`, `Generate` and `Execute` change that field, the trace of handler calls, and the count of `closeApplication` calls.
- `Walkthrough` (`walkthrough.dfy`): five worked cases.
  - The "Buy coffee" outline with prices 5 and 10.
  - Step texts with two columns, `a` and `b`.
  - A scenario whose first step has no step definition.
  - A context in which one step runs, with a handler that returns or throws.
  - A tear-down whose `closeApplication` throws, followed by another step.

Each loop method of `Outline` and `Generation` is proved equal to a pure specification function, and the properties are proved as lemmas about those functions. The methods of the `Lifecycle` class state their new state directly in their postconditions.

Scenarios are values, so each concrete scenario is an independent copy, as the source's deep copy makes it. Building one copy leaves the outline and the other copies unchanged.

Where the code departs from its own documentation, the model follows the code:

- Example tables and `@wip`:
  - Whether an outline is expanded depends only on the tags of its example tables. Data rows are not consulted.
  - An active table that has only a header row contributes no scenario. An outline with an active table vanishes from the plan exactly when none of its tables, `@wip` ones included, has a data row (`Outline.OutlineVanishes`).
  - Once an outline is expanded, the rows of its `@wip` tables are expanded too.
  - Their concrete scenarios are not made to skip (`Generation.ExpandedScenarioRuns`), although the class comment says `@wip` examples are skipped.
- A feature tagged `@wip` gets `wip` and `skip` set. Its scenarios' steps are not skipped because of the feature's tag; only a scenario's own tag does that.

Unmatched steps:

- The generator never adds the prefix `(NOT FOUND)`. Whoever builds the TestStep, the matcher or the alternate generator, is responsible for it. An unmatched step keeps the text they returned.
- An unmatched step is skipped itself, and so is every step after it, as the documentation of step generation says (`Walkthrough.UnknownStepSkipsNext`).

Replacing a context:

- Calling `setUp` while a context that needs tear-down exists replaces that context. The application is not closed (`Lifecycle.GherkinTestGenerator.SetUp`).

Handlers that throw:

- `execute` calls the step's handler before it marks the context as needing tear-down. A handler that throws therefore leaves the context unmarked. If no other step in that context returned, `tearDown` does not close the application (`Walkthrough.TearDownAfterOneStep`).
- `tearDown` calls `closeApplication` before it clears the context. A `closeApplication` that throws therefore leaves the context set, and a later `execute` still runs its step (`Walkthrough.StepAfterFailedTearDown`).

## Model

| member | source | states |
|---|---|---|
| Lifecycle.GherkinTestGenerator.constructor | src/sap.ui.core/src/sap/ui/test/gherkin/GherkinTestGenerator.js:106-156 | The generator keeps the feature and step definitions it was given and starts with no step-definitions context. |
| Lifecycle.GherkinTestGenerator.SetUp | src/sap.ui.core/src/sap/ui/test/gherkin/GherkinTestGenerator.js:163-165 | A fresh context that needs no tear-down replaces any previous one. No handler runs and the application is not closed. |
| Lifecycle.GherkinTestGenerator.TearDown | src/sap.ui.core/src/sap/ui/test/gherkin/GherkinTestGenerator.js:173-178 | `closeApplication` is called once exactly when a context exists and a step ran in it and returned since the context was created. Tear-down fails exactly when that call throws; the context is then kept, and otherwise it is cleared. |
| Lifecycle.GherkinTestGenerator.Generate | src/sap.ui.core/src/sap/ui/test/gherkin/GherkinTestGenerator.js:187-192 | A context is created only when none exists; an existing one is kept. The result is the feature test of the feature and step definitions. |
| Lifecycle.GherkinTestGenerator.Execute | src/sap.ui.core/src/sap/ui/test/gherkin/GherkinTestGenerator.js:209-226 | Fails with NotGenerated when there is no context. Fails with InvalidTestStep when a step to run lacks a function or a parameter array. A skipped step returns false and changes nothing. A step that runs appends its handler call to the trace. When the handler returns, the result is true and the context is marked as needing tear-down. When the handler throws, the result is HandlerFailed and the context is left as it was. |
| Outline.OutlineByExamplesList | src/sap.ui.core/src/sap/ui/test/gherkin/GherkinTestGenerator.js:421-423 | A scenario is an outline exactly when it has an examples list. An empty list still makes it an outline, but one without active examples. |
| Outline.ActiveExamplesMeans | src/sap.ui.core/src/sap/ui/test/gherkin/GherkinTestGenerator.js:430-434 | An outline has active examples exactly when one of its tables is not tagged `@wip`. An outline whose tables are all `@wip` has none, and having active examples implies being an outline. |
| Outline.ConvertScenarioExamples | src/sap.ui.core/src/sap/ui/test/gherkin/GherkinTestGenerator.js:409-413 | One row object per data row: the header cells are paired by position with the row's cells, up to the shorter of the two. A flat cell is a one-cell row. |
| Outline.FlatExamples | src/sap.ui.core/src/sap/ui/test/gherkin/GherkinTestGenerator.js:411 | In a flat list of strings, the first string names the single column and each later string is one row's value. |
| Outline.OutlineVanishes | src/sap.ui.core/src/sap/ui/test/gherkin/GherkinTestGenerator.js:288-313 | An outline with active examples expands to no scenario exactly when none of its tables, `@wip` ones included, has a data row. |
| Outline.ExpansionPassThrough | src/sap.ui.core/src/sap/ui/test/gherkin/GherkinTestGenerator.js:276-282 | A plain scenario, or an outline without an active example table, expands to itself alone. |
| Outline.ExpansionOrderAndNaming | src/sap.ui.core/src/sap/ui/test/gherkin/GherkinTestGenerator.js:285-315 | There is one concrete scenario per data row over all tables, `@wip` tables included, in table-then-row order. Each is named outline name, then `": "` and the table name when it has one, then `" #"` and the 1-based row number, which restarts per table. Its steps are the outline's steps with that row substituted, and it keeps the outline's tags and examples. |
| Outline.ExpansionKeepsExamples | src/sap.ui.core/src/sap/ui/test/gherkin/GherkinTestGenerator.js:295 | Every concrete scenario keeps the outline's examples and tags, so it is still an outline with active examples. |
| Outline.ConcreteScenarioFields | src/sap.ui.core/src/sap/ui/test/gherkin/GherkinTestGenerator.js:295-307 | The copy made for row k of a table is named outline name, then `": "` and the table name when it has one, then `" #"` and k+1. It has the outline's steps with keywords kept and texts substituted with the row, and the outline's tags and examples. |
| Outline.SubstituteTextLiteral | src/sap.ui.core/src/sap/ui/test/gherkin/GherkinTestGenerator.js:300-307 | Step text containing no `<` is left unchanged by substitution. |
| Outline.SubstituteOneColumn | src/sap.ui.core/src/sap/ui/test/gherkin/GherkinTestGenerator.js:305-306 | For a one-column row whose column name holds no `<`, every `<column>` placeholder in the text is replaced by the row's value, and the pieces between placeholders are kept. A piece may hold `<` and other placeholders, as long as it does not hold this column's placeholder. |
| Outline.TemplateStep | src/sap.ui.core/src/sap/ui/test/gherkin/GherkinTestGenerator.js:300-306 | Replacing column m's placeholder turns exactly the holes of column m into its value. The literal pieces, the values already put in and the placeholders of the other columns are kept. |
| Outline.SubstituteColumns | src/sap.ui.core/src/sap/ui/test/gherkin/GherkinTestGenerator.js:300-307 | After the first m columns of the row, their placeholders hold their values and the placeholders of the later columns are untouched. |
| Outline.SubstituteWholeRow | src/sap.ui.core/src/sap/ui/test/gherkin/GherkinTestGenerator.js:300-307 | Substituting a whole row, of any number of columns, replaces every `<column>` placeholder by that column's value wherever it stands, and keeps the literal pieces between placeholders, `<` included. |
| Outline.SubstituteRow | src/sap.ui.core/src/sap/ui/test/gherkin/GherkinTestGenerator.js:300-307 | The column-by-column, step-by-step loop yields each step with the same keyword and its text substituted with every column of the row, in column order. |
| Outline.ExpandScenarioOutline | src/sap.ui.core/src/sap/ui/test/gherkin/GherkinTestGenerator.js:276-316 | The loop over tables and rows returns exactly the expansion that the lemmas above describe. |
| Text.ReplaceAllAbsent | src/sap.ui.core/src/sap/ui/test/gherkin/GherkinTestGenerator.js:306 | A text in which the placeholder does not occur is unchanged by the global replacement. |
| Text.ReplaceAllSkip | src/sap.ui.core/src/sap/ui/test/gherkin/GherkinTestGenerator.js:306 | Text in which the placeholder does not occur, followed by the placeholder, is copied, the placeholder becomes the value and the scan goes on after it. |
| Text.ReplaceAllJoin | src/sap.ui.core/src/sap/ui/test/gherkin/GherkinTestGenerator.js:306 | Pieces separated by a placeholder become the same pieces separated by the value, whenever the placeholder does not occur inside a piece. Every occurrence is replaced, and replaced text is not rescanned. |
| Text.ReplaceAllAtTag | src/sap.ui.core/src/sap/ui/test/gherkin/GherkinTestGenerator.js:306 | Text without `>` followed by the tag being replaced is copied, and the tag becomes the value. |
| Text.ReplaceAllPastTag | src/sap.ui.core/src/sap/ui/test/gherkin/GherkinTestGenerator.js:306 | Text without `>` followed by a different tag is copied, that tag included. |
| Text.DecimalRoundTrip | src/sap.ui.core/src/sap/ui/test/gherkin/GherkinTestGenerator.js:297 | The decimal numeral written for a row number reads back as that number. |
| Generation.GenerateTestStep | src/sap.ui.core/src/sap/ui/test/gherkin/GherkinTestGenerator.js:376-395 | One pass of the loop resolves the step; the alternate generator is used only when the matcher finds no match. Skipping is turned on iff it was on or the step is still unmatched. The step's `skip` becomes skipping or wip, and `"(SKIPPED) "` is prefixed exactly when the step matched and is skipped. |
| Generation.StickySkip | src/sap.ui.core/src/sap/ui/test/gherkin/GherkinTestGenerator.js:375-396 | Step i is the matcher's TestStep, or the alternate's when unmatched and an alternate exists. Its `skip` is on iff wip, or skipping came in on, or some step j ≤ i is unmatched. Its text gains `"(SKIPPED) "` exactly when it matched and is skipped. Its other fields, `isMatch` included, are unchanged. |
| Generation.UnmatchedSkipsRest | src/sap.ui.core/src/sap/ui/test/gherkin/GherkinTestGenerator.js:385-391 | An unmatched step stays unmatched, and it and every later step are skipped. |
| Generation.GenerateTestSteps | src/sap.ui.core/src/sap/ui/test/gherkin/GherkinTestGenerator.js:371-399 | The loop carrying the skipping flag yields exactly the test steps specified by `TestStepsOf`. |
| Generation.ScenarioNameDecodes | src/sap.ui.core/src/sap/ui/test/gherkin/GherkinTestGenerator.js:329-331 | The scenario test name starts with `"(WIP) "` iff the scenario is `@wip`. Next comes `"Scenario Outline: "` iff it is an outline. The name ends with the scenario's own name. |
| Generation.StartsSkippedMeans | src/sap.ui.core/src/sap/ui/test/gherkin/GherkinTestGenerator.js:333-344 | The scenario's own steps start skipped iff some background step is unmatched, or the scenario is an outline without active examples. |
| Generation.BackgroundStepSkip | src/sap.ui.core/src/sap/ui/test/gherkin/GherkinTestGenerator.js:335-338 | The test steps are the background's steps followed by the scenario's own. A background step is skipped iff the scenario is `@wip` or a background step up to it is unmatched. |
| Generation.OwnStepSkip | src/sap.ui.core/src/sap/ui/test/gherkin/GherkinTestGenerator.js:340-346 | The scenario's own step i is skipped iff any of the following holds: the scenario is `@wip`; the background fails; the scenario is an outline without active examples; one of its own steps up to i is unmatched. |
| Generation.BackgroundFailureSkipsScenario | src/sap.ui.core/src/sap/ui/test/gherkin/GherkinTestGenerator.js:335-346 | An unmatched background step skips every step of the scenario. |
| Generation.ExpandedScenarioRuns | src/sap.ui.core/src/sap/ui/test/gherkin/GherkinTestGenerator.js:288-297 | A concrete scenario of a non-`@wip` outline runs every step when the background does not fail and all its steps match. This holds even when its row comes from a `@wip` table. |
| Generation.GenerateTestScenario | src/sap.ui.core/src/sap/ui/test/gherkin/GherkinTestGenerator.js:328-353 | The method builds exactly the scenario test whose properties the lemmas above state. |
| Generation.ExpandAllAppend | src/sap.ui.core/src/sap/ui/test/gherkin/GherkinTestGenerator.js:237-240 | The concrete scenarios of a concatenation of scenarios are those of each part, in order. |
| Generation.EveryStepSkippedMeans | src/sap.ui.core/src/sap/ui/test/gherkin/GherkinTestGenerator.js:248-250 | The `every` walk over test steps is true iff each step is skipped. |
| Generation.EveryScenarioSkippedMeans | src/sap.ui.core/src/sap/ui/test/gherkin/GherkinTestGenerator.js:247-251 | The nested `every` walk is true iff every step of every scenario is skipped. An empty list counts as all skipped. |
| Generation.FeatureNameDecodes | src/sap.ui.core/src/sap/ui/test/gherkin/GherkinTestGenerator.js:255 | The feature test name starts with `"(WIP) "` iff the feature is `@wip` and ends with the feature's name. |
| Generation.FeatureRollUp | src/sap.ui.core/src/sap/ui/test/gherkin/GherkinTestGenerator.js:242-258 | `wip` is on iff the feature is tagged `@wip`. `skip` is on iff `wip`, or every step of every test scenario is skipped. There is one test scenario per concrete scenario, in order. |
| Generation.ExpandScenarios | src/sap.ui.core/src/sap/ui/test/gherkin/GherkinTestGenerator.js:237-240 | The `forEach`/`concat` loop collects each scenario's expansion, in order. |
| Generation.GenerateTestScenarios | src/sap.ui.core/src/sap/ui/test/gherkin/GherkinTestGenerator.js:242-244 | The `map` over concrete scenarios builds each one's test scenario with the feature's background. |
| Generation.GenerateFeatureTest | src/sap.ui.core/src/sap/ui/test/gherkin/GherkinTestGenerator.js:235-260 | The method builds exactly the feature test whose roll-up `FeatureRollUp` states. |
| Walkthrough.BuyCoffeeExpansion | src/sap.ui.core/src/sap/ui/test/gherkin/GherkinTestGenerator.js:288-307 | The "Buy coffee" outline with one `price` table expands to "Buy coffee #1" and "Buy coffee #2", with step texts "coffee costs $5" and "coffee costs $10". The literal step is kept. |
| Walkthrough.TwoColumnsSubstituted | src/sap.ui.core/src/sap/ui/test/gherkin/GherkinTestGenerator.js:300-307 | With the row a = 1, b = 2, the text `<a> and <b>` becomes `1 and 2`. |
| Walkthrough.TwoColumnsReordered | src/sap.ui.core/src/sap/ui/test/gherkin/GherkinTestGenerator.js:300-307 | With the same row, `<b> < <a>` becomes `2 < 1`: placeholders in any order are replaced, and a literal `<` is kept. |
| Walkthrough.TearDownAfterOneStep | src/sap.ui.core/src/sap/ui/test/gherkin/GherkinTestGenerator.js:219-223 | In a fresh context with one step run, tear-down closes the application once when the handler returned, and not at all when it threw. |
| Walkthrough.StepAfterFailedTearDown | src/sap.ui.core/src/sap/ui/test/gherkin/GherkinTestGenerator.js:173-178 | When `closeApplication` throws during tear-down, the context stays set, and a later step runs in it and returns `true` instead of failing for want of a context. |
| Walkthrough.UnknownStepSkipsNext | src/sap.ui.core/src/sap/ui/test/gherkin/GherkinTestGenerator.js:375-396 | An unknown first step stays unmatched, keeps its text and is skipped, and so is the step after it. |

## Left out

- Reading a feature file: a string argument to the constructor is parsed by the Gherkin parser. The parser is not part of this model, and the constructor takes a parsed `Feature`.
- The constructor's run-time type checks: invalid feature, invalid step-definitions constructor, non-function alternate generator. Typed parameters rule these inputs out.
- The `!oTestStep` check in `execute`: a `TestStep` value is never absent.
- Step matching inside the step definitions: regular expressions and parameter extraction.
  - The step-definitions source is not part of this model.
  - The matcher and the alternate generator are arbitrary function values of `StepDefinitions`.
  - Each new context's matcher is assumed to behave the same, so matching does not depend on the context instance.
- The example-table helper `dataTableUtils.toTable` is not part of this model. It is modelled as pairing the header with each data row by position, up to the shorter of the two.
- Outline.SubstituteWholeRow: covers texts made of literal pieces and placeholders of the row's columns, where the pieces and the values hold no `>` and the column names are distinct and hold neither `<` nor `>`. Outside these conditions, a value put in place, or a value next to a piece, can spell out a later column's placeholder, which the next replacement then also replaces. `SubstituteText` still models that case exactly, but no lemma describes its result.
- Outline.SubstituteRow: does not model JavaScript particulars of the substitution, because the model replaces text literally in header-column order.
  - `$&`, `$1` and similar patterns in a replacement value are not interpreted.
  - The column order of JavaScript object keys is not followed: integer-like names come first, and a repeated column name keeps its last value.
- Handler side effects and `closeApplication`: these are calls into code not shown. They appear only as the trace `invocations` and the counter `closeCount`. Whether a handler throws is a parameter of `Execute`, and whether `closeApplication` throws is a parameter of `TearDown`. The exceptions themselves are not modelled, only the `HandlerFailed` result and the `failed` flag that stand for them.
- Asynchronous work started by handlers.
- The file `src/sap.ui.rta/src/sap/ui/rta/command/ControlVariantSetTitle.js`: it is a UI command built on framework calls not shown here, and it has no part in test generation.
