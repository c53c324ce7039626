/**
 * Small worked cases: a one-column scenario outline with two data rows, step
 * texts substituted with a two-column row, a scenario whose first step has no
 * step definition, and a context whose only step throws.
 */
module Walkthrough {
  import opened GherkinModel
  import opened Text
  import opened Outline
  import opened Generation
  import opened Lifecycle

  function BuyCoffee(): Scenario {
    Scenario(
      "Buy coffee", [],
      [Step("Given ", "coffee costs $<price>"), Step("Then ", "I should be served coffee")],
      Some([Examples("", [], [Cells(["price"]), Cells(["5"]), Cells(["10"])])]))
  }

  /** The one-column table reads as two row objects binding "price". */
  lemma BuyCoffeeRows()
    ensures ConvertScenarioExamples(BuyCoffee().examples.value[0].data) == [[("price", "5")], [("price", "10")]]
  {
    var data := BuyCoffee().examples.value[0].data;
    var r := ConvertScenarioExamples(data);
    assert RowCells(data[0]) == ["price"] && RowCells(data[1]) == ["5"] && RowCells(data[2]) == ["10"];
    assert |r| == 2 && |r[0]| == 1 && |r[1]| == 1;
    assert r[0][0] == ("price", "5") && r[1][0] == ("price", "10");
    assert r[0] == [("price", "5")] && r[1] == [("price", "10")];
  }

  lemma CoffeeName(k: nat)
    requires k < 2
    ensures
      var sc := BuyCoffee();
      sc.name + ExampleSuffix(sc.examples.value[0], k) == (if k == 0 then "Buy coffee #1" else "Buy coffee #2")
  {
    assert DigitChar(1) == '1' && DigitChar(2) == '2';
    assert NatToString(1) == "1" && NatToString(2) == "2";
  }

  lemma ServedIsLiteral(row: RowObject)
    ensures SubstituteText("I should be served coffee", row) == "I should be served coffee"
  {
    var text := "I should be served coffee";
    assert forall k :: 0 <= k < |text| ==> text[k] != '<';
    SubstituteTextLiteral(text, row);
  }

  lemma PriceSubstituted()
    ensures SubstituteText("coffee costs $<price>", [("price", "5")]) == "coffee costs $5"
    ensures SubstituteText("coffee costs $<price>", [("price", "10")]) == "coffee costs $10"
  {
    var pieces := ["coffee costs $", ""];
    assert Join(pieces, Placeholder("price")) == "coffee costs $<price>";
    assert Join(pieces, "5") == "coffee costs $5";
    assert Join(pieces, "10") == "coffee costs $10";
    assert '<' !in pieces[0] && '<' !in pieces[1];
    FirstCharAbsent(pieces[0], Placeholder("price"));
    FirstCharAbsent(pieces[1], Placeholder("price"));
    SubstituteOneColumn(pieces, "price", "5");
    SubstituteOneColumn(pieces, "price", "10");
  }

  /** A text of two placeholders around a literal piece, for any row that has both columns. */
  lemma SubstituteTwoHoles(mid: string, row: RowObject, h0: nat, h1: nat)
    requires h0 < |row| && h1 < |row| && '>' !in mid
    requires DistinctPlainColumns(row)
    ensures SubstituteText(Placeholder(row[h0].0) + mid + Placeholder(row[h1].0), row)
         == row[h0].1 + mid + row[h1].1
  {
    var lits, holes := ["", mid, ""], [h0, h1];
    assert forall j :: 0 <= j < |lits| ==> '>' !in lits[j];
    SubstituteWholeRow(lits, holes, row);
    var before := seq(|holes|, j requires 0 <= j < |holes| => Placeholder(row[holes[j]].0));
    var after := seq(|holes|, j requires 0 <= j < |holes| => row[holes[j]].1);
    assert before == [Placeholder(row[h0].0), Placeholder(row[h1].0)];
    assert after == [row[h0].1, row[h1].1];
    InterleaveTwo(mid, Placeholder(row[h0].0), Placeholder(row[h1].0));
    InterleaveTwo(mid, row[h0].1, row[h1].1);
  }

  lemma InterleaveTwo(mid: string, f0: string, f1: string)
    ensures Interleave(["", mid, ""], [f0, f1]) == f0 + mid + f1
  {
    var lits, fills := ["", mid, ""], [f0, f1];
    assert lits[1..] == [mid, ""] && fills[1..] == [f1];
    assert [mid, ""][1..] == [""] && [f1][1..] == [];
    assert Interleave([""], []) == "";
    assert Interleave([mid, ""], [f1]) == mid + f1 + "";
    assert Interleave(lits, fills) == "" + f0 + (mid + f1 + "");
    assert mid + f1 + "" == mid + f1;
    assert "" + f0 == f0;
  }

  /** The row a = 1, b = 2 has plain, distinct column names and no '>' in its values. */
  lemma RowAB()
    ensures DistinctPlainColumns([("a", "1"), ("b", "2")])
    ensures Placeholder("a") == "<a>" && Placeholder("b") == "<b>"
  {
  }

  /** With two columns, each placeholder gets its own column's value. */
  lemma TwoColumnsSubstituted()
    ensures SubstituteText("<a> and <b>", [("a", "1"), ("b", "2")]) == "1 and 2"
  {
    RowAB();
    SubstituteTwoHoles(" and ", [("a", "1"), ("b", "2")], 0, 1);
    assert "<a>" + " and " + "<b>" == "<a> and <b>";
    assert "1" + " and " + "2" == "1 and 2";
  }

  /** Placeholders in the reverse of column order, around a literal '<' that is kept. */
  lemma TwoColumnsReordered()
    ensures SubstituteText("<b> < <a>", [("a", "1"), ("b", "2")]) == "2 < 1"
  {
    RowAB();
    SubstituteTwoHoles(" < ", [("a", "1"), ("b", "2")], 1, 0);
    assert "<b>" + " < " + "<a>" == "<b> < <a>";
    assert "2" + " < " + "1" == "2 < 1";
  }

  /** The expansion has two scenarios; data row k of the table is scenario k. */
  lemma BuyCoffeeRow(k: nat)
    requires k < 2
    ensures
      var sc := BuyCoffee();
      var r := Expansion(sc);
      && |r| == 2
      && r[k].name == sc.name + ExampleSuffix(sc.examples.value[0], k)
      && r[k].steps[0].text == SubstituteText(sc.steps[0].text, [("price", if k == 0 then "5" else "10")])
      && r[k].steps[1].text == SubstituteText(sc.steps[1].text, [("price", if k == 0 then "5" else "10")])
  {
    var sc := BuyCoffee();
    var tables := sc.examples.value;
    assert IsActive(tables[0]);
    assert tables[..0] == [];
    assert RowCount(tables[..0]) == 0;
    BuyCoffeeRows();
    ExpansionOrderAndNaming(sc, 0, k);
  }

  /** The outline becomes "Buy coffee #1" and "Buy coffee #2" with the prices put in. */
  lemma BuyCoffeeExpansion()
    ensures
      var r := Expansion(BuyCoffee());
      && |r| == 2
      && r[0].name == "Buy coffee #1" && r[1].name == "Buy coffee #2"
      && r[0].steps[0].text == "coffee costs $5" && r[1].steps[0].text == "coffee costs $10"
      && r[0].steps[1].text == "I should be served coffee" && r[1].steps[1].text == "I should be served coffee"
  {
    BuyCoffeeRow(0);
    BuyCoffeeRow(1);
    CoffeeName(0);
    CoffeeName(1);
    PriceSubstituted();
    ServedIsLiteral([("price", "5")]);
    ServedIsLiteral([("price", "10")]);
  }

  /**
   * With no step definition for "an unknown step" and no alternate generator,
   * that step keeps its text and is unmatched; it and the step after
   * it are skipped.
   */
  lemma UnknownStepSkipsNext(defs: StepDefinitions, known: Step)
    requires defs.alternate.None?
    requires defs.generateTestStep(Step("Given ", "an unknown step"))
             == TestStep(false, false, "an unknown step", None, Some([]), None)
    ensures
      var r := TestStepsOf(defs, false, [Step("Given ", "an unknown step"), known], false);
      && r[0] == TestStep(false, true, "an unknown step", None, Some([]), None)
      && r[1].skip
  {
    var steps := [Step("Given ", "an unknown step"), known];
    StickySkip(defs, false, steps, false, 0);
    UnmatchedSkipsRest(defs, false, steps, false, 0, 1);
  }

  /**
   * A fresh context in which one step runs: tear-down closes the application
   * when the step's handler returned, and leaves it open when the handler
   * threw, since the context was then never marked as needing tear-down.
   */
  method TearDownAfterOneStep(feature: Feature, defs: StepDefinitions, step: TestStep, throws: bool)
    returns (closed: nat)
    requires !step.skip && step.func.Some? && step.parameters.Some?
    ensures closed == if throws then 0 else 1
  {
    var generator := new GherkinTestGenerator(feature, defs);
    generator.SetUp();
    var r := generator.Execute(step, throws);
    var failed := generator.TearDown(false);
    closed := generator.closeCount;
  }

  /**
   * When `closeApplication` throws, tear-down leaves the context in place, so
   * a later step still runs in it instead of failing with `NotGenerated`.
   */
  method StepAfterFailedTearDown(feature: Feature, defs: StepDefinitions, step: TestStep)
    returns (failed: bool, r: Result<bool, ExecuteError>)
    requires !step.skip && step.func.Some? && step.parameters.Some?
    ensures failed && r == Ok(true)
  {
    var generator := new GherkinTestGenerator(feature, defs);
    generator.SetUp();
    var first := generator.Execute(step, false);
    failed := generator.TearDown(true);
    r := generator.Execute(step, false);
  }
}
