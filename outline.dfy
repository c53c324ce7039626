/**
 * Scenario outline expansion: each data row of each "Examples:" table of an
 * outline becomes one concrete scenario whose step texts have the row's
 * values put in place of the `<column>` placeholders.
 */
module Outline {
  import opened GherkinModel
  import opened Text

  /** A scenario is an outline when it carries examples, even an empty list of them. */
  predicate IsScenarioOutline(sc: Scenario) {
    sc.examples.Some?
  }

  /** An example table not tagged "@wip" is active. */
  predicate IsActive(ex: Examples) {
    !IsWip(ex.tags)
  }

  /** An outline with at least one active example table. */
  predicate IsScenarioOutlineWithExamples(sc: Scenario) {
    && sc.examples.Some?
    && |sc.examples.value| != 0
    && exists i :: 0 <= i < |sc.examples.value| && IsActive(sc.examples.value[i])
  }

  /**
   * Carrying an examples list is what makes a scenario an outline: an empty
   * list still does, though such an outline has no active examples.
   */
  lemma OutlineByExamplesList(sc: Scenario)
    ensures IsScenarioOutline(sc) <==> sc.examples != None
    ensures sc.examples == Some([]) ==> IsScenarioOutline(sc) && !IsScenarioOutlineWithExamples(sc)
  {
  }

  /**
   * An outline has active examples exactly when one of its tables is not
   * tagged "@wip"; one whose tables are all "@wip" has none, and having
   * active examples implies being an outline.
   */
  lemma ActiveExamplesMeans(sc: Scenario)
    ensures IsScenarioOutlineWithExamples(sc) ==> IsScenarioOutline(sc)
    ensures IsScenarioOutlineWithExamples(sc) <==>
      sc.examples.Some? && exists ex :: ex in sc.examples.value && WipTag !in ex.tags
    ensures sc.examples.Some? && (forall i :: 0 <= i < |sc.examples.value| ==> IsWip(sc.examples.value[i].tags)) ==>
      !IsScenarioOutlineWithExamples(sc)
  {
  }

  /** A data row as an object: (column name, cell value) pairs in header-column order. */
  type RowObject = seq<(string, string)>

  /** A flat entry is a one-cell row. */
  function RowCells(r: ExampleRow): seq<string> {
    match r
    case Cell(c) => [c]
    case Cells(cs) => cs
  }

  function Min(a: nat, b: nat): nat {
    if a <= b then a else b
  }

  /** Pairs each header cell with the cell below it. */
  function Zip(header: seq<string>, row: seq<string>): seq<(string, string)> {
    seq(Min(|header|, |row|), c requires 0 <= c < Min(|header|, |row|) => (header[c], row[c]))
  }

  /** The first row names the columns; each later row becomes one row object. */
  function ToTable(rows: seq<seq<string>>): seq<RowObject> {
    if |rows| == 0 then []
    else seq(|rows| - 1, k requires 0 <= k < |rows| - 1 => Zip(rows[0], rows[k + 1]))
  }

  /**
   * The example table's data as a list of row objects; a flat list of cells
   * is read as a one-column table.
   */
  function ConvertScenarioExamples(data: seq<ExampleRow>): (r: seq<RowObject>)
    ensures |r| == if |data| == 0 then 0 else |data| - 1
    ensures forall k :: 0 <= k < |r| ==>
      |r[k]| == Min(|RowCells(data[0])|, |RowCells(data[k + 1])|)
    ensures forall k, c :: 0 <= k < |r| && 0 <= c < Min(|RowCells(data[0])|, |RowCells(data[k + 1])|) ==>
      r[k][c] == (RowCells(data[0])[c], RowCells(data[k + 1])[c])
  {
    ToTable(seq(|data|, i requires 0 <= i < |data| => RowCells(data[i])))
  }

  /** In a flat list of cells, the first cell names the single column and each later cell is a row. */
  lemma FlatExamples(data: seq<ExampleRow>, k: nat)
    requires forall i :: 0 <= i < |data| ==> data[i].Cell?
    requires k + 1 < |data|
    ensures ConvertScenarioExamples(data)[k] == [(data[0].cell, data[k + 1].cell)]
  {
    var r := ConvertScenarioExamples(data);
    assert |r[k]| == 1;
  }

  /** `<name>`, the placeholder a column name stands for in step text. */
  function Placeholder(name: string): (p: string)
    ensures p != [] && p[0] == '<' && |p| == |name| + 2
  {
    "<" + name + ">"
  }

  /** The text after replacing each column's placeholder by its value, column by column. */
  function SubstituteText(text: string, row: RowObject): string
    decreases |row|
  {
    if row == [] then text
    else
      var (name, value) := row[|row| - 1];
      ReplaceAll(SubstituteText(text, row[..|row| - 1]), Placeholder(name), value)
  }

  /** A step text without any '<' holds no placeholder and is left as it is. */
  lemma {:induction false} SubstituteTextLiteral(text: string, row: RowObject)
    requires '<' !in text
    ensures SubstituteText(text, row) == text
  {
    if row != [] {
      SubstituteTextLiteral(text, row[..|row| - 1]);
      ReplaceAllLiteral(text, "", Placeholder(row[|row| - 1].0), row[|row| - 1].1);
      assert text + "" == text;
    }
  }

  /**
   * With one column, every occurrence of its placeholder between pieces is
   * replaced by the row's value. The pieces may hold '<', even other
   * placeholders, as long as this column's placeholder is not inside one.
   */
  lemma SubstituteOneColumn(pieces: seq<string>, name: string, value: string)
    requires '<' !in name
    requires forall k :: 0 <= k < |pieces| ==> !Occurs(pieces[k], Placeholder(name))
    ensures SubstituteText(Join(pieces, Placeholder(name)), [(name, value)]) == Join(pieces, value)
  {
    var row := [(name, value)];
    assert row[..0] == [];
    var p := Placeholder(name);
    assert p[1..] == name + ">";
    ReplaceAllJoin(pieces, p, value);
  }

  /** A column name that holds neither '<' nor '>'. */
  predicate PlainName(name: string) {
    '<' !in name && '>' !in name
  }

  lemma PlaceholderIsTag(name: string)
    requires PlainName(name)
    ensures IsTag(Placeholder(name))
  {
    var p := Placeholder(name);
    forall k | 0 < k < |p| - 1
      ensures p[k] != '<' && p[k] != '>'
    {
      assert p[k] == name[k - 1];
      assert name[k - 1] in name;
    }
  }

  lemma PlaceholderInjective(a: string, b: string)
    requires a != b
    ensures Placeholder(a) != Placeholder(b)
  {
    assert Placeholder(a)[1..|a| + 1] == a;
    assert Placeholder(b)[1..|b| + 1] == b;
  }

  /**
   * Column names are plain and distinct, and no value holds '>', so a value
   * put into the text never completes a placeholder.
   */
  predicate DistinctPlainColumns(row: RowObject) {
    && (forall c :: 0 <= c < |row| ==> PlainName(row[c].0) && '>' !in row[c].1)
    && (forall c, d :: 0 <= c < d < |row| ==> row[c].0 != row[d].0)
  }

  /** lits[0] + fills[0] + lits[1] + ... + fills[n - 1] + lits[n]. */
  function Interleave(lits: seq<string>, fills: seq<string>): string
    requires |lits| == |fills| + 1
    decreases |fills|
  {
    if fills == [] then lits[0] else lits[0] + fills[0] + Interleave(lits[1..], fills[1..])
  }

  /** What stands for column c once columns 0 to m - 1 are substituted. */
  function Slot(row: RowObject, c: nat, m: nat): string
    requires c < |row|
  {
    if c < m then row[c].1 else Placeholder(row[c].0)
  }

  function Slots(row: RowObject, holes: seq<nat>, m: nat): (r: seq<string>)
    requires forall j :: 0 <= j < |holes| ==> holes[j] < |row|
    ensures |r| == |holes|
  {
    seq(|holes|, j requires 0 <= j < |holes| => Slot(row, holes[j], m))
  }

  lemma SlotsTail(row: RowObject, holes: seq<nat>, m: nat)
    requires holes != []
    requires forall j :: 0 <= j < |holes| ==> holes[j] < |row|
    ensures Slots(row, holes, m) == [Slot(row, holes[0], m)] + Slots(row, holes[1..], m)
  {
  }

  /**
   * A step text made of literal pieces, each free of '>', with a column of the
   * row in each hole between two pieces, after m columns are substituted.
   */
  function Template(lits: seq<string>, holes: seq<nat>, row: RowObject, m: nat): string
    requires |lits| == |holes| + 1
    requires forall j :: 0 <= j < |holes| ==> holes[j] < |row|
  {
    Interleave(lits, Slots(row, holes, m))
  }

  /** A template with the first piece split off. */
  lemma {:induction false} TemplateFront(lits: seq<string>, holes: seq<nat>, row: RowObject, m: nat)
    requires |lits| == |holes| + 1 && holes != []
    requires forall j :: 0 <= j < |holes| ==> holes[j] < |row|
    ensures Template(lits, holes, row, m)
         == lits[0] + Slot(row, holes[0], m) + Template(lits[1..], holes[1..], row, m)
  {
    SlotsTail(row, holes, m);
    assert Slots(row, holes, m)[1..] == Slots(row, holes[1..], m);
  }

  /** Every '>' of a template closes a placeholder, which starts with '<'. */
  lemma {:induction false} TemplateOpened(lits: seq<string>, holes: seq<nat>, row: RowObject, m: nat)
    requires |lits| == |holes| + 1
    requires forall j :: 0 <= j < |holes| ==> holes[j] < |row|
    requires forall j :: 0 <= j < |lits| ==> '>' !in lits[j]
    requires DistinctPlainColumns(row)
    ensures CloseOpened(Template(lits, holes, row, m))
    decreases |holes|
  {
    if holes == [] {
      CloseOpenedAfter(lits[0], "");
      assert lits[0] + "" == lits[0];
    } else {
      var c := holes[0];
      var rest := Template(lits[1..], holes[1..], row, m);
      TemplateFront(lits, holes, row, m);
      TemplateOpened(lits[1..], holes[1..], row, m);
      if c < m {
        CloseOpenedAfter(lits[0] + row[c].1, rest);
      } else {
        var q := Placeholder(row[c].0);
        OpenedByFirst(q + rest);
        CloseOpenedAfter(lits[0], q + rest);
        assert lits[0] + q + rest == lits[0] + (q + rest);
      }
    }
  }

  /**
   * Substituting column m replaces exactly the holes of column m by its
   * value: the literal pieces, the values already in place and the other
   * columns' placeholders are kept.
   */
  lemma {:induction false} TemplateStep(lits: seq<string>, holes: seq<nat>, row: RowObject, m: nat)
    requires |lits| == |holes| + 1 && m < |row|
    requires forall j :: 0 <= j < |holes| ==> holes[j] < |row|
    requires forall j :: 0 <= j < |lits| ==> '>' !in lits[j]
    requires DistinctPlainColumns(row)
    ensures ReplaceAll(Template(lits, holes, row, m), Placeholder(row[m].0), row[m].1)
         == Template(lits, holes, row, m + 1)
    decreases |holes|
  {
    var p, v := Placeholder(row[m].0), row[m].1;
    PlaceholderIsTag(row[m].0);
    if holes == [] {
      NoTagStartsIn(lits[0], "", p);
      ReplaceAllNoStart(lits[0], "", p, v);
      assert lits[0] + "" == lits[0];
    } else {
      var c := holes[0];
      var rest := Template(lits[1..], holes[1..], row, m);
      TemplateFront(lits, holes, row, m);
      TemplateFront(lits, holes, row, m + 1);
      TemplateStep(lits[1..], holes[1..], row, m);
      TemplateOpened(lits[1..], holes[1..], row, m);
      if c == m {
        ReplaceAllAtTag(lits[0], rest, p, v);
      } else if c < m {
        assert '>' !in lits[0] + row[c].1;
        ReplaceAllPastText(lits[0] + row[c].1, rest, p, v);
      } else {
        PlaceholderIsTag(row[c].0);
        PlaceholderInjective(row[c].0, row[m].0);
        ReplaceAllPastTag(lits[0], Placeholder(row[c].0), rest, p, v);
      }
    }
  }

  /** After the first m columns, their placeholders hold their values and the others are untouched. */
  lemma {:induction false} SubstituteColumns(lits: seq<string>, holes: seq<nat>, row: RowObject, m: nat)
    requires |lits| == |holes| + 1 && m <= |row|
    requires forall j :: 0 <= j < |holes| ==> holes[j] < |row|
    requires forall j :: 0 <= j < |lits| ==> '>' !in lits[j]
    requires DistinctPlainColumns(row)
    ensures SubstituteText(Template(lits, holes, row, 0), row[..m]) == Template(lits, holes, row, m)
  {
    if m == 0 {
      assert row[..0] == [];
    } else {
      SubstituteColumns(lits, holes, row, m - 1);
      assert row[..m][..m - 1] == row[..m - 1];
      assert row[..m][m - 1] == row[m - 1];
      TemplateStep(lits, holes, row, m - 1);
    }
  }

  /**
   * Substituting a whole row replaces every `<column>` placeholder of the
   * text by that column's value and keeps the literal pieces between them,
   * whatever the number of columns and in whatever order the placeholders
   * appear.
   */
  lemma SubstituteWholeRow(lits: seq<string>, holes: seq<nat>, row: RowObject)
    requires |lits| == |holes| + 1
    requires forall j :: 0 <= j < |holes| ==> holes[j] < |row|
    requires forall j :: 0 <= j < |lits| ==> '>' !in lits[j]
    requires DistinctPlainColumns(row)
    ensures SubstituteText(
              Interleave(lits, seq(|holes|, j requires 0 <= j < |holes| => Placeholder(row[holes[j]].0))), row)
         == Interleave(lits, seq(|holes|, j requires 0 <= j < |holes| => row[holes[j]].1))
  {
    SubstituteColumns(lits, holes, row, |row|);
    assert row[..|row|] == row;
    SlotsAtEnds(row, holes);
  }

  /** Before any column, every slot is its placeholder; after all of them, its value. */
  lemma SlotsAtEnds(row: RowObject, holes: seq<nat>)
    requires forall j :: 0 <= j < |holes| ==> holes[j] < |row|
    ensures Slots(row, holes, 0) == seq(|holes|, j requires 0 <= j < |holes| => Placeholder(row[holes[j]].0))
    ensures Slots(row, holes, |row|) == seq(|holes|, j requires 0 <= j < |holes| => row[holes[j]].1)
  {
  }

  function SubstituteSteps(steps: seq<Step>, row: RowObject): (r: seq<Step>)
    ensures |r| == |steps|
    ensures forall j :: 0 <= j < |steps| ==>
      r[j].keyword == steps[j].keyword && r[j].text == SubstituteText(steps[j].text, row)
  {
    seq(|steps|, j requires 0 <= j < |steps| => Step(steps[j].keyword, SubstituteText(steps[j].text, row)))
  }

  /** What is appended to the outline's name for data row k (0-based) of an example table. */
  function ExampleSuffix(ex: Examples, k: nat): string {
    (if ex.name != "" then ": " + ex.name else "") + " #" + NatToString(k + 1)
  }

  /** The concrete scenario for data row k of example table ex: a copy of sc, renamed and substituted. */
  function ConcreteScenario(sc: Scenario, ex: Examples, k: nat, row: RowObject): Scenario {
    sc.(name := sc.name + ExampleSuffix(ex, k), steps := SubstituteSteps(sc.steps, row))
  }

  function TableScenarios(sc: Scenario, ex: Examples): (r: seq<Scenario>)
    ensures |r| == |ConvertScenarioExamples(ex.data)|
  {
    var rows := ConvertScenarioExamples(ex.data);
    seq(|rows|, k requires 0 <= k < |rows| => ConcreteScenario(sc, ex, k, rows[k]))
  }

  /** Total number of data rows over the example tables. */
  function RowCount(tables: seq<Examples>): nat
    decreases |tables|
  {
    if tables == [] then 0
    else RowCount(tables[..|tables| - 1]) + |ConvertScenarioExamples(tables[|tables| - 1].data)|
  }

  function TablesScenarios(sc: Scenario, tables: seq<Examples>): (r: seq<Scenario>)
    ensures |r| == RowCount(tables)
    decreases |tables|
  {
    if tables == [] then []
    else TablesScenarios(sc, tables[..|tables| - 1]) + TableScenarios(sc, tables[|tables| - 1])
  }

  /** No rows at all exactly when no table has a data row below its header. */
  lemma {:induction false} RowCountZero(tables: seq<Examples>)
    ensures RowCount(tables) == 0 <==> forall i :: 0 <= i < |tables| ==> |tables[i].data| <= 1
    decreases |tables|
  {
    if tables != [] {
      var init := tables[..|tables| - 1];
      RowCountZero(init);
      assert forall i :: 0 <= i < |init| ==> init[i] == tables[i];
    }
  }

  /**
   * The scenarios an outline stands for. A scenario that is not an outline,
   * or an outline without an active table, stands for itself.
   */
  function Expansion(sc: Scenario): seq<Scenario> {
    if !IsScenarioOutlineWithExamples(sc) then [sc] else TablesScenarios(sc, sc.examples.value)
  }

  /** The concrete scenario of row k of table ti sits at the rows of the earlier tables plus k. */
  lemma {:induction false} TablesScenariosAt(sc: Scenario, tables: seq<Examples>, ti: nat, k: nat)
    requires ti < |tables|
    requires k < |ConvertScenarioExamples(tables[ti].data)|
    ensures RowCount(tables[..ti]) + k < |TablesScenarios(sc, tables)|
    ensures TablesScenarios(sc, tables)[RowCount(tables[..ti]) + k]
         == ConcreteScenario(sc, tables[ti], k, ConvertScenarioExamples(tables[ti].data)[k])
    decreases |tables|
  {
    var n := |tables|;
    var front := tables[..n - 1];
    var earlier := TablesScenarios(sc, front);
    assert TablesScenarios(sc, tables) == earlier + TableScenarios(sc, tables[n - 1]);
    if ti == n - 1 {
      assert front == tables[..ti];
    } else {
      assert front[..ti] == tables[..ti] && front[ti] == tables[ti];
      TablesScenariosAt(sc, front, ti, k);
    }
  }

  /**
   * An outline with active examples disappears from the plan exactly when
   * none of its tables, "@wip" ones included, has a data row.
   */
  lemma OutlineVanishes(sc: Scenario)
    requires IsScenarioOutlineWithExamples(sc)
    ensures Expansion(sc) == [] <==>
      forall i :: 0 <= i < |sc.examples.value| ==> |sc.examples.value[i].data| <= 1
  {
    RowCountZero(sc.examples.value);
  }

  /** An outline that is not expanded, or a plain scenario, is passed through unchanged. */
  lemma ExpansionPassThrough(sc: Scenario)
    requires !IsScenarioOutlineWithExamples(sc)
    ensures Expansion(sc) == [sc]
  {
  }

  /**
   * An outline with an active table yields one scenario per data row of every
   * table ("@wip" tables included), in table-then-row order; the scenario for
   * row k of table ti carries the outline's name, the table's name if it has
   * one and the 1-based row number, the outline's steps with that row's values
   * substituted, and the outline's tags and examples.
   */
  lemma ExpansionOrderAndNaming(sc: Scenario, ti: nat, k: nat)
    requires IsScenarioOutlineWithExamples(sc)
    requires ti < |sc.examples.value|
    requires k < |ConvertScenarioExamples(sc.examples.value[ti].data)|
    ensures |Expansion(sc)| == RowCount(sc.examples.value)
    ensures RowCount(sc.examples.value[..ti]) + k < |Expansion(sc)|
    ensures
      var tables := sc.examples.value;
      var c := Expansion(sc)[RowCount(tables[..ti]) + k];
      var row := ConvertScenarioExamples(tables[ti].data)[k];
      && c.name == sc.name + (if tables[ti].name != "" then ": " + tables[ti].name else "")
                           + " #" + NatToString(k + 1)
      && |c.steps| == |sc.steps|
      && (forall j :: 0 <= j < |sc.steps| ==>
            c.steps[j] == Step(sc.steps[j].keyword, SubstituteText(sc.steps[j].text, row)))
      && c.tags == sc.tags
      && c.examples == sc.examples
  {
    var tables := sc.examples.value;
    var row := ConvertScenarioExamples(tables[ti].data)[k];
    TablesScenariosAt(sc, tables, ti, k);
    var c := Expansion(sc)[RowCount(tables[..ti]) + k];
    assert c == ConcreteScenario(sc, tables[ti], k, row);
    ConcreteScenarioFields(sc, tables[ti], k, row);
  }

  lemma ConcreteScenarioFields(sc: Scenario, ex: Examples, k: nat, row: RowObject)
    ensures
      var c := ConcreteScenario(sc, ex, k, row);
      && c.name == sc.name + (if ex.name != "" then ": " + ex.name else "") + " #" + NatToString(k + 1)
      && |c.steps| == |sc.steps|
      && (forall j :: 0 <= j < |sc.steps| ==>
            c.steps[j] == Step(sc.steps[j].keyword, SubstituteText(sc.steps[j].text, row)))
      && c.tags == sc.tags
      && c.examples == sc.examples
  {
    var steps := SubstituteSteps(sc.steps, row);
    assert ConcreteScenario(sc, ex, k, row).steps == steps;
  }

  /** Every concrete scenario keeps the outline's examples, so it is still an outline with active examples. */
  lemma ExpansionKeepsExamples(sc: Scenario, i: nat)
    requires IsScenarioOutlineWithExamples(sc)
    requires i < |Expansion(sc)|
    ensures Expansion(sc)[i].examples == sc.examples
    ensures Expansion(sc)[i].tags == sc.tags
    ensures IsScenarioOutlineWithExamples(Expansion(sc)[i])
  {
    TablesKeepExamples(sc, sc.examples.value, i);
  }

  lemma {:induction false} TablesKeepExamples(sc: Scenario, tables: seq<Examples>, i: nat)
    requires i < |TablesScenarios(sc, tables)|
    ensures TablesScenarios(sc, tables)[i].examples == sc.examples
    ensures TablesScenarios(sc, tables)[i].tags == sc.tags
    decreases |tables|
  {
    var front := TablesScenarios(sc, tables[..|tables| - 1]);
    if i < |front| {
      TablesKeepExamples(sc, tables[..|tables| - 1], i);
    }
  }

  /** The copies of the steps for one data row, made column by column and step by step. */
  method SubstituteRow(steps: seq<Step>, row: RowObject) returns (r: seq<Step>)
    ensures r == SubstituteSteps(steps, row)
  {
    r := steps;
    for c := 0 to |row|
      invariant |r| == |steps|
      invariant forall j :: 0 <= j < |steps| ==>
        r[j] == Step(steps[j].keyword, SubstituteText(steps[j].text, row[..c]))
    {
      var (name, value) := row[c];
      assert row[..c + 1][..c] == row[..c];
      for j := 0 to |r|
        invariant |r| == |steps|
        invariant forall j' :: 0 <= j' < j ==>
          r[j'] == Step(steps[j'].keyword, SubstituteText(steps[j'].text, row[..c + 1]))
        invariant forall j' :: j <= j' < |steps| ==>
          r[j'] == Step(steps[j'].keyword, SubstituteText(steps[j'].text, row[..c]))
      {
        r := r[j := r[j].(text := ReplaceAll(r[j].text, Placeholder(name), value))];
      }
    }
    assert row[..|row|] == row;
  }

  /** Expands a scenario outline into its concrete scenarios, table by table and row by row. */
  method ExpandScenarioOutline(sc: Scenario) returns (concrete: seq<Scenario>)
    ensures concrete == Expansion(sc)
  {
    if !IsScenarioOutlineWithExamples(sc) {
      return [sc];
    }
    var tables := sc.examples.value;
    concrete := [];
    for i := 0 to |tables|
      invariant concrete == TablesScenarios(sc, tables[..i])
    {
      var example := tables[i];
      var rows := ConvertScenarioExamples(example.data);
      var fromTable := [];
      for k := 0 to |rows|
        invariant fromTable == TableScenarios(sc, example)[..k]
      {
        var steps := SubstituteRow(sc.steps, rows[k]);
        var copy := sc.(name := sc.name + ExampleSuffix(example, k), steps := steps);
        fromTable := fromTable + [copy];
      }
      concrete := concrete + fromTable;
      assert tables[..i + 1][..i] == tables[..i];
    }
    assert tables[..|tables|] == tables;
  }
}
