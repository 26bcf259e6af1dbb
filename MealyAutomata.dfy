/** Automata/MealyAutomata.h: a Mealy machine as its state columns and its
    transition table, and the text its ExportToCsv writes. */
module Mealy {
  import opened Transitions
  import opened CsvText

  /** One row of the table: an input symbol and, per state column, the
      transition taken on that symbol. */
  type MealyRow = (string, seq<Transition>)

  /** The rows in table order (a std::list of pairs in the source). */
  type MealyTransitionTable = seq<MealyRow>

  /** One transition as written: `;next/output`. */
  function TransitionField(t: Transition): string
  {
    ";" + t.nextState + "/" + t.outputSymbol
  }

  /** The transitions of a row as written, in order. */
  function TransitionFields(ts: seq<Transition>): string
    decreases |ts|
  {
    if ts == [] then ""
    else TransitionFields(ts[..|ts| - 1]) + TransitionField(ts[|ts| - 1])
  }

  /** A table row as written: the input symbol, then its transitions. */
  function RowLine(row: MealyRow): string
  {
    row.0 + TransitionFields(row.1)
  }

  /** The rows as written, each followed by a newline. */
  function RowsText(table: MealyTransitionTable): string
    decreases |table|
  {
    if table == [] then ""
    else RowsText(table[..|table| - 1]) + RowLine(table[|table| - 1]) + "\n"
  }

  /** The text ExportToCsv writes: the header line `;state` per state, then
      the rows. */
  function Csv(states: seq<string>, table: MealyTransitionTable): string
  {
    Fields(states) + "\n" + RowsText(table)
  }

  /** No state name, input symbol, destination or output holds a line break. */
  predicate FieldsOnOneLine(states: seq<string>, table: MealyTransitionTable)
  {
    && (forall i :: 0 <= i < |states| ==> NoNewline(states[i]))
    && (forall r :: 0 <= r < |table| ==> NoNewline(table[r].0))
    && (forall r, j :: 0 <= r < |table| && 0 <= j < |table[r].1| ==>
          NoNewline(table[r].1[j].nextState) && NoNewline(table[r].1[j].outputSymbol))
  }

  class MealyAutomata {
    const states: seq<string>
    const transitionTable: MealyTransitionTable

    constructor (states: seq<string>, table: MealyTransitionTable)
      ensures GetStates() == states && GetTransitionTable() == table
    {
      this.states := states;
      this.transitionTable := table;
    }

    function GetTransitionTable(): MealyTransitionTable
    {
      transitionTable
    }

    function GetStates(): seq<string>
    {
      states
    }

    /** The input symbols: the row labels, one per row, in row order. */
    method GetInputSymbols() returns (inputSymbols: seq<string>)
      ensures |inputSymbols| == |transitionTable|
      ensures forall i :: 0 <= i < |transitionTable| ==> inputSymbols[i] == transitionTable[i].0
    {
      inputSymbols := [];
      for i := 0 to |transitionTable|
        invariant |inputSymbols| == i
        invariant forall k :: 0 <= k < i ==> inputSymbols[k] == transitionTable[k].0
      {
        inputSymbols := inputSymbols + [transitionTable[i].0];
      }
    }

    /** The text written to the file: the header `;state` per state, then
        per row its input symbol and `;next/output` per transition, each
        line ended by a newline. */
    method ExportToCsv() returns (text: string)
      ensures text == Csv(states, transitionTable)
    {
      text := "";
      for i := 0 to |states|
        invariant text == Fields(states[..i])
      {
        FieldsSnoc(states, i);
        text := text + ";" + states[i];
      }
      text := text + "\n";
      assert states[..|states|] == states;
      ghost var header := text;

      for r := 0 to |transitionTable|
        invariant text == header + RowsText(transitionTable[..r])
      {
        var row := transitionTable[r];
        ghost var before := text;
        text := text + row.0;
        ghost var mid := text;
        for j := 0 to |row.1|
          invariant text == mid + TransitionFields(row.1[..j])
        {
          var t := row.1[j];
          assert text + ";" + t.nextState + "/" + t.outputSymbol == mid + TransitionFields(row.1[..j + 1]) by {
            TransitionFieldsSnoc(row.1, j);
            Concat3(mid, TransitionFields(row.1[..j]), ";" + t.nextState, "/" + t.outputSymbol);
          }
          text := text + ";" + t.nextState + "/" + t.outputSymbol;
        }
        assert text + "\n" == header + RowsText(transitionTable[..r + 1]) by {
          assert row.1[..|row.1|] == row.1;
          RowsTextSnoc(transitionTable, r);
          Concat3(header, RowsText(transitionTable[..r]), RowLine(row), "\n");
          Regroup(before, row.0, TransitionFields(row.1));
        }
        text := text + "\n";
      }
      assert transitionTable[..|transitionTable|] == transitionTable;
    }
  }

  /** Writing one more transition extends the row's text. */
  lemma TransitionFieldsSnoc(ts: seq<Transition>, j: nat)
    requires j < |ts|
    ensures TransitionFields(ts[..j + 1]) == TransitionFields(ts[..j]) + TransitionField(ts[j])
  {
    assert ts[..j + 1][..j] == ts[..j];
  }

  /** Writing one more row extends the rows' text by that row's line. */
  lemma RowsTextSnoc(table: MealyTransitionTable, r: nat)
    requires r < |table|
    ensures RowsText(table[..r + 1]) == RowsText(table[..r]) + RowLine(table[r]) + "\n"
  {
    assert table[..r + 1][..r] == table[..r];
  }

  /** Regrouping a text written in four pieces. */
  lemma Concat3(a: string, b: string, c: string, d: string)
    ensures (a + b) + c + d == a + (b + (c + d))
    ensures ((a + b) + c) + d == (a + b) + (c + d)
  {
  }

  /** The rows' text is their lines joined. */
  lemma {:induction false} RowsTextLines(table: MealyTransitionTable)
    ensures RowsText(table) == JoinLines(seq(|table|, i requires 0 <= i < |table| => RowLine(table[i])))
    decreases |table|
  {
    if table != [] {
      var init := table[..|table| - 1];
      RowsTextLines(init);
      var lines := seq(|table|, i requires 0 <= i < |table| => RowLine(table[i]));
      assert lines[..|lines| - 1] == seq(|init|, i requires 0 <= i < |init| => RowLine(init[i]));
    }
  }

  /** The export has exactly one line more than the table has rows: the
      first line is `;state` for each state in order, and line r + 1 is row
      r's input symbol followed by `;next/output` for each of its
      transitions in order. */
  lemma CsvLayout(states: seq<string>, table: MealyTransitionTable)
    requires FieldsOnOneLine(states, table)
    ensures |SplitLines(Csv(states, table))| == 1 + |table|
    ensures SplitLines(Csv(states, table))[0] == Fields(states)
    ensures forall r :: 0 <= r < |table| ==>
              SplitLines(Csv(states, table))[r + 1] == table[r].0 + TransitionFields(table[r].1)
  {
    var rows := seq(|table|, i requires 0 <= i < |table| => RowLine(table[i]));
    forall i | 0 <= i < |rows|
      ensures NoNewline(rows[i])
    {
      TransitionFieldsOnOneLine(table[i].1);
    }
    RowsTextLines(table);
    SplitJoinLines(rows);
    SplitOneLine(Fields(states));
    SplitLinesAppend(Fields(states) + "\n", RowsText(table));
  }

  lemma {:induction false} TransitionFieldsOnOneLine(ts: seq<Transition>)
    requires forall j :: 0 <= j < |ts| ==> NoNewline(ts[j].nextState) && NoNewline(ts[j].outputSymbol)
    ensures NoNewline(TransitionFields(ts))
    decreases |ts|
  {
    if ts != [] {
      TransitionFieldsOnOneLine(ts[..|ts| - 1]);
    }
  }
}
