/** Automata/MooreAutomata.h: a Moore machine as its input symbols, its
    states with their outputs, and its transition table, and the text its
    ExportToCsv writes. */
module Moore {
  import opened Transitions
  import opened CsvText

  /** One row of the table: an input symbol and, per state column, the
      state reached on that symbol. */
  type MooreRow = (string, seq<string>)

  /** The rows in table order (a std::list of pairs in the source). */
  type MooreTransitionTable = seq<MooreRow>

  /** Each state paired with the output it emits. */
  type MooreStatesInfo = seq<(string, string)>

  /** The states of a statesInfo list, in order. */
  function Names(info: MooreStatesInfo): seq<string>
  {
    seq(|info|, i requires 0 <= i < |info| => info[i].0)
  }

  /** The outputs of a statesInfo list, in order. */
  function Outputs(info: MooreStatesInfo): seq<string>
  {
    seq(|info|, i requires 0 <= i < |info| => info[i].1)
  }

  /** What is written for the rows labelled `symbol`: for each such row, in
      table order, `;dest` per destination and then a newline. */
  function MatchingRows(symbol: string, table: MooreTransitionTable): string
    decreases |table|
  {
    if table == [] then ""
    else
      var row := table[|table| - 1];
      MatchingRows(symbol, table[..|table| - 1])
        + (if row.0 == symbol then Fields(row.1) + "\n" else "")
  }

  /** What is written after the two header lines: for each input symbol in
      order, the symbol itself and then the rows labelled with it. */
  function InputBlocks(inputs: seq<string>, table: MooreTransitionTable): string
    decreases |inputs|
  {
    if inputs == [] then ""
    else
      var symbol := inputs[|inputs| - 1];
      InputBlocks(inputs[..|inputs| - 1], table) + symbol + MatchingRows(symbol, table)
  }

  /** The text ExportToCsv writes: `;output` per state, `;state` per state,
      each of these two lines ended by a newline, then the input blocks. */
  function Csv(inputs: seq<string>, info: MooreStatesInfo, table: MooreTransitionTable): string
  {
    Fields(Outputs(info)) + "\n" + Fields(Names(info)) + "\n" + InputBlocks(inputs, table)
  }

  class MooreAutomata {
    const inputSymbols: seq<string>
    /** Declared next to the others but never given a value. */
    const outputSymbols: seq<string> := []
    const statesInfo: MooreStatesInfo
    const transitionTable: MooreTransitionTable

    constructor (inputSymbols: seq<string>, statesInfo: MooreStatesInfo, transitionTable: MooreTransitionTable)
      ensures GetInputSymbols() == inputSymbols
      ensures GetStatesInfo() == statesInfo
      ensures GetTransitionTable() == transitionTable
    {
      this.inputSymbols := inputSymbols;
      this.statesInfo := statesInfo;
      this.transitionTable := transitionTable;
    }

    function GetInputSymbols(): seq<string>
    {
      inputSymbols
    }

    /** The output-symbol list is never filled in, so it is always empty. */
    function GetOutputSymbols(): (r: seq<string>)
      ensures r == []
    {
      outputSymbols
    }

    function GetStatesInfo(): MooreStatesInfo
    {
      statesInfo
    }

    function GetTransitionTable(): MooreTransitionTable
    {
      transitionTable
    }

    /** The text written to the file. */
    method ExportToCsv() returns (text: string)
      ensures text == Csv(inputSymbols, statesInfo, transitionTable)
    {
      var statesStr, outputSymbolsStr := "", "";
      for i := 0 to |statesInfo|
        invariant outputSymbolsStr == Fields(Outputs(statesInfo)[..i])
        invariant statesStr == Fields(Names(statesInfo)[..i])
      {
        FieldsSnoc(Outputs(statesInfo), i);
        FieldsSnoc(Names(statesInfo), i);
        outputSymbolsStr := outputSymbolsStr + ";" + statesInfo[i].1;
        statesStr := statesStr + ";" + statesInfo[i].0;
      }
      outputSymbolsStr := outputSymbolsStr + "\n";
      statesStr := statesStr + "\n";

      text := outputSymbolsStr;
      text := text + statesStr;
      ghost var header := text;
      assert header == Fields(Outputs(statesInfo)) + "\n" + Fields(Names(statesInfo)) + "\n" by {
        assert Outputs(statesInfo)[..|statesInfo|] == Outputs(statesInfo);
        assert Names(statesInfo)[..|statesInfo|] == Names(statesInfo);
      }
      assert text == header + InputBlocks(inputSymbols[..0], transitionTable) by {
        assert inputSymbols[..0] == [];
      }

      for k := 0 to |inputSymbols|
        invariant text == header + InputBlocks(inputSymbols[..k], transitionTable)
      {
        var input := inputSymbols[k];
        ghost var before := text;
        text := text + input;
        for r := 0 to |transitionTable|
          invariant text == before + input + MatchingRows(input, transitionTable[..r])
        {
          var row := transitionTable[r];
          ghost var matched := MatchingRows(input, transitionTable[..r]);
          if row.0 == input {
            ghost var mid := text;
            for d := 0 to |row.1|
              invariant text == mid + Fields(row.1[..d])
            {
              assert text + ";" + row.1[d] == mid + Fields(row.1[..d + 1]) by {
                FieldsSnoc(row.1, d);
                Regroup(mid, Fields(row.1[..d]), ";");
                Regroup(mid, Fields(row.1[..d]) + ";", row.1[d]);
              }
              text := text + ";" + row.1[d];
            }
            assert text + "\n" == before + input + MatchingRows(input, transitionTable[..r + 1]) by {
              assert row.1[..|row.1|] == row.1;
              assert transitionTable[..r + 1][..r] == transitionTable[..r];
              Regroup(mid, Fields(row.1), "\n");
              Regroup(before + input, matched, Fields(row.1) + "\n");
            }
            text := text + "\n";
          } else {
            assert text == before + input + MatchingRows(input, transitionTable[..r + 1]) by {
              assert transitionTable[..r + 1][..r] == transitionTable[..r];
              assert matched + "" == matched;
            }
          }
        }
        assert text == header + InputBlocks(inputSymbols[..k + 1], transitionTable) by {
          assert transitionTable[..|transitionTable|] == transitionTable;
          assert inputSymbols[..k + 1][..k] == inputSymbols[..k];
          Regroup(header, InputBlocks(inputSymbols[..k], transitionTable), input);
          Regroup(header, InputBlocks(inputSymbols[..k], transitionTable) + input,
                  MatchingRows(input, transitionTable));
        }
      }
      assert inputSymbols[..|inputSymbols|] == inputSymbols;
    }
  }

  /** An input symbol that labels no row is written alone, with no newline
      after it: the next symbol continues the same line. */
  lemma {:induction false} UnmatchedSymbolWritesNothing(symbol: string, table: MooreTransitionTable)
    requires forall r :: 0 <= r < |table| ==> table[r].0 != symbol
    ensures MatchingRows(symbol, table) == ""
    decreases |table|
  {
    if table != [] {
      UnmatchedSymbolWritesNothing(symbol, table[..|table| - 1]);
    }
  }

  /** An input symbol that labels exactly one row is followed by that row's
      destinations and one newline. */
  lemma {:induction false} UniqueRowWritesOneLine(symbol: string, table: MooreTransitionTable, j: nat)
    requires j < |table| && table[j].0 == symbol
    requires forall r :: 0 <= r < |table| && r != j ==> table[r].0 != symbol
    ensures MatchingRows(symbol, table) == Fields(table[j].1) + "\n"
    decreases |table|
  {
    var init := table[..|table| - 1];
    if j == |table| - 1 {
      UnmatchedSymbolWritesNothing(symbol, init);
      assert "" + (Fields(table[j].1) + "\n") == Fields(table[j].1) + "\n";
    } else {
      UniqueRowWritesOneLine(symbol, init, j);
    }
  }

  /** When the rows carry the input symbols as labels, one each and in the
      same order, the export is two header lines (the outputs, then the
      states, both in statesInfo order) followed by one line per input
      symbol: the symbol and `;dest` for each destination of its row. */
  lemma CsvLayout(inputs: seq<string>, info: MooreStatesInfo, table: MooreTransitionTable)
    requires |table| == |inputs| && Distinct(inputs)
    requires forall i :: 0 <= i < |inputs| ==> table[i].0 == inputs[i]
    requires forall i :: 0 <= i < |inputs| ==> NoNewline(inputs[i])
    requires forall i :: 0 <= i < |info| ==> NoNewline(info[i].0) && NoNewline(info[i].1)
    requires forall i, d :: 0 <= i < |table| && 0 <= d < |table[i].1| ==> NoNewline(table[i].1[d])
    ensures SplitLines(Csv(inputs, info, table))
         == [Fields(Outputs(info)), Fields(Names(info))]
            + seq(|inputs|, i requires 0 <= i < |inputs| => inputs[i] + Fields(table[i].1))
  {
    var rows := seq(|inputs|, i requires 0 <= i < |inputs| => inputs[i] + Fields(table[i].1));
    var head := [Fields(Outputs(info)), Fields(Names(info))];
    BlocksAreLines(inputs, table, |inputs|);
    assert inputs[..|inputs|] == inputs && rows[..|inputs|] == rows;
    JoinTwoLines(Fields(Outputs(info)), Fields(Names(info)));
    JoinLinesSplit(head, rows);
    forall i | 0 <= i < |head + rows|
      ensures NoNewline((head + rows)[i])
    {
      if i >= 2 {
        var k := i - 2;
        assert NoNewline(Fields(table[k].1));
        assert (head + rows)[i] == inputs[k] + Fields(table[k].1);
      } else {
        assert NoNewline(Fields(Outputs(info)));
        assert NoNewline(Fields(Names(info)));
      }
    }
    SplitJoinLines(head + rows);
  }

  lemma {:induction false} BlocksAreLines(inputs: seq<string>, table: MooreTransitionTable, k: nat)
    requires k <= |inputs| == |table| && Distinct(inputs)
    requires forall i :: 0 <= i < |inputs| ==> table[i].0 == inputs[i]
    ensures InputBlocks(inputs[..k], table)
         == JoinLines(seq(k, i requires 0 <= i < k => inputs[i] + Fields(table[i].1)))
    decreases k
  {
    if k > 0 {
      BlocksAreLines(inputs, table, k - 1);
      assert inputs[..k][..k - 1] == inputs[..k - 1];
      UniqueRowWritesOneLine(inputs[k - 1], table, k - 1);
      var rows := seq(k, i requires 0 <= i < k => inputs[i] + Fields(table[i].1));
      assert rows[..k - 1] == seq(k - 1, i requires 0 <= i < k - 1 => inputs[i] + Fields(table[i].1));
      Regroup(InputBlocks(inputs[..k - 1], table), inputs[k - 1], Fields(table[k - 1].1) + "\n");
    }
  }
}
