/** Converter/MooreToMealyConverter.h: every Moore transition becomes a
    Mealy transition to the same state, renamed, emitting the output of that
    state. */
module MooreToMealy {
  import opened Transitions
  import opened Mealy
  import opened Moore

  /** The letter that replaces the first character of every destination. */
  const STATE_CHAR: char := 'F'

  /** The index the converter declares as its first state index (unused by
      the conversion itself). */
  const FIRST_STATE_INDEX: nat := 0

  /** What `stateToOutputSymbolMap[state]` yields: the output of the last
      statesInfo entry named `state` (later entries overwrite earlier ones),
      or the empty string that operator[] default-constructs for a name
      that is not there. */
  function OutputOf(info: MooreStatesInfo, state: string): string
    decreases |info|
  {
    if info == [] then ""
    else if info[|info| - 1].0 == state then info[|info| - 1].1
    else OutputOf(info[..|info| - 1], state)
  }

  /** `state[0] = STATE_CHAR`: the first character replaced, the rest kept. */
  function Relabel(state: string): (r: string)
    requires |state| > 0
    ensures |r| == |state| && r[0] == STATE_CHAR && r[1..] == state[1..]
  {
    [STATE_CHAR] + state[1..]
  }

  /** `mealyRow` is what the conversion makes of `mooreRow`: the same input
      symbol and, per destination in order, a transition to the relabelled
      destination emitting that destination's output. */
  predicate IsMealyRow(info: MooreStatesInfo, mooreRow: MooreRow, mealyRow: MealyRow)
    requires forall d :: 0 <= d < |mooreRow.1| ==> |mooreRow.1[d]| > 0
  {
    && mealyRow.0 == mooreRow.0
    && |mealyRow.1| == |mooreRow.1|
    && forall d :: 0 <= d < |mooreRow.1| ==>
         mealyRow.1[d] == Transition(Relabel(mooreRow.1[d]), OutputOf(info, mooreRow.1[d]))
  }

  /** Every destination of every row has a first character to replace. */
  predicate NonEmptyDestinations(table: MooreTransitionTable)
  {
    forall a, d :: 0 <= a < |table| && 0 <= d < |table[a].1| ==> |table[a].1[d]| > 0
  }

  class MooreToMealyConverter {
    const moore: MooreAutomata

    constructor (moore: MooreAutomata)
      ensures this.moore == moore
    {
      this.moore := moore;
    }

    /** The Mealy machine: its states are the Moore state names in
        statesInfo order, unchanged; its rows are the Moore rows with every
        destination relabelled and paired with that destination's output. */
    method GetMealyAutomata() returns (mealy: MealyAutomata)
      requires NonEmptyDestinations(moore.transitionTable)
      ensures fresh(mealy)
      ensures mealy.states == Names(moore.statesInfo)
      ensures |mealy.transitionTable| == |moore.transitionTable|
      ensures forall a :: 0 <= a < |moore.transitionTable| ==>
                IsMealyRow(moore.statesInfo, moore.transitionTable[a], mealy.transitionTable[a])
    {
      var inputSymbols := moore.GetInputSymbols();
      var outputSymbols := moore.GetOutputSymbols();
      var mooreStatesInfo := moore.GetStatesInfo();
      var mooreTransitionTable := moore.GetTransitionTable();

      var mealyStates := GetMealyStates(mooreStatesInfo);
      var mealyTransitionTable := GetMealyTransitionTable(mooreStatesInfo, mooreTransitionTable);
      mealy := new MealyAutomata(mealyStates, mealyTransitionTable);
    }

    /** The state names of statesInfo, in order. */
    static method GetMealyStates(statesInfo: MooreStatesInfo) returns (mealyStates: seq<string>)
      ensures |mealyStates| == |statesInfo|
      ensures forall i :: 0 <= i < |statesInfo| ==> mealyStates[i] == statesInfo[i].0
    {
      mealyStates := [];
      for i := 0 to |statesInfo|
        invariant |mealyStates| == i
        invariant forall k :: 0 <= k < i ==> mealyStates[k] == statesInfo[k].0
      {
        mealyStates := mealyStates + [statesInfo[i].0];
      }
    }

    /** Each Moore row converted: its destinations relabelled, each paired
        with its output from the state-to-output map. */
    static method GetMealyTransitionTable(statesInfo: MooreStatesInfo, mooreTransitionTable: MooreTransitionTable)
        returns (mealyTransitionTable: MealyTransitionTable)
      requires NonEmptyDestinations(mooreTransitionTable)
      ensures |mealyTransitionTable| == |mooreTransitionTable|
      ensures forall a :: 0 <= a < |mooreTransitionTable| ==>
                IsMealyRow(statesInfo, mooreTransitionTable[a], mealyTransitionTable[a])
    {
      mealyTransitionTable := [];
      var stateToOutputSymbolMap := GetStateToOutputSymbolMap(statesInfo);
      for a := 0 to |mooreTransitionTable|
        invariant |mealyTransitionTable| == a
        invariant forall b :: 0 <= b < a ==>
                    IsMealyRow(statesInfo, mooreTransitionTable[b], mealyTransitionTable[b])
      {
        var mooreRow := mooreTransitionTable[a];
        var mealyTransitions: seq<Transition> := [];
        for d := 0 to |mooreRow.1|
          invariant |mealyTransitions| == d
          invariant forall k :: 0 <= k < d ==>
                      mealyTransitions[k] == Transition(Relabel(mooreRow.1[k]), OutputOf(statesInfo, mooreRow.1[k]))
        {
          var state := mooreRow.1[d];
          assert |state| > 0;
          if state !in stateToOutputSymbolMap {
            forall i | 0 <= i < |statesInfo|
              ensures statesInfo[i].0 != state
            {
              assert Names(statesInfo)[i] in Elems(Names(statesInfo));
            }
            OutputOfMissing(statesInfo, state);
          }
          var outputSymbol := if state in stateToOutputSymbolMap then stateToOutputSymbolMap[state] else "";
          state := [STATE_CHAR] + state[1..];
          mealyTransitions := mealyTransitions + [Transition(state, outputSymbol)];
        }
        mealyTransitionTable := mealyTransitionTable + [(mooreRow.0, mealyTransitions)];
      }
    }

    /** The map from state name to output: one key per name in statesInfo,
        holding the output of the last entry with that name. */
    static method GetStateToOutputSymbolMap(statesInfo: MooreStatesInfo) returns (m: map<string, string>)
      ensures m.Keys == Elems(Names(statesInfo))
      ensures forall s :: s in m ==> m[s] == OutputOf(statesInfo, s)
    {
      m := map[];
      for i := 0 to |statesInfo|
        invariant m.Keys == Elems(Names(statesInfo[..i]))
        invariant forall s :: s in m ==> m[s] == OutputOf(statesInfo[..i], s)
      {
        assert statesInfo[..i + 1][..i] == statesInfo[..i];
        assert Names(statesInfo[..i + 1]) == Names(statesInfo[..i]) + [statesInfo[i].0];
        m := m[statesInfo[i].0 := statesInfo[i].1];
      }
      assert statesInfo[..|statesInfo|] == statesInfo;
    }
  }

  // ---------------------------------------------------------------------

  /** A destination that names no Moore state gets the empty output. */
  lemma {:induction false} OutputOfMissing(info: MooreStatesInfo, state: string)
    requires forall i :: 0 <= i < |info| ==> info[i].0 != state
    ensures OutputOf(info, state) == ""
    decreases |info|
  {
    if info != [] {
      OutputOfMissing(info[..|info| - 1], state);
    }
  }

  /** A destination gets the output of the last statesInfo entry with its
      name: a later duplicate overrides an earlier one. */
  lemma {:induction false} OutputOfLast(info: MooreStatesInfo, i: nat)
    requires i < |info|
    requires forall j :: i < j < |info| ==> info[j].0 != info[i].0
    ensures OutputOf(info, info[i].0) == info[i].1
    decreases |info|
  {
    if i < |info| - 1 {
      OutputOfLast(info[..|info| - 1], i);
    }
  }

  /** With distinct state names, every Mealy transition emits exactly the
      Moore output of the state it leads to: the Moore machine's per-state
      outputs become per-transition outputs. */
  lemma OutputIsDestinationOutput(info: MooreStatesInfo, mooreRow: MooreRow, mealyRow: MealyRow, d: nat, i: nat)
    requires forall d :: 0 <= d < |mooreRow.1| ==> |mooreRow.1[d]| > 0
    requires IsMealyRow(info, mooreRow, mealyRow)
    requires Distinct(Names(info))
    requires d < |mooreRow.1| && i < |info| && mooreRow.1[d] == info[i].0
    ensures mealyRow.1[d].outputSymbol == info[i].1
    ensures mealyRow.1[d].nextState == Relabel(info[i].0)
  {
    forall j | i < j < |info|
      ensures info[j].0 != info[i].0
    {
      assert Names(info)[j] != Names(info)[i];
    }
    OutputOfLast(info, i);
  }

  /** Relabelling is idempotent and keeps everything after the first
      character: two destinations get the same new name exactly when they
      agree after their first character. */
  lemma RelabelProperties(a: string, b: string)
    requires |a| > 0 && |b| > 0
    ensures Relabel(Relabel(a)) == Relabel(a)
    ensures Relabel(a) == Relabel(b) <==> a[1..] == b[1..]
  {
    if a[1..] == b[1..] {
      assert Relabel(a) == [STATE_CHAR] + a[1..];
    }
  }

  /** The new destinations are not among the Mealy states whenever no Moore
      state name already starts with STATE_CHAR: the states keep their Moore
      names while the destinations are renamed. */
  lemma RelabelledNotAState(info: MooreStatesInfo, state: string)
    requires |state| > 0
    requires forall i :: 0 <= i < |info| ==> |info[i].0| == 0 || info[i].0[0] != STATE_CHAR
    ensures Relabel(state) !in Names(info)
  {
    forall i | 0 <= i < |info|
      ensures Names(info)[i] != Relabel(state)
    {
      if |info[i].0| > 0 {
        assert info[i].0[0] != Relabel(state)[0];
      }
    }
  }
}
