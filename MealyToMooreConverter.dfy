/** Converter/MealyToMooreConverter.h: every transition that leads to a
    reachable Mealy state becomes a Moore state emitting that transition's
    output. */
module MealyToMoore {
  import opened Outcome
  import opened Transitions
  import opened Mealy
  import opened Moore
  import opened Reachability
  import opened TransitionSets
  import opened StateNames

  /** The index the naming counter starts from. */
  const FIRST_STATE_INDEX: nat := 0

  /** The possible transitions of a table whose walk succeeds: the unique
      transitions leading to reachable states, grouped by destination. */
  function Possible(table: MealyTransitionTable, states: seq<string>): seq<Transition>
    requires |states| > 0 && Covers(table, states) && PossibleStates(table, states).Ok?
  {
    PossibleTransitions(UniqueTransitions(table), PossibleStates(table, states).value)
  }

  /** The Moore states before sorting: the k-th possible transition becomes
      state StateName(k), emitting its output symbol. */
  function NamedStates(pt: seq<Transition>): MooreStatesInfo
  {
    seq(|pt|, k requires 0 <= k < |pt| => (StateName(k), pt[k].outputSymbol))
  }

  /** The Moore states in the order the std::map of new names iterates:
      for each key, in ascending Transition order, the name of its position
      in `pt` and its output symbol. */
  function MapOrderStates(keys: seq<Transition>, pt: seq<Transition>): MooreStatesInfo
  {
    seq(|keys|, i requires 0 <= i < |keys| => (StateName(Find(pt, keys[i])), keys[i].outputSymbol))
  }

  /** `mooreRow` is what the conversion makes of Mealy row `row`: the same
      input symbol, and in column k the name of the transition that `row`
      takes from the destination of the k-th possible transition; that
      transition is itself a possible one, so its name exists. */
  predicate IsMooreRow(row: MealyRow, states: seq<string>, pt: seq<Transition>, mooreRow: MooreRow)
  {
    && mooreRow.0 == row.0
    && |mooreRow.1| == |pt|
    && forall k :: 0 <= k < |pt| ==>
         && Find(states, pt[k].nextState) < |row.1|
         && row.1[Find(states, pt[k].nextState)] in pt
         && mooreRow.1[k] == StateName(Find(pt, row.1[Find(states, pt[k].nextState)]))
  }

  class MealyToMooreConverter {
    const mealy: MealyAutomata

    constructor (mealy: MealyAutomata)
      ensures this.mealy == mealy
    {
      this.mealy := mealy;
    }

    /** The Moore machine, or InvalidState when the walk from the first
        state reaches a name that is not a Mealy state. The input symbols
        are the Mealy row labels; the states are the possible transitions,
        named by position and sorted by name; row a, column k holds the
        state the Mealy row a leads to from the k-th state's destination. */
    method GetMooreAutomata() returns (r: Result<MooreAutomata>)
      requires |mealy.states| > 0 && Covers(mealy.transitionTable, mealy.states)
      ensures r.Err? <==> PossibleStates(mealy.transitionTable, mealy.states).Err?
      ensures r.Ok? ==> fresh(r.value)
      ensures r.Ok? ==>
        var table, states := mealy.transitionTable, mealy.states;
        var pt := Possible(table, states);
        && |r.value.inputSymbols| == |table|
        && (forall a :: 0 <= a < |table| ==> r.value.inputSymbols[a] == table[a].0)
        && r.value.statesInfo == SortByName(NamedStates(pt))
        && SortedByName(r.value.statesInfo)
        && multiset(r.value.statesInfo) == multiset(NamedStates(pt))
        && |r.value.transitionTable| == |table|
        && (forall a :: 0 <= a < |table| ==> IsMooreRow(table[a], states, pt, r.value.transitionTable[a]))
    {
      var mealyTransitionTable := mealy.GetTransitionTable();
      var mealyStates := mealy.GetStates();
      var inputSymbols := mealy.GetInputSymbols();

      var found := GetUniquePossibleTransitions(mealyTransitionTable, mealyStates);
      if found.Err? {
        return Err(found.error);
      }
      var transitions := found.value;
      PossibleLookups(mealyTransitionTable, mealyStates);
      var moore := BuildMooreAutomata(mealyTransitionTable, mealyStates, inputSymbols, transitions);
      return Ok(moore);
    }

    /** The rest of GetMooreAutomata, once the possible transitions are
        known: name them by position, list the new states with their
        outputs and sort them by name, and convert every Mealy row. */
    static method BuildMooreAutomata(table: MealyTransitionTable, states: seq<string>, inputSymbols: seq<string>,
                                     transitions: seq<Transition>) returns (moore: MooreAutomata)
      requires Distinct(transitions)
      requires forall a, k :: 0 <= a < |table| && 0 <= k < |transitions| ==>
                 && Find(states, transitions[k].nextState) < |table[a].1|
                 && table[a].1[Find(states, transitions[k].nextState)] in transitions
      ensures fresh(moore)
      ensures moore.inputSymbols == inputSymbols
      ensures moore.statesInfo == SortByName(NamedStates(transitions))
      ensures SortedByName(moore.statesInfo)
      ensures multiset(moore.statesInfo) == multiset(NamedStates(transitions))
      ensures |moore.transitionTable| == |table|
      ensures forall a :: 0 <= a < |table| ==> IsMooreRow(table[a], states, transitions, moore.transitionTable[a])
    {
      var transitionTable, keys := GetNewStateNamesFromTransitions(transitions);
      NamedByPosition(transitions, transitionTable);

      var mooreStateInfo := GetMooreStatesInfo(keys, transitions, transitionTable);
      SortByNameSpec(mooreStateInfo);
      SortedStatesAgree(mooreStateInfo, transitions);
      mooreStateInfo := SortByName(mooreStateInfo);

      var mooreTransitionTable: MooreTransitionTable := [];
      for a := 0 to |table|
        invariant |mooreTransitionTable| == a
        invariant forall b :: 0 <= b < a ==>
                    IsMooreRow(table[b], states, transitions, mooreTransitionTable[b])
      {
        var mooreRow := GetMooreRow(table[a], states, transitions, transitionTable);
        mooreTransitionTable := mooreTransitionTable + [mooreRow];
      }

      moore := new MooreAutomata(inputSymbols, mooreStateInfo, mooreTransitionTable);
    }

    /** The state list before sorting: for each key of the map of new
        names, in the map's order, its name and its output symbol. This is
        a reordering of the named possible transitions. */
    static method GetMooreStatesInfo(keys: seq<Transition>, transitions: seq<Transition>,
                                     names: map<Transition, string>) returns (info: MooreStatesInfo)
      requires forall t :: t in transitions ==> t in names && names[t] == StateName(Find(transitions, t))
      requires StrictlySorted(keys) && Elems(keys) == Elems(transitions)
      requires Distinct(transitions)
      ensures info == MapOrderStates(keys, transitions)
      ensures multiset(info) == multiset(NamedStates(transitions))
    {
      info := [];
      for i := 0 to |keys|
        invariant |info| == i
        invariant forall k :: 0 <= k < i ==>
                    info[k] == (StateName(Find(transitions, keys[k])), keys[k].outputSymbol)
      {
        assert keys[i] in Elems(transitions) by {
          assert keys[i] in Elems(keys);
        }
        info := info + [(names[keys[i]], keys[i].outputSymbol)];
      }
      StrictlySortedDistinct(keys);
      MapOrderPermutation(keys, transitions);
    }

    /** One row of the Moore table: the Mealy row's input symbol, then for
        each possible transition the name of the transition this row takes
        from its destination (found with std::find among the Mealy states
        and looked up with `.at`). */
    static method GetMooreRow(row: MealyRow, mealyStates: seq<string>, transitions: seq<Transition>,
                              names: map<Transition, string>) returns (mooreRow: MooreRow)
      requires forall k :: 0 <= k < |transitions| ==>
                 && Find(mealyStates, transitions[k].nextState) < |row.1|
                 && row.1[Find(mealyStates, transitions[k].nextState)] in transitions
      requires forall t :: t in transitions ==> t in names && names[t] == StateName(Find(transitions, t))
      ensures IsMooreRow(row, mealyStates, transitions, mooreRow)
    {
      var inputSymbol := row.0;
      var states: seq<string> := [];
      for k := 0 to |transitions|
        invariant |states| == k
        invariant forall i :: 0 <= i < k ==>
                    states[i] == StateName(Find(transitions, row.1[Find(mealyStates, transitions[i].nextState)]))
      {
        var state := transitions[k].nextState;
        var index := Find(mealyStates, state);
        var transition := row.1[index];
        var transitionNewName := names[transition];
        states := states + [transitionNewName];
      }
      mooreRow := (inputSymbol, states);
    }

    /** transitionToNewStateNames: each transition, in order, is given the
        name of its position; a transition listed twice keeps the name of
        its last position. The map's keys come with the order in which a
        std::map holds them: `keys` grows as a std::set would, by one
        emplace per assignment, and so ascends by Transition::operator<. */
    static method GetNewStateNamesFromTransitions(transitions: seq<Transition>)
        returns (m: map<Transition, string>, keys: seq<Transition>)
      ensures m.Keys == Elems(transitions)
      ensures StrictlySorted(keys) && Elems(keys) == m.Keys
      ensures forall k :: 0 <= k < |transitions| && (forall j :: k < j < |transitions| ==> transitions[j] != transitions[k])
                ==> m[transitions[k]] == StateName(k)
    {
      m, keys := map[], [];
      var index := FIRST_STATE_INDEX;
      for k := 0 to |transitions|
        invariant index == FIRST_STATE_INDEX + k
        invariant m.Keys == Elems(transitions[..k])
        invariant StrictlySorted(keys) && Elems(keys) == m.Keys
        invariant forall i :: 0 <= i < k && (forall j :: i < j < k ==> transitions[j] != transitions[i])
                    ==> m[transitions[i]] == StateName(i)
      {
        m := m[transitions[k] := [STATE_CHAR] + Decimal(index)];
        InsertSpec(keys, transitions[k]);
        keys := Insert(keys, transitions[k]);
        index := index + 1;
        assert Elems(transitions[..k + 1]) == Elems(transitions[..k]) + {transitions[k]} by {
          assert transitions[..k + 1] == transitions[..k] + [transitions[k]];
        }
      }
      assert transitions[..|transitions|] == transitions;
    }

    /** The reachable Mealy states in the order the breadth-first walk from
        the first state lists them, or InvalidState when the walk reaches a
        name that is not a Mealy state. */
    static method GetAllPossibleState(table: MealyTransitionTable, states: seq<string>) returns (r: Result<seq<string>>)
      requires |states| > 0 && Covers(table, states)
      ensures r == PossibleStates(table, states)
      ensures r.Err? <==> exists s :: Reachable(table, states, s) && s !in states
      ensures r.Ok? ==> forall s :: s in r.value <==> Reachable(table, states, s)
    {
      var possibleStates := [states[0]];
      var possibleStatesSet := {states[0]};
      var possibleStatesIndex := 0;

      while possibleStatesIndex < |possibleStates|
        invariant possibleStatesIndex <= |possibleStates|
        invariant possibleStatesSet == Elems(possibleStates)
        invariant Explore(table, states, possibleStates, possibleStatesIndex) == PossibleStates(table, states)
        decreases |AllDestinations(table) - Elems(possibleStates)|, |possibleStates| - possibleStatesIndex
      {
        var found := GetIndexOfStringInVector(states, possibleStates[possibleStatesIndex]);
        if found.Err? {
          r := Err(found.error);
          PossibleStatesFailure(table, states);
          return;
        }
        var index := found.value;
        ghost var before := possibleStates;
        assert index == Find(states, before[possibleStatesIndex]) by {
          FindIsAt(states, before[possibleStatesIndex], index);
        }
        ExploreUnfold(table, states, before, possibleStatesIndex);
        possibleStatesIndex := possibleStatesIndex + 1;

        possibleStates, possibleStatesSet := AppendSuccessors(table, index, possibleStates, possibleStatesSet);
        UnseenShrinks(table, index, before);
      }
      r := Ok(possibleStates);
      PossibleStatesFailure(table, states);
      PossibleStatesAreReachable(table, states);
    }

    /** The inner for-loop of GetAllPossibleState: every row's destination
        in column `index` is appended to the worklist and added to its set
        unless the set already holds it. */
    static method AppendSuccessors(table: MealyTransitionTable, index: nat, list: seq<string>, listSet: set<string>)
        returns (next: seq<string>, nextSet: set<string>)
      requires forall i :: 0 <= i < |table| ==> index < |table[i].1|
      requires listSet == Elems(list)
      ensures next == AddSuccessors(table, index, list)
      ensures nextSet == Elems(next)
    {
      next, nextSet := list, listSet;
      for row := 0 to |table|
        invariant next == AddSuccessors(table[..row], index, list)
        invariant nextSet == Elems(next)
      {
        var state := table[row].1[index].nextState;
        AddSuccessorsSnoc(table, index, list, row);
        ElemsAppend(next, state);
        if state !in nextSet {
          nextSet := nextSet + {state};
          next := next + [state];
        }
      }
      assert table[..|table|] == table;
    }

    /** The possible transitions: for each reachable state in order, the
        unique transitions leading to it, in ascending order. */
    static method GetUniquePossibleTransitions(table: MealyTransitionTable, states: seq<string>)
        returns (r: Result<seq<Transition>>)
      requires |states| > 0 && Covers(table, states)
      ensures r.Err? <==> PossibleStates(table, states).Err?
      ensures r.Ok? ==> r.value == Possible(table, states)
    {
      var uniqueTransitions := GetUniqueTransitions(table);
      var found := GetAllPossibleState(table, states);
      if found.Err? {
        return Err(found.error);
      }
      var possibleStates := found.value;
      var possibleTransitions: seq<Transition> := [];

      for k := 0 to |possibleStates|
        invariant possibleTransitions == PossibleTransitions(uniqueTransitions, possibleStates[..k])
      {
        assert possibleStates[..k + 1][..k] == possibleStates[..k];
        var group := GetTransitionsTo(uniqueTransitions, possibleStates[k]);
        possibleTransitions := possibleTransitions + group;
      }
      assert possibleStates[..|possibleStates|] == possibleStates;
      return Ok(possibleTransitions);
    }

    /** The inner loop of GetUniquePossibleTransitions: the transitions of
        the ordered set that lead to `state`, collected until the first
        transition with another destination after a match (the `break`). */
    static method GetTransitionsTo(uniqueTransitions: seq<Transition>, state: string) returns (group: seq<Transition>)
      requires StrictlySorted(uniqueTransitions)
      ensures group == Group(uniqueTransitions, state)
    {
      group := [];
      var isFound := false;
      var i := 0;
      while i < |uniqueTransitions|
        invariant i <= |uniqueTransitions|
        invariant group == Group(uniqueTransitions[..i], state)
        invariant isFound ==> exists j :: 0 <= j < i && uniqueTransitions[j].nextState == state
        decreases |uniqueTransitions| - i
      {
        var transition := uniqueTransitions[i];
        assert uniqueTransitions[..i + 1][..i] == uniqueTransitions[..i];
        if transition.nextState == state {
          isFound := true;
          group := group + [transition];
        }
        if isFound && transition.nextState != state {
          ghost var j :| 0 <= j < i && uniqueTransitions[j].nextState == state;
          GroupStopsAtBreak(uniqueTransitions, state, j, i);
          break;
        }
        i := i + 1;
      }
      assert uniqueTransitions[..|uniqueTransitions|] == uniqueTransitions;
    }

    /** std::find of a state: its first position, or InvalidState when it
        is not a Mealy state. */
    static method GetIndexOfStringInVector(states: seq<string>, state: string) returns (r: Result<nat>)
      ensures r.Ok? <==> state in states
      ensures r.Ok? ==> r.value < |states| && states[r.value] == state
                        && forall j :: 0 <= j < r.value ==> states[j] != state
    {
      var index := Find(states, state);
      if index < |states| {
        forall j | 0 <= j < index
          ensures states[j] != state
        {
          FindIsFirst(states, state, j);
        }
        return Ok(index);
      }
      return Err(InvalidState);
    }

    /** The set of all transitions in the table, each once, in ascending
        order. */
    static method GetUniqueTransitions(table: MealyTransitionTable) returns (u: seq<Transition>)
      ensures u == UniqueTransitions(table)
      ensures StrictlySorted(u) && Elems(u) == TableTransitions(table)
    {
      UniqueTransitionsSpec(table);
      u := [];
      for r := 0 to |table|
        invariant u == UniqueTransitions(table[..r])
      {
        var row := table[r];
        assert table[..r + 1][..r] == table[..r];
        for c := 0 to |row.1|
          invariant u == InsertAll(UniqueTransitions(table[..r]), row.1[..c])
        {
          assert row.1[..c + 1][..c] == row.1[..c];
          u := Insert(u, row.1[c]);
        }
        assert row.1[..|row.1|] == row.1;
      }
      assert table[..|table|] == table;
    }
  }

  // ---------------------------------------------------------------------

  /** When the walk succeeds, the possible transitions are distinct and
      each leads to a Mealy state. */
  lemma PossibleDistinct(table: MealyTransitionTable, states: seq<string>)
    requires |states| > 0 && Covers(table, states) && PossibleStates(table, states).Ok?
    ensures var pt := Possible(table, states);
      && Distinct(pt)
      && (forall k :: 0 <= k < |pt| ==> Find(states, pt[k].nextState) < |states|)
  {
    var u := UniqueTransitions(table);
    var l := PossibleStates(table, states).value;
    var pt := Possible(table, states);
    UniqueTransitionsSpec(table);
    PossibleStatesShape(table, states);
    PossibleTransitionsDistinct(u, l);
    PossibleTransitionsMembers(u, l);
    forall k | 0 <= k < |pt|
      ensures Find(states, pt[k].nextState) < |states|
    {
      assert pt[k] in pt;
    }
  }

  /** The possible transitions are distinct, and every row's transition
      from the destination of a possible transition is itself possible. */
  lemma PossibleLookups(table: MealyTransitionTable, states: seq<string>)
    requires |states| > 0 && Covers(table, states) && PossibleStates(table, states).Ok?
    ensures var pt := Possible(table, states);
      && Distinct(pt)
      && forall a, k :: 0 <= a < |table| && 0 <= k < |pt| ==>
           && Find(states, pt[k].nextState) < |table[a].1|
           && table[a].1[Find(states, pt[k].nextState)] in pt
  {
    PossibleDistinct(table, states);
    var pt := Possible(table, states);
    forall a, k | 0 <= a < |table| && 0 <= k < |pt|
      ensures && Find(states, pt[k].nextState) < |table[a].1|
              && table[a].1[Find(states, pt[k].nextState)] in pt
    {
      LookupSucceeds(table, states, a, k);
    }
  }

  /** The new names are pairwise different. */
  lemma NamedStatesDistinct(pt: seq<Transition>)
    ensures DistinctNames(NamedStates(pt))
  {
    forall i, j | 0 <= i < j < |pt|
      ensures StateName(i) != StateName(j)
    {
      StateNamesDistinct(i, j);
    }
  }

  /** Listing the states in the map's order instead of the order of the
      possible transitions only reorders them. */
  lemma MapOrderPermutation(keys: seq<Transition>, pt: seq<Transition>)
    requires Distinct(keys) && Distinct(pt) && Elems(keys) == Elems(pt)
    ensures multiset(MapOrderStates(keys, pt)) == multiset(NamedStates(pt))
  {
    var a, b := MapOrderStates(keys, pt), NamedStates(pt);
    forall i, j | 0 <= i < j < |a|
      ensures a[i] != a[j]
    {
      assert keys[i] in Elems(pt) && keys[j] in Elems(pt);
      StateNamesDistinct(Find(pt, keys[i]), Find(pt, keys[j]));
    }
    forall i, j | 0 <= i < j < |b|
      ensures b[i] != b[j]
    {
      StateNamesDistinct(i, j);
    }
    forall x | x in Elems(a)
      ensures x in Elems(b)
    {
      var i :| 0 <= i < |a| && a[i] == x;
      assert keys[i] in Elems(pt);
      assert b[Find(pt, keys[i])] == x;
    }
    forall x | x in Elems(b)
      ensures x in Elems(a)
    {
      var k :| 0 <= k < |b| && b[k] == x;
      assert pt[k] in Elems(keys);
      var i :| 0 <= i < |keys| && keys[i] == pt[k];
      FindIsAt(pt, pt[k], k);
      assert a[i] == x;
    }
    DistinctMultiset(a);
    DistinctMultiset(b);
  }

  /** Whatever order the states are listed in before std::sort, the sorted
      list is the same: the names are distinct, so the sorted order has no
      ties to break. */
  lemma SortedStatesAgree(info: MooreStatesInfo, pt: seq<Transition>)
    requires multiset(info) == multiset(NamedStates(pt))
    ensures SortByName(info) == SortByName(NamedStates(pt))
  {
    SortByNameSpec(info);
    SortByNameSpec(NamedStates(pt));
    NamedStatesDistinct(pt);
    DistinctNamesPermutation(SortByName(info), NamedStates(pt));
    SortedByNameUnique(SortByName(info), SortByName(NamedStates(pt)));
  }

  /** When no transition is listed twice, each one is named after its own
      position. */
  lemma NamedByPosition(transitions: seq<Transition>, m: map<Transition, string>)
    requires Distinct(transitions)
    requires m.Keys == Elems(transitions)
    requires forall k :: 0 <= k < |transitions| && (forall j :: k < j < |transitions| ==> transitions[j] != transitions[k])
               ==> m[transitions[k]] == StateName(k)
    ensures forall t :: t in transitions ==> t in m && m[t] == StateName(Find(transitions, t))
  {
    forall t | t in transitions
      ensures t in m && m[t] == StateName(Find(transitions, t))
    {
      var k := Find(transitions, t);
      assert forall j :: k < j < |transitions| ==> transitions[j] != transitions[k];
    }
  }

  /** Every row's transition from the destination of a possible transition
      is itself possible: the `.at` lookup of its name never fails. */
  lemma LookupSucceeds(table: MealyTransitionTable, states: seq<string>, a: nat, k: nat)
    requires |states| > 0 && Covers(table, states) && PossibleStates(table, states).Ok?
    requires a < |table| && k < |Possible(table, states)|
    ensures var pt := Possible(table, states);
      && Find(states, pt[k].nextState) < |table[a].1|
      && table[a].1[Find(states, pt[k].nextState)] in pt
  {
    var u := UniqueTransitions(table);
    var l := PossibleStates(table, states).value;
    var pt := PossibleTransitions(u, l);
    var i :| 0 <= i < |l| && l[i] == pt[k].nextState by {
      PossibleTransitionsMembers(u, l);
      assert pt[k] in pt;
    }
    assert Find(states, l[i]) < |states| by {
      PossibleStatesShape(table, states);
    }
    var t := table[a].1[Find(states, l[i])];
    assert t.nextState in l by {
      PossibleStatesClosed(table, states);
    }
    assert t in u by {
      TableTransitionsMembers(table, t);
      UniqueTransitionsSpec(table);
      assert t in Elems(u);
    }
    PossibleTransitionsMembers(u, l);
  }
}
