/** The breadth-first walk of GetAllPossibleState
    (Converter/MealyToMooreConverter.h), stated as a function over the
    worklist, and what it computes: the states reachable from the first
    Mealy state. */
module Reachability {
  import opened Outcome
  import opened Transitions
  import opened Mealy

  /** Every row has a transition in the column of every listed state, so
      the column lookup `it.second[index]` stays inside the row. */
  predicate Covers(table: MealyTransitionTable, states: seq<string>)
  {
    forall r :: 0 <= r < |table| ==> |states| <= |table[r].1|
  }

  /** The destinations found in column `col`, over all rows. */
  ghost function ColumnDests(table: MealyTransitionTable, col: nat): set<string>
    requires forall r :: 0 <= r < |table| ==> col < |table[r].1|
  {
    set r | 0 <= r < |table| :: table[r].1[col].nextState
  }

  /** Every destination anywhere in the table. */
  ghost function AllDestinations(table: MealyTransitionTable): set<string>
  {
    set r, c | 0 <= r < |table| && 0 <= c < |table[r].1| :: table[r].1[c].nextState
  }

  /** One pass of the inner for-loop: walking the rows in order, the
      destination in column `col` is appended when it is not yet listed. */
  function AddSuccessors(table: MealyTransitionTable, col: nat, list: seq<string>): (r: seq<string>)
    requires forall i :: 0 <= i < |table| ==> col < |table[i].1|
    ensures |list| <= |r| && r[..|list|] == list
    decreases |table|
  {
    if table == [] then list
    else
      var prev := AddSuccessors(table[..|table| - 1], col, list);
      var state := table[|table| - 1].1[col].nextState;
      if state in prev then prev else prev + [state]
  }

  /** The worklist loop from position `idx` on: the state at `idx` is looked
      up among the Mealy states (failing with InvalidState when it is not
      one), and its successors are appended. */
  function Explore(table: MealyTransitionTable, states: seq<string>, list: seq<string>, idx: nat): Result<seq<string>>
    requires Covers(table, states) && idx <= |list|
    decreases |AllDestinations(table) - Elems(list)|, |list| - idx
  {
    if idx == |list| then Ok(list)
    else if list[idx] !in states then Err(InvalidState)
    else
      var col := Find(states, list[idx]);
      UnseenShrinks(table, col, list);
      Explore(table, states, AddSuccessors(table, col, list), idx + 1)
  }

  /** The inner loop's step: row `row` appends its destination in column
      `col` unless it is already listed. */
  lemma AddSuccessorsSnoc(table: MealyTransitionTable, col: nat, list: seq<string>, row: nat)
    requires forall i :: 0 <= i < |table| ==> col < |table[i].1|
    requires row < |table|
    ensures var prev := AddSuccessors(table[..row], col, list);
            var state := table[row].1[col].nextState;
            AddSuccessors(table[..row + 1], col, list) == if state in prev then prev else prev + [state]
  {
    assert table[..row + 1][..row] == table[..row];
  }

  /** One round of the worklist loop, when the state at `idx` is a Mealy
      state. */
  lemma ExploreUnfold(table: MealyTransitionTable, states: seq<string>, list: seq<string>, idx: nat)
    requires Covers(table, states) && idx < |list| && list[idx] in states
    ensures Explore(table, states, list, idx)
         == Explore(table, states, AddSuccessors(table, Find(states, list[idx]), list), idx + 1)
  {
  }

  /** GetAllPossibleState: the walk started from the first Mealy state. */
  function PossibleStates(table: MealyTransitionTable, states: seq<string>): Result<seq<string>>
    requires |states| > 0 && Covers(table, states)
  {
    Explore(table, states, [states[0]], 0)
  }

  /** `s` is one step from the Mealy state `p`: some row's transition in
      p's column leads to `s`. A name that is not a Mealy state has no
      column and so no successors. */
  predicate Successor(table: MealyTransitionTable, states: seq<string>, p: string, s: string)
  {
    p in states
    && exists r :: 0 <= r < |table| && Find(states, p) < |table[r].1|
                   && table[r].1[Find(states, p)].nextState == s
  }

  /** `s` is reached from the first Mealy state in exactly `n` steps. */
  ghost predicate ReachableIn(table: MealyTransitionTable, states: seq<string>, s: string, n: nat)
    requires |states| > 0
    decreases n
  {
    if n == 0 then s == states[0]
    else exists p :: ReachableIn(table, states, p, n - 1) && Successor(table, states, p, s)
  }

  ghost predicate Reachable(table: MealyTransitionTable, states: seq<string>, s: string)
    requires |states| > 0
  {
    exists n: nat :: ReachableIn(table, states, s, n)
  }

  /** What holds of the worklist whenever the loop condition is tested:
      it starts with the first Mealy state and has no duplicates; the
      states before `idx` are Mealy states whose successors are all
      listed; every later entry is a successor of an entry already
      processed. */
  ghost predicate ExploreInv(table: MealyTransitionTable, states: seq<string>, list: seq<string>, idx: nat)
  {
    && |states| > 0 && Covers(table, states)
    && 0 < |list| && idx <= |list| && list[0] == states[0] && Distinct(list)
    && (forall i :: 0 <= i < idx ==> list[i] in states)
    && (forall i, s :: 0 <= i < idx && Successor(table, states, list[i], s) ==> s in list)
    && (forall i :: 0 < i < |list| ==>
          exists j :: 0 <= j < i && j < idx && Successor(table, states, list[j], list[i]))
  }

  // ---------------------------------------------------------------------

  lemma SubsetCard<T>(a: set<T>, b: set<T>, x: T)
    requires a <= b && x in b && x !in a
    ensures |a| < |b|
  {
    assert b == a + (b - a);
    assert x in b - a;
  }

  lemma ColumnDestsSnoc(table: MealyTransitionTable, col: nat)
    requires table != [] && forall i :: 0 <= i < |table| ==> col < |table[i].1|
    ensures ColumnDests(table, col)
         == ColumnDests(table[..|table| - 1], col) + {table[|table| - 1].1[col].nextState}
  {
    var init := table[..|table| - 1];
    forall x | x in ColumnDests(table, col)
      ensures x in ColumnDests(init, col) + {table[|table| - 1].1[col].nextState}
    {
      var r :| 0 <= r < |table| && table[r].1[col].nextState == x;
      if r < |init| {
        assert init[r] == table[r];
      }
    }
    forall x | x in ColumnDests(init, col)
      ensures x in ColumnDests(table, col)
    {
      var r :| 0 <= r < |init| && init[r].1[col].nextState == x;
      assert table[r] == init[r];
    }
  }

  /** The inner loop adds exactly the destinations of column `col`. */
  lemma {:induction false} AddSuccessorsElems(table: MealyTransitionTable, col: nat, list: seq<string>)
    requires forall i :: 0 <= i < |table| ==> col < |table[i].1|
    ensures Elems(AddSuccessors(table, col, list)) == Elems(list) + ColumnDests(table, col)
    decreases |table|
  {
    if table != [] {
      var init := table[..|table| - 1];
      AddSuccessorsElems(init, col, list);
      var prev := AddSuccessors(init, col, list);
      var state := table[|table| - 1].1[col].nextState;
      ColumnDestsSnoc(table, col);
      assert Elems(prev + [state]) == Elems(prev) + {state};
    }
  }

  /** `next` extends `list` by names not listed before it. */
  predicate AppendsNew(list: seq<string>, next: seq<string>)
  {
    && |list| <= |next| && next[..|list|] == list
    && forall i, j :: 0 <= j < i < |next| && |list| <= i ==> next[j] != next[i]
  }

  /** The inner loop appends only names not yet listed. */
  lemma {:induction false} AddSuccessorsNew(table: MealyTransitionTable, col: nat, list: seq<string>)
    requires forall i :: 0 <= i < |table| ==> col < |table[i].1|
    ensures AppendsNew(list, AddSuccessors(table, col, list))
    decreases |table|
  {
    if table != [] {
      AddSuccessorsNew(table[..|table| - 1], col, list);
    }
  }

  /** Each round either leaves the worklist as it was or lists a destination
      not listed before: the walk ends. */
  lemma UnseenShrinks(table: MealyTransitionTable, col: nat, list: seq<string>)
    requires forall i :: 0 <= i < |table| ==> col < |table[i].1|
    ensures var next := AddSuccessors(table, col, list);
      next == list || |AllDestinations(table) - Elems(next)| < |AllDestinations(table) - Elems(list)|
  {
    var next := AddSuccessors(table, col, list);
    if next != list {
      var all := AllDestinations(table);
      var x := next[|list|];
      assert x !in Elems(list) by {
        AddSuccessorsNew(table, col, list);
        assert next[..|list|] == list;
      }
      assert x in Elems(next);
      assert Elems(list) <= Elems(next) && x in ColumnDests(table, col) by {
        AddSuccessorsElems(table, col, list);
      }
      assert x in all by {
        var r :| 0 <= r < |table| && table[r].1[col].nextState == x;
      }
      SubsetCard(all - Elems(next), all - Elems(list), x);
    }
  }

  /** Appending only new names keeps a list free of duplicates. */
  lemma AppendNewDistinct(list: seq<string>, next: seq<string>)
    requires Distinct(list) && |list| <= |next| && next[..|list|] == list
    requires AppendsNew(list, next)
    ensures Distinct(next)
  {
    forall i, j | 0 <= i < j < |next|
      ensures next[i] != next[j]
    {
      if j < |list| {
        assert next[i] == list[i] && next[j] == list[j];
      }
    }
  }

  /** After the round for `idx`, its successors are listed. */
  lemma StepClosed(table: MealyTransitionTable, states: seq<string>, list: seq<string>, idx: nat)
    requires ExploreInv(table, states, list, idx)
    requires idx < |list| && list[idx] in states
    ensures var next := AddSuccessors(table, Find(states, list[idx]), list);
      forall i, s :: 0 <= i < idx + 1 && Successor(table, states, next[i], s) ==> s in next
  {
    var col := Find(states, list[idx]);
    var next := AddSuccessors(table, col, list);
    AddSuccessorsElems(table, col, list);
    assert next[..|list|] == list;
    forall i, s | 0 <= i < idx + 1 && Successor(table, states, next[i], s)
      ensures s in next
    {
      assert next[i] == list[i];
      if i == idx {
        var r :| 0 <= r < |table| && col < |table[r].1| && table[r].1[col].nextState == s;
        assert s in ColumnDests(table, col);
        assert s in Elems(next);
      }
    }
  }

  /** The names appended in the round for `idx` are successors of the state
      at `idx`. */
  lemma StepFromEarlier(table: MealyTransitionTable, states: seq<string>, list: seq<string>, idx: nat)
    requires ExploreInv(table, states, list, idx)
    requires idx < |list| && list[idx] in states
    ensures var next := AddSuccessors(table, Find(states, list[idx]), list);
      forall i :: 0 < i < |next| ==>
        exists j :: 0 <= j < i && j < idx + 1 && Successor(table, states, next[j], next[i])
  {
    var col := Find(states, list[idx]);
    var next := AddSuccessors(table, col, list);
    AddSuccessorsElems(table, col, list);
    assert next[..|list|] == list;
    forall i | 0 < i < |next|
      ensures exists j :: 0 <= j < i && j < idx + 1 && Successor(table, states, next[j], next[i])
    {
      if i < |list| {
        var j := EarlierOf(table, states, list, idx, i);
        assert next[j] == list[j] && next[i] == list[i];
      } else {
        assert next[i] !in Elems(list) by {
          AddSuccessorsNew(table, col, list);
          forall j | 0 <= j < |list|
            ensures list[j] != next[i]
          {
            assert list[j] == next[j];
          }
        }
        assert next[i] in ColumnDests(table, col) by {
          assert next[i] in Elems(next);
        }
        var r :| 0 <= r < |table| && table[r].1[col].nextState == next[i];
        assert next[idx] == list[idx];
        assert Successor(table, states, next[idx], next[i]);
      }
    }
  }

  /** The earlier entry a listed state was found from. */
  lemma EarlierOf(table: MealyTransitionTable, states: seq<string>, list: seq<string>, idx: nat, i: nat)
      returns (j: nat)
    requires ExploreInv(table, states, list, idx) && 0 < i < |list|
    ensures j < i && j < idx && Successor(table, states, list[j], list[i])
  {
    var s := list[i];
    j :| 0 <= j < i && j < idx && Successor(table, states, list[j], s);
  }

  /** One round of the loop keeps the worklist invariant. */
  lemma ExploreStep(table: MealyTransitionTable, states: seq<string>, list: seq<string>, idx: nat)
    requires ExploreInv(table, states, list, idx)
    requires idx < |list| && list[idx] in states
    ensures ExploreInv(table, states, AddSuccessors(table, Find(states, list[idx]), list), idx + 1)
  {
    var next := AddSuccessors(table, Find(states, list[idx]), list);
    AddSuccessorsNew(table, Find(states, list[idx]), list);
    AppendNewDistinct(list, next);
    StepClosed(table, states, list, idx);
    StepFromEarlier(table, states, list, idx);
    assert next[..|list|] == list;
    assert forall i :: 0 <= i < idx + 1 ==> next[i] == list[i];
  }

  /** Every listed state is reachable: it is the first Mealy state or a
      successor of an earlier listed one. */
  lemma {:induction false} ListedReachable(table: MealyTransitionTable, states: seq<string>, list: seq<string>, idx: nat, i: nat)
    requires ExploreInv(table, states, list, idx) && i < |list|
    ensures Reachable(table, states, list[i])
    decreases i
  {
    if i == 0 {
      assert ReachableIn(table, states, list[i], 0);
    } else {
      var j := EarlierOf(table, states, list, idx, i);
      ListedReachable(table, states, list, idx, j);
      var n: nat :| ReachableIn(table, states, list[j], n);
      assert ReachableIn(table, states, list[i], n + 1);
    }
  }

  /** A finished worklist holds every reachable state. */
  lemma {:induction false} ReachableListed(table: MealyTransitionTable, states: seq<string>, list: seq<string>, s: string, n: nat)
    requires |states| > 0 && 0 < |list| && list[0] == states[0]
    requires forall i, t :: 0 <= i < |list| && Successor(table, states, list[i], t) ==> t in list
    requires ReachableIn(table, states, s, n)
    ensures s in list
    decreases n
  {
    if n > 0 {
      var p :| ReachableIn(table, states, p, n - 1) && Successor(table, states, p, s);
      ReachableListed(table, states, list, p, n - 1);
      var i :| 0 <= i < |list| && list[i] == p;
      assert Successor(table, states, list[i], s);
    }
  }

  /** Where the walk ends: a finished worklist, or a reachable name that is
      not a Mealy state. */
  lemma {:induction false} ExploreOutcome(table: MealyTransitionTable, states: seq<string>, list: seq<string>, idx: nat)
    requires ExploreInv(table, states, list, idx)
    ensures Explore(table, states, list, idx).Ok? ==>
              ExploreInv(table, states, Explore(table, states, list, idx).value,
                         |Explore(table, states, list, idx).value|)
    ensures Explore(table, states, list, idx).Err? ==>
              exists s :: Reachable(table, states, s) && s !in states
    decreases |AllDestinations(table) - Elems(list)|, |list| - idx
  {
    if idx < |list| {
      if list[idx] !in states {
        ListedReachable(table, states, list, idx, idx);
      } else {
        var col := Find(states, list[idx]);
        UnseenShrinks(table, col, list);
        ExploreStep(table, states, list, idx);
        ExploreOutcome(table, states, AddSuccessors(table, col, list), idx + 1);
      }
    }
  }

  lemma StartInv(table: MealyTransitionTable, states: seq<string>)
    requires |states| > 0 && Covers(table, states)
    ensures ExploreInv(table, states, [states[0]], 0)
  {
  }

  // ---------------------------------------------------------------------
  // What GetAllPossibleState returns.

  /** The walk fails exactly when some reachable destination is not a Mealy
      state (GetIndexOfStringInVector throws on it). */
  lemma PossibleStatesFailure(table: MealyTransitionTable, states: seq<string>)
    requires |states| > 0 && Covers(table, states)
    ensures PossibleStates(table, states).Err? <==>
              exists s :: Reachable(table, states, s) && s !in states
  {
    StartInv(table, states);
    ExploreOutcome(table, states, [states[0]], 0);
    var res := PossibleStates(table, states);
    if res.Ok? {
      var l := res.value;
      forall s | Reachable(table, states, s)
        ensures s in states
      {
        var n: nat :| ReachableIn(table, states, s, n);
        ReachableListed(table, states, l, s, n);
        var i :| 0 <= i < |l| && l[i] == s;
      }
    }
  }

  /** The list begins with the first Mealy state, has no duplicates, and
      holds Mealy states only. */
  lemma PossibleStatesShape(table: MealyTransitionTable, states: seq<string>)
    requires |states| > 0 && Covers(table, states)
    ensures PossibleStates(table, states).Ok? ==>
              var l := PossibleStates(table, states).value;
              && 0 < |l| && l[0] == states[0] && Distinct(l)
              && (forall i :: 0 <= i < |l| ==> l[i] in states)
  {
    StartInv(table, states);
    ExploreOutcome(table, states, [states[0]], 0);
  }

  /** The list holds exactly the reachable states. */
  lemma PossibleStatesAreReachable(table: MealyTransitionTable, states: seq<string>)
    requires |states| > 0 && Covers(table, states)
    ensures PossibleStates(table, states).Ok? ==>
              forall s :: s in PossibleStates(table, states).value <==> Reachable(table, states, s)
  {
    StartInv(table, states);
    ExploreOutcome(table, states, [states[0]], 0);
    var res := PossibleStates(table, states);
    if res.Ok? {
      var l := res.value;
      forall s
        ensures s in l <==> Reachable(table, states, s)
      {
        if s in l {
          var i :| 0 <= i < |l| && l[i] == s;
          ListedReachable(table, states, l, |l|, i);
        }
        if Reachable(table, states, s) {
          var n: nat :| ReachableIn(table, states, s, n);
          ReachableListed(table, states, l, s, n);
        }
      }
    }
  }

  /** The list is closed: for every listed state and every row, the
      destination in that state's column is listed too. */
  lemma PossibleStatesClosed(table: MealyTransitionTable, states: seq<string>)
    requires |states| > 0 && Covers(table, states)
    ensures PossibleStates(table, states).Ok? ==>
              var l := PossibleStates(table, states).value;
              forall i, r :: 0 <= i < |l| && 0 <= r < |table| ==>
                Find(states, l[i]) < |table[r].1| && table[r].1[Find(states, l[i])].nextState in l
  {
    StartInv(table, states);
    ExploreOutcome(table, states, [states[0]], 0);
    var res := PossibleStates(table, states);
    if res.Ok? {
      var l := res.value;
      forall i, r | 0 <= i < |l| && 0 <= r < |table|
        ensures Find(states, l[i]) < |table[r].1| && table[r].1[Find(states, l[i])].nextState in l
      {
        assert Successor(table, states, l[i], table[r].1[Find(states, l[i])].nextState);
      }
    }
  }

  /** Every listed state after the first is the destination, in some row,
      of an earlier listed state's column. */
  lemma PossibleStatesFromEarlier(table: MealyTransitionTable, states: seq<string>)
    requires |states| > 0 && Covers(table, states)
    ensures PossibleStates(table, states).Ok? ==>
              var l := PossibleStates(table, states).value;
              forall i :: 0 < i < |l| ==>
                exists j, r :: 0 <= j < i && 0 <= r < |table| && Find(states, l[j]) < |table[r].1|
                  && table[r].1[Find(states, l[j])].nextState == l[i]
  {
    StartInv(table, states);
    ExploreOutcome(table, states, [states[0]], 0);
    var res := PossibleStates(table, states);
    if res.Ok? {
      var l := res.value;
      forall i | 0 < i < |l|
        ensures exists j, r :: 0 <= j < i && 0 <= r < |table| && Find(states, l[j]) < |table[r].1|
                  && table[r].1[Find(states, l[j])].nextState == l[i]
      {
        var j := EarlierOf(table, states, l, |l|, i);
        var r :| 0 <= r < |table| && Find(states, l[j]) < |table[r].1|
                 && table[r].1[Find(states, l[j])].nextState == l[i];
      }
    }
  }
}
