/** The std::set<Transition> that GetUniqueTransitions fills and the list
    GetUniquePossibleTransitions draws from it
    (Converter/MealyToMooreConverter.h). A std::set is held as the sequence
    of its elements in iteration order, which is ascending by
    Transition::operator<. */
module TransitionSets {
  import opened Transitions
  import opened Mealy

  /** std::set::emplace: the transition goes to its place in the order,
      unless an equivalent one is already there. */
  function Insert(s: seq<Transition>, t: Transition): seq<Transition>
    decreases |s|
  {
    if s == [] then [t]
    else if Less(t, s[0]) then [t] + s
    else if Less(s[0], t) then [s[0]] + Insert(s[1..], t)
    else s
  }

  /** emplace for each transition of `ts`, in order. */
  function InsertAll(s: seq<Transition>, ts: seq<Transition>): seq<Transition>
    decreases |ts|
  {
    if ts == [] then s
    else Insert(InsertAll(s, ts[..|ts| - 1]), ts[|ts| - 1])
  }

  /** GetUniqueTransitions: every transition of every row, row by row,
      emplaced into an initially empty set. */
  function UniqueTransitions(table: MealyTransitionTable): seq<Transition>
    decreases |table|
  {
    if table == [] then []
    else InsertAll(UniqueTransitions(table[..|table| - 1]), table[|table| - 1].1)
  }

  /** The transitions occurring anywhere in the table. */
  function TableTransitions(table: MealyTransitionTable): set<Transition>
    decreases |table|
  {
    if table == [] then {}
    else TableTransitions(table[..|table| - 1]) + Elems(table[|table| - 1].1)
  }

  /** The transitions of `u` that lead to `state`, in the order of `u`. */
  function Group(u: seq<Transition>, state: string): seq<Transition>
    decreases |u|
  {
    if u == [] then []
    else
      var t := u[|u| - 1];
      Group(u[..|u| - 1], state) + (if t.nextState == state then [t] else [])
  }

  /** GetUniquePossibleTransitions once the set and the reachable states
      are known: for each reachable state in order, the group of unique
      transitions that lead to it. */
  function PossibleTransitions(u: seq<Transition>, possible: seq<string>): seq<Transition>
    decreases |possible|
  {
    if possible == [] then []
    else PossibleTransitions(u, possible[..|possible| - 1]) + Group(u, possible[|possible| - 1])
  }

  // ---------------------------------------------------------------------
  // The set.

  lemma ElemsSnoc<T>(s: seq<T>)
    requires s != []
    ensures Elems(s) == Elems(s[..|s| - 1]) + {s[|s| - 1]}
  {
    assert s == s[..|s| - 1] + [s[|s| - 1]];
  }

  /** emplace keeps the set ordered and adds exactly the new transition;
      an equivalent transition already present is the same transition, so
      nothing is lost. */
  lemma {:induction false} InsertSpec(s: seq<Transition>, t: Transition)
    requires StrictlySorted(s)
    ensures StrictlySorted(Insert(s, t))
    ensures Elems(Insert(s, t)) == Elems(s) + {t}
    decreases |s|
  {
    if s == [] {
    } else if Less(t, s[0]) {
      InsertFront(s, t);
    } else if Less(s[0], t) {
      InsertSpec(s[1..], t);
      InsertBehind(s, t, Insert(s[1..], t));
    } else {
      EquivalentIffEqual(s[0], t);
    }
  }

  lemma InsertFront(s: seq<Transition>, t: Transition)
    requires StrictlySorted(s) && s != [] && Less(t, s[0])
    ensures StrictlySorted([t] + s) && Elems([t] + s) == Elems(s) + {t}
  {
    forall j | 0 < j < |s|
      ensures Less(t, s[j])
    {
      LessTransitive(t, s[0], s[j]);
    }
  }

  lemma InsertBehind(s: seq<Transition>, t: Transition, r: seq<Transition>)
    requires StrictlySorted(s) && s != [] && Less(s[0], t)
    requires StrictlySorted(r) && Elems(r) == Elems(s[1..]) + {t}
    ensures StrictlySorted([s[0]] + r)
    ensures Elems([s[0]] + r) == Elems(s) + {t}
  {
    var rest := s[1..];
    forall j | 0 <= j < |r|
      ensures Less(s[0], r[j])
    {
      assert r[j] in Elems(r);
      if r[j] != t {
        var k :| 0 <= k < |rest| && rest[k] == r[j];
        assert s[k + 1] == rest[k];
      }
    }
    assert s == [s[0]] + rest;
    assert Elems(s) == {s[0]} + Elems(rest);
    assert Elems([s[0]] + r) == {s[0]} + Elems(r);
  }

  lemma {:induction false} InsertAllSpec(s: seq<Transition>, ts: seq<Transition>)
    requires StrictlySorted(s)
    ensures StrictlySorted(InsertAll(s, ts))
    ensures Elems(InsertAll(s, ts)) == Elems(s) + Elems(ts)
    decreases |ts|
  {
    if ts != [] {
      InsertAllSpec(s, ts[..|ts| - 1]);
      InsertSpec(InsertAll(s, ts[..|ts| - 1]), ts[|ts| - 1]);
      ElemsSnoc(ts);
    }
  }

  /** GetUniqueTransitions yields each transition occurring in the table
      exactly once, in ascending order. */
  lemma {:induction false} UniqueTransitionsSpec(table: MealyTransitionTable)
    ensures StrictlySorted(UniqueTransitions(table))
    ensures Elems(UniqueTransitions(table)) == TableTransitions(table)
    decreases |table|
  {
    if table != [] {
      UniqueTransitionsSpec(table[..|table| - 1]);
      InsertAllSpec(UniqueTransitions(table[..|table| - 1]), table[|table| - 1].1);
    }
  }

  /** The table's transitions are those found in some row at some column,
      whether or not that column's state is ever reached. */
  lemma {:induction false} TableTransitionsMembers(table: MealyTransitionTable, t: Transition)
    ensures t in TableTransitions(table) <==>
              exists r, c :: 0 <= r < |table| && 0 <= c < |table[r].1| && table[r].1[c] == t
    decreases |table|
  {
    if table != [] {
      var init := table[..|table| - 1];
      var last := table[|table| - 1];
      TableTransitionsMembers(init, t);
      if t in TableTransitions(init) {
        var r, c :| 0 <= r < |init| && 0 <= c < |init[r].1| && init[r].1[c] == t;
        assert table[r] == init[r];
      } else if t in Elems(last.1) {
        var c :| 0 <= c < |last.1| && last.1[c] == t;
        assert table[|table| - 1].1[c] == t;
      }
      if exists r, c :: 0 <= r < |table| && 0 <= c < |table[r].1| && table[r].1[c] == t {
        var r, c :| 0 <= r < |table| && 0 <= c < |table[r].1| && table[r].1[c] == t;
        if r < |init| {
          assert init[r] == table[r];
        } else {
          assert t in Elems(last.1);
        }
      }
    }
  }

  // ---------------------------------------------------------------------
  // One destination's group.

  /** A group holds exactly the transitions of `u` that lead to `state`. */
  lemma {:induction false} GroupMembers(u: seq<Transition>, state: string)
    ensures forall i :: 0 <= i < |Group(u, state)| ==> Group(u, state)[i].nextState == state
    ensures Elems(Group(u, state)) == set t | t in u && t.nextState == state
    decreases |u|
  {
    if u != [] {
      var init := u[..|u| - 1];
      GroupMembers(init, state);
      ElemsSnoc(u);
      var g := Group(init, state);
      var t := u[|u| - 1];
      if t.nextState == state {
        ElemsSnoc(g + [t]);
        assert (g + [t])[..|g|] == g;
      } else {
        assert g + [] == g;
      }
    }
  }

  /** A group taken from an ordered set is ordered; in it the transitions
      share their destination, so they ascend by output symbol. */
  lemma {:induction false} GroupSorted(u: seq<Transition>, state: string)
    requires StrictlySorted(u)
    ensures StrictlySorted(Group(u, state))
    decreases |u|
  {
    if u != [] {
      var init := u[..|u| - 1];
      var t := u[|u| - 1];
      GroupSorted(init, state);
      GroupMembers(init, state);
      var g := Group(init, state);
      if t.nextState == state {
        forall i | 0 <= i < |g|
          ensures Less(g[i], t)
        {
          assert g[i] in Elems(g);
          var k :| 0 <= k < |init| && init[k] == g[i];
          assert u[k] == init[k];
        }
      } else {
        assert g + [] == g;
      }
    }
  }

  /** Positions `i` to `m` of `u` add nothing to the group. */
  lemma {:induction false} GroupUnchanged(u: seq<Transition>, state: string, i: nat, m: nat)
    requires i <= m <= |u|
    requires forall j :: i <= j < m ==> u[j].nextState != state
    ensures Group(u[..m], state) == Group(u[..i], state)
    decreases m
  {
    if m > i {
      GroupUnchanged(u, state, i, m - 1);
      assert u[..m][..m - 1] == u[..m - 1];
      assert Group(u[..m - 1], state) + [] == Group(u[..m - 1], state);
    }
  }

  /** The early exit of the scan: once a transition to `state` has been
      seen at `k`, the first one with another destination ends the group,
      because an ordered set keeps each destination's transitions
      together. */
  lemma GroupStopsAtBreak(u: seq<Transition>, state: string, k: nat, i: nat)
    requires StrictlySorted(u)
    requires k < i < |u| && u[k].nextState == state && u[i].nextState != state
    ensures Group(u, state) == Group(u[..i], state)
  {
    forall j | i <= j < |u|
      ensures u[j].nextState != state
    {
      if j > i && u[j].nextState == state {
        DestinationsContiguous(u, k, i, j);
      }
    }
    GroupUnchanged(u, state, i, |u|);
    assert u[..|u|] == u;
  }

  // ---------------------------------------------------------------------
  // The possible transitions.

  /** A possible transition is a unique transition whose destination is a
      reachable state, and every such transition is possible. */
  lemma {:induction false} PossibleTransitionsMembers(u: seq<Transition>, possible: seq<string>)
    ensures forall t :: t in PossibleTransitions(u, possible) <==> t in u && t.nextState in possible
    decreases |possible|
  {
    if possible != [] {
      var init := possible[..|possible| - 1];
      var last := possible[|possible| - 1];
      PossibleTransitionsMembers(u, init);
      GroupMembers(u, last);
      assert possible == init + [last];
      forall t
        ensures t in Group(u, last) <==> t in u && t.nextState == last
      {
        assert t in Group(u, last) <==> t in Elems(Group(u, last));
      }
    }
  }

  lemma FindSnoc<T>(xs: seq<T>, y: T, x: T)
    requires x in xs
    ensures Find(xs + [y], x) == Find(xs, x)
  {
    var i := Find(xs, x);
    forall j | 0 <= j < i
      ensures (xs + [y])[j] != x
    {
      FindIsFirst(xs, x, j);
    }
    FindIsAt(xs + [y], x, i);
  }

  /** Transitions appear grouped by destination, the groups in the order of
      `states`, and with ascending output symbols inside a group. */
  predicate GroupedBy(pt: seq<Transition>, states: seq<string>)
  {
    forall i, j :: 0 <= i < j < |pt| ==>
      || Find(states, pt[i].nextState) < Find(states, pt[j].nextState)
      || (pt[i].nextState == pt[j].nextState && StringLess(pt[i].outputSymbol, pt[j].outputSymbol))
  }

  /** The possible transitions are grouped by destination, the groups in
      the order of the reachable-state list; inside a group the output
      symbols ascend. In particular no transition occurs twice. */
  lemma {:induction false} PossibleTransitionsOrder(u: seq<Transition>, possible: seq<string>)
    requires StrictlySorted(u) && Distinct(possible)
    ensures GroupedBy(PossibleTransitions(u, possible), possible)
    decreases |possible|
  {
    if possible != [] {
      var init := possible[..|possible| - 1];
      var last := possible[|possible| - 1];
      var a := PossibleTransitions(u, init);
      var g := Group(u, last);
      var pt := a + g;
      assert possible == init + [last];
      PossibleTransitionsOrder(u, init);
      PossibleTransitionsMembers(u, init);
      GroupMembers(u, last);
      GroupSorted(u, last);
      assert Find(possible, last) == |init|;
      forall i, j | 0 <= i < j < |pt|
        ensures || Find(possible, pt[i].nextState) < Find(possible, pt[j].nextState)
                || (pt[i].nextState == pt[j].nextState && StringLess(pt[i].outputSymbol, pt[j].outputSymbol))
      {
        if j < |a| {
          OrderWithinEarlier(u, init, last, i, j);
        } else if i < |a| {
          assert pt[i] == a[i] && pt[j] == g[j - |a|];
          assert a[i] in a;
          FindSnoc(init, last, a[i].nextState);
          assert Find(possible, pt[i].nextState) < |init|;
        } else {
          assert pt[i] == g[i - |a|] && pt[j] == g[j - |a|];
        }
      }
    }
  }

  /** Two transitions of the earlier groups keep their relative order once
      a group is appended. */
  lemma OrderWithinEarlier(u: seq<Transition>, init: seq<string>, last: string, i: nat, j: nat)
    requires var a := PossibleTransitions(u, init);
      && i < j < |a|
      && (forall t :: t in a <==> t in u && t.nextState in init)
      && (|| Find(init, a[i].nextState) < Find(init, a[j].nextState)
          || (a[i].nextState == a[j].nextState && StringLess(a[i].outputSymbol, a[j].outputSymbol)))
    ensures var a := PossibleTransitions(u, init);
      var pt := a + Group(u, last);
      || Find(init + [last], pt[i].nextState) < Find(init + [last], pt[j].nextState)
      || (pt[i].nextState == pt[j].nextState && StringLess(pt[i].outputSymbol, pt[j].outputSymbol))
  {
    var a := PossibleTransitions(u, init);
    var pt := a + Group(u, last);
    assert pt[i] == a[i] && pt[j] == a[j];
    assert a[i] in a && a[j] in a;
    FindSnoc(init, last, a[i].nextState);
    FindSnoc(init, last, a[j].nextState);
  }

  lemma PossibleTransitionsDistinct(u: seq<Transition>, possible: seq<string>)
    requires StrictlySorted(u) && Distinct(possible)
    ensures Distinct(PossibleTransitions(u, possible))
  {
    var pt := PossibleTransitions(u, possible);
    PossibleTransitionsOrder(u, possible);
    forall i, j | 0 <= i < j < |pt|
      ensures pt[i] != pt[j]
    {
      StringLessIrreflexive(pt[i].outputSymbol);
    }
  }
}
