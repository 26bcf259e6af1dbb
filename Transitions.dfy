/** The Transition record of Automata/IAutomata.h and the ordering that
    std::set and std::map use for it. Strings are compared the way
    std::string's operator< compares them: character by character, a proper
    prefix before any longer string. */
module Transitions {

  /** A Mealy edge: the state it leads to and the output emitted on the way. */
  datatype Transition = Transition(nextState: string, outputSymbol: string)

  /** std::string's operator< (lexicographic on character codes). Dafny's
      own `<` on sequences is "proper prefix", which is not this order. */
  predicate StringLess(a: string, b: string)
    decreases |a|
  {
    if a == [] then b != []
    else if b == [] then false
    else if a[0] != b[0] then a[0] < b[0]
    else StringLess(a[1..], b[1..])
  }

  /** Transition::operator<: by destination first, then by output symbol. */
  predicate Less(a: Transition, b: Transition)
  {
    if a.nextState != b.nextState then StringLess(a.nextState, b.nextState)
    else StringLess(a.outputSymbol, b.outputSymbol)
  }

  /** The elements of a sequence, as a set. */
  function Elems<T>(s: seq<T>): set<T>
  {
    set x | x in s
  }

  /** Appending one element adds it to the set of elements. */
  lemma ElemsAppend<T>(s: seq<T>, x: T)
    ensures Elems(s + [x]) == Elems(s) + {x}
  {
  }

  /** No element occurs twice. */
  predicate Distinct<T(==)>(s: seq<T>)
  {
    forall i, j :: 0 <= i < j < |s| ==> s[i] != s[j]
  }

  /** A sequence without duplicates holds each of its elements once. */
  lemma {:induction false} DistinctMultiset<T>(s: seq<T>)
    requires Distinct(s)
    ensures multiset(s) == multiset(Elems(s))
    decreases |s|
  {
    if s != [] {
      var init, x := s[..|s| - 1], s[|s| - 1];
      assert s == init + [x];
      DistinctMultiset(init);
      assert Elems(s) == Elems(init) + {x};
      assert x !in Elems(init);
    }
  }

  /** The sequence is ordered by Less without ties: the order in which a
      std::set<Transition> holds and iterates its elements. */
  predicate StrictlySorted(s: seq<Transition>)
  {
    forall i, j :: 0 <= i < j < |s| ==> Less(s[i], s[j])
  }

  /** std::find followed by std::distance: the index of the first occurrence
      of `x`, or |xs| when there is none. */
  function Find<T(==)>(xs: seq<T>, x: T): (r: nat)
    ensures r <= |xs|
    ensures r < |xs| ==> xs[r] == x
    ensures r == |xs| <==> x !in xs
  {
    FindFrom(xs, x, 0)
  }

  /** The scan std::find performs, from position `i` on. */
  function FindFrom<T(==)>(xs: seq<T>, x: T, i: nat): (r: nat)
    requires i <= |xs|
    ensures i <= r <= |xs|
    ensures r < |xs| ==> xs[r] == x
    ensures r == |xs| ==> forall j :: i <= j < |xs| ==> xs[j] != x
    decreases |xs| - i
  {
    if i == |xs| then i
    else if xs[i] == x then i
    else FindFrom(xs, x, i + 1)
  }

  lemma {:induction false} FindFromIsFirst<T>(xs: seq<T>, x: T, i: nat, j: nat)
    requires i <= |xs| && i <= j < FindFrom(xs, x, i)
    ensures xs[j] != x
    decreases |xs| - i
  {
    if j > i {
      FindFromIsFirst(xs, x, i + 1, j);
    }
  }

  /** No element before the one Find returns equals `x`. */
  lemma FindIsFirst<T>(xs: seq<T>, x: T, j: nat)
    requires j < Find(xs, x)
    ensures xs[j] != x
  {
    FindFromIsFirst(xs, x, 0, j);
  }

  lemma {:induction false} FindFromIsAt<T>(xs: seq<T>, x: T, i: nat, k: nat)
    requires i <= k < |xs| && xs[k] == x
    requires forall j :: i <= j < k ==> xs[j] != x
    ensures FindFrom(xs, x, i) == k
    decreases |xs| - i
  {
    if i < k {
      FindFromIsAt(xs, x, i + 1, k);
    }
  }

  /** Find returns the first position holding `x`. */
  lemma FindIsAt<T>(xs: seq<T>, x: T, k: nat)
    requires k < |xs| && xs[k] == x
    requires forall j :: 0 <= j < k ==> xs[j] != x
    ensures Find(xs, x) == k
  {
    FindFromIsAt(xs, x, 0, k);
  }

  // ---------------------------------------------------------------------
  // std::string's operator< is a strict total order.

  lemma {:induction false} StringLessIrreflexive(a: string)
    ensures !StringLess(a, a)
    decreases |a|
  {
    if a != [] {
      StringLessIrreflexive(a[1..]);
    }
  }

  lemma {:induction false} StringLessTransitive(a: string, b: string, c: string)
    requires StringLess(a, b) && StringLess(b, c)
    ensures StringLess(a, c)
    decreases |a|
  {
    if a != [] && b != [] && c != [] && a[0] == b[0] && b[0] == c[0] {
      StringLessTransitive(a[1..], b[1..], c[1..]);
    }
  }

  lemma {:induction false} StringLessTotal(a: string, b: string)
    ensures a == b || StringLess(a, b) || StringLess(b, a)
    decreases |a|
  {
    if a != [] && b != [] && a[0] == b[0] {
      StringLessTotal(a[1..], b[1..]);
      if a[1..] == b[1..] {
        assert a == [a[0]] + a[1..] && b == [b[0]] + b[1..];
      }
    }
  }

  lemma StringLessAsymmetric(a: string, b: string)
    requires StringLess(a, b)
    ensures !StringLess(b, a)
  {
    if StringLess(b, a) {
      StringLessTransitive(a, b, a);
      StringLessIrreflexive(a);
    }
  }

  // ---------------------------------------------------------------------
  // Transition::operator< is a strict total order, and the equivalence it
  // induces (neither is less than the other), which std::set uses to decide
  // that two transitions are the same, is plain equality of both fields.

  lemma LessIrreflexive(a: Transition)
    ensures !Less(a, a)
  {
    StringLessIrreflexive(a.outputSymbol);
  }

  lemma LessTransitive(a: Transition, b: Transition, c: Transition)
    requires Less(a, b) && Less(b, c)
    ensures Less(a, c)
  {
    if a.nextState == b.nextState && b.nextState == c.nextState {
      StringLessTransitive(a.outputSymbol, b.outputSymbol, c.outputSymbol);
    } else if a.nextState != b.nextState && b.nextState != c.nextState {
      StringLessTransitive(a.nextState, b.nextState, c.nextState);
      if a.nextState == c.nextState {
        StringLessIrreflexive(a.nextState);
      }
    }
  }

  lemma EquivalentIffEqual(a: Transition, b: Transition)
    ensures !Less(a, b) && !Less(b, a) <==> a == b
  {
    if a == b {
      LessIrreflexive(a);
    } else if a.nextState != b.nextState {
      StringLessTotal(a.nextState, b.nextState);
    } else {
      StringLessTotal(a.outputSymbol, b.outputSymbol);
    }
  }

  lemma LessAsymmetric(a: Transition, b: Transition)
    requires Less(a, b)
    ensures !Less(b, a)
  {
    if Less(b, a) {
      LessTransitive(a, b, a);
      LessIrreflexive(a);
    }
  }

  /** In a strictly sorted sequence, the transitions that share a destination
      are contiguous. */
  lemma DestinationsContiguous(s: seq<Transition>, i: nat, j: nat, k: nat)
    requires StrictlySorted(s)
    requires i < j < k < |s|
    requires s[i].nextState == s[k].nextState
    ensures s[j].nextState == s[i].nextState
  {
    var a, b, c := s[i], s[j], s[k];
    assert Less(a, b) && Less(b, c);
    if b.nextState != a.nextState {
      assert StringLess(a.nextState, b.nextState);
      assert StringLess(b.nextState, c.nextState);
      StringLessTransitive(a.nextState, b.nextState, c.nextState);
      StringLessIrreflexive(a.nextState);
    }
  }

  /** A strictly sorted sequence has no duplicates. */
  lemma StrictlySortedDistinct(s: seq<Transition>)
    requires StrictlySorted(s)
    ensures Distinct(s)
  {
    forall i, j | 0 <= i < j < |s|
      ensures s[i] != s[j]
    {
      LessIrreflexive(s[i]);
    }
  }

  /** Two strictly sorted sequences holding the same elements are equal:
      the iteration order of a std::set is determined by its contents. */
  lemma {:induction false} StrictlySortedUnique(s: seq<Transition>, t: seq<Transition>)
    requires StrictlySorted(s) && StrictlySorted(t)
    requires Elems(s) == Elems(t)
    ensures s == t
    decreases |s|
  {
    assert s != [] ==> s[0] in Elems(s);
    assert t != [] ==> t[0] in Elems(t);
    if s != [] && t != [] {
      if s[0] != t[0] {
        var i :| 0 <= i < |t| && t[i] == s[0];
        var j :| 0 <= j < |s| && s[j] == t[0];
        assert Less(s[0], s[j]) && Less(t[0], t[i]);
        LessAsymmetric(s[0], t[0]);
        assert false;
      }
      assert Elems(s[1..]) == Elems(s) - {s[0]} by {
        StrictlySortedDistinct(s);
      }
      assert Elems(t[1..]) == Elems(t) - {t[0]} by {
        StrictlySortedDistinct(t);
      }
      StrictlySortedUnique(s[1..], t[1..]);
      assert s == [s[0]] + s[1..] && t == [t[0]] + t[1..];
    }
  }
}
