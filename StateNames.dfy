/** How the Mealy-to-Moore conversion names its new states and orders them
    (Converter/MealyToMooreConverter.h): the k-th possible transition
    becomes the state `q` followed by k in decimal, and the state list is
    sorted by these names as strings. */
module StateNames {
  import opened Transitions
  import opened Moore

  /** The decimal digit for `d`. */
  function Digit(d: nat): (c: char)
    requires d < 10
    ensures '0' <= c <= '9'
  {
    (('0' as int) + d) as char
  }

  /** std::to_string of an unsigned number: its decimal digits, most
      significant first, without leading zeros. */
  function Decimal(n: nat): (r: string)
    ensures 0 < |r|
    decreases n
  {
    if n < 10 then [Digit(n)] else Decimal(n / 10) + [Digit(n % 10)]
  }

  /** Every character of Decimal(n) is a digit, and it begins with '0'
      only when n is 0: there are no leading zeros. */
  lemma {:induction false} DecimalDigits(n: nat)
    ensures forall i :: 0 <= i < |Decimal(n)| ==> '0' <= Decimal(n)[i] <= '9'
    ensures (Decimal(n)[0] == '0') == (n == 0)
    decreases n
  {
    if n >= 10 {
      DecimalDigits(n / 10);
      assert Decimal(n)[0] == Decimal(n / 10)[0];
    }
  }

  /** The letter every new Moore state name starts with. */
  const STATE_CHAR: char := 'q'

  /** STATE_CHAR followed by the index in decimal. */
  function StateName(k: nat): string
  {
    [STATE_CHAR] + Decimal(k)
  }

  /** Different numbers are written differently. */
  lemma {:induction false} DecimalInjective(a: nat, b: nat)
    requires Decimal(a) == Decimal(b)
    ensures a == b
    decreases a
  {
    var da, db := Decimal(a), Decimal(b);
    if a >= 10 && b >= 10 {
      assert da[..|da| - 1] == Decimal(a / 10) && db[..|db| - 1] == Decimal(b / 10);
      DecimalInjective(a / 10, b / 10);
      assert Digit(a % 10) == da[|da| - 1] == db[|db| - 1] == Digit(b % 10);
    }
  }

  /** The new states' names are pairwise distinct: each begins with 'q' and
      then spells its own index. */
  lemma StateNamesDistinct(a: nat, b: nat)
    ensures StateName(a)[0] == 'q'
    ensures StateName(a) == StateName(b) <==> a == b
  {
    if StateName(a) == StateName(b) {
      assert Decimal(a) == StateName(a)[1..] == StateName(b)[1..] == Decimal(b);
      DecimalInjective(a, b);
    }
  }

  /** Sorting by name as a string does not follow the indices: "q10" comes
      before "q2". */
  lemma NameOrderIsNotIndexOrder()
    ensures StringLess(StateName(10), StateName(2))
    ensures !StringLess(StateName(2), StateName(10))
  {
    assert Decimal(10) == Decimal(1) + [Digit(0)] == "10";
    assert StateName(10) == "q10" && StateName(2) == "q2";
    assert StringLess("q10"[1..], "q2"[1..]);
    assert !StringLess("q2"[1..], "q10"[1..]);
  }

  // ---------------------------------------------------------------------
  // std::sort of the state list by name.

  /** Ordered by the comparator `a.first < b.first`: no entry's name is
      less than an earlier entry's. */
  predicate SortedByName(info: MooreStatesInfo)
  {
    forall i, j :: 0 <= i < j < |info| ==> !StringLess(info[j].0, info[i].0)
  }

  /** No two entries share a name. */
  predicate DistinctNames(info: MooreStatesInfo)
  {
    forall i, j :: 0 <= i < j < |info| ==> info[i].0 != info[j].0
  }

  /** Reordering a list whose names are distinct keeps them distinct. */
  lemma DistinctNamesPermutation(a: MooreStatesInfo, b: MooreStatesInfo)
    requires multiset(a) == multiset(b) && DistinctNames(b)
    ensures DistinctNames(a)
  {
    forall i, j | 0 <= i < j < |a|
      ensures a[i].0 != a[j].0
    {
      assert a[i] in multiset(b) && a[j] in multiset(b);
      var p :| 0 <= p < |b| && b[p] == a[i];
      var q :| 0 <= q < |b| && b[q] == a[j];
      OccursOnce(b, p);
      if a[i] == a[j] {
        OccursTwice(a, i, j);
      }
      if a[i].0 == a[j].0 {
        assert false;
      }
    }
  }

  lemma OccursOnce(b: MooreStatesInfo, p: nat)
    requires DistinctNames(b) && p < |b|
    ensures multiset(b)[b[p]] == 1
  {
    assert b == b[..p] + [b[p]] + b[p + 1..];
    assert b[p] !in b[..p] && b[p] !in b[p + 1..];
  }

  lemma OccursTwice(a: MooreStatesInfo, i: nat, j: nat)
    requires i < j < |a| && a[i] == a[j]
    ensures multiset(a)[a[i]] >= 2
  {
    assert a == a[..i] + [a[i]] + a[i + 1..j] + [a[j]] + a[j + 1..];
  }

  /** `e` placed before the first entry whose name is not less than its
      own. */
  function InsertByName(info: MooreStatesInfo, e: (string, string)): MooreStatesInfo
    decreases |info|
  {
    if info == [] || !StringLess(info[0].0, e.0) then [e] + info
    else [info[0]] + InsertByName(info[1..], e)
  }

  /** A sorting of the list by name (the effect of std::sort with the
      name comparator). */
  function SortByName(info: MooreStatesInfo): MooreStatesInfo
    decreases |info|
  {
    if info == [] then []
    else InsertByName(SortByName(info[..|info| - 1]), info[|info| - 1])
  }

  lemma NotLessTransitive(a: string, b: string, c: string)
    requires !StringLess(b, a) && !StringLess(c, b)
    ensures !StringLess(c, a)
  {
    StringLessTotal(a, b);
    StringLessTotal(b, c);
    if StringLess(c, a) {
      if a != b && b != c {
        StringLessTransitive(a, b, c);
        StringLessAsymmetric(a, c);
      } else {
        StringLessAsymmetric(c, a);
      }
    }
  }

  lemma {:induction false} InsertByNameSpec(info: MooreStatesInfo, e: (string, string))
    requires SortedByName(info)
    ensures SortedByName(InsertByName(info, e))
    ensures multiset(InsertByName(info, e)) == multiset(info) + multiset{e}
    decreases |info|
  {
    if info == [] {
    } else if !StringLess(info[0].0, e.0) {
      forall j | 0 < j < |info|
        ensures !StringLess(info[j].0, e.0)
      {
        NotLessTransitive(e.0, info[0].0, info[j].0);
      }
    } else {
      InsertByNameSpec(info[1..], e);
      InsertBehindByName(info, e, InsertByName(info[1..], e));
    }
  }

  lemma InsertBehindByName(info: MooreStatesInfo, e: (string, string), r: MooreStatesInfo)
    requires SortedByName(info) && info != [] && StringLess(info[0].0, e.0)
    requires SortedByName(r) && multiset(r) == multiset(info[1..]) + multiset{e}
    ensures SortedByName([info[0]] + r)
    ensures multiset([info[0]] + r) == multiset(info) + multiset{e}
  {
    var rest := info[1..];
    forall j | 0 <= j < |r|
      ensures !StringLess(r[j].0, info[0].0)
    {
      assert r[j] in multiset(r);
      if r[j] == e {
        StringLessAsymmetric(info[0].0, e.0);
      } else {
        assert r[j] in multiset(rest);
        var k :| 0 <= k < |rest| && rest[k] == r[j];
        assert info[k + 1] == rest[k];
      }
    }
    assert info == [info[0]] + rest;
  }

  /** Sorting yields a list ordered by name holding the same entries. */
  lemma {:induction false} SortByNameSpec(info: MooreStatesInfo)
    ensures SortedByName(SortByName(info))
    ensures multiset(SortByName(info)) == multiset(info)
    decreases |info|
  {
    if info != [] {
      var init := info[..|info| - 1];
      SortByNameSpec(init);
      InsertByNameSpec(SortByName(init), info[|info| - 1]);
      assert info == init + [info[|info| - 1]];
    }
  }

  /** When the names are distinct there is only one ordering by name: the
      result of the sort does not depend on the order of its input, nor on
      the sort being unstable. */
  lemma {:induction false} SortedByNameUnique(a: MooreStatesInfo, b: MooreStatesInfo)
    requires SortedByName(a) && SortedByName(b) && DistinctNames(a)
    requires multiset(a) == multiset(b)
    ensures a == b
    decreases |a|
  {
    assert |a| == |multiset(a)| == |multiset(b)| == |b|;
    if a != [] {
      SameFirst(a, b);
      assert multiset(a) == multiset{a[0]} + multiset(a[1..]) by {
        assert a == [a[0]] + a[1..];
      }
      assert multiset(b) == multiset{b[0]} + multiset(b[1..]) by {
        assert b == [b[0]] + b[1..];
      }
      assert multiset(a[1..]) == multiset(a) - multiset{a[0]};
      assert multiset(b[1..]) == multiset(b) - multiset{b[0]};
      SortedByNameUnique(a[1..], b[1..]);
      assert a == [a[0]] + a[1..] && b == [b[0]] + b[1..];
    }
  }

  /** Both orderings start with the entry of least name. */
  lemma SameFirst(a: MooreStatesInfo, b: MooreStatesInfo)
    requires SortedByName(a) && SortedByName(b) && DistinctNames(a)
    requires multiset(a) == multiset(b) && a != [] && b != []
    ensures a[0] == b[0]
  {
    assert a[0] in multiset(b) && b[0] in multiset(a);
    var i :| 0 <= i < |a| && a[i] == b[0];
    var j :| 0 <= j < |b| && b[j] == a[0];
    if i != 0 {
      assert j != 0;
      assert !StringLess(a[i].0, a[0].0) && !StringLess(b[j].0, b[0].0);
      StringLessTotal(a[0].0, b[0].0);
      assert false;
    }
  }
}
