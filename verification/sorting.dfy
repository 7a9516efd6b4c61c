/** Sorting string lists the way `Array.prototype.sort()` without a comparator does,
    and listing the keys of a map in that order (`Object.keys(m).sort()`). */
module Sorting {
  import opened StringOrder

  predicate Sorted(s: seq<string>)
  {
    forall i, j :: 0 <= i < j < |s| ==> LexLe(s[i], s[j])
  }

  /** The head of a sorted list sorts no later than anything in it. */
  lemma SortedHeadIsLeast(s: seq<string>, y: string)
    requires Sorted(s) && y in multiset(s)
    ensures LexLe(s[0], y)
  {
    var k :| 0 <= k < |s| && s[k] == y;
    if k == 0 {
      LexLeReflexive(y);
    }
  }

  /** Inserting `x`, which sorts after the head of `s`, into the rest of `s` gives a list whose
      elements all sort no earlier than that head. */
  lemma InsertedTailBounded(x: string, s: seq<string>, tail: seq<string>)
    requires Sorted(s) && |s| > 0 && !LexLe(x, s[0])
    requires multiset(tail) == multiset(s[1..]) + multiset{x}
    ensures forall j :: 0 <= j < |tail| ==> LexLe(s[0], tail[j])
  {
    LexLeTotal(x, s[0]);
    assert s == [s[0]] + s[1..];
    forall j | 0 <= j < |tail|
      ensures LexLe(s[0], tail[j])
    {
      assert tail[j] in multiset(tail);
      if tail[j] != x {
        assert tail[j] in multiset(s[1..]);
        var k :| 0 <= k < |s[1..]| && s[1..][k] == tail[j];
        assert s[k + 1] == tail[j];
      }
    }
  }

  /** Inserts `x` before the first element of `s` it sorts no later than. */
  function Insert(x: string, s: seq<string>): seq<string>
  {
    if |s| == 0 then [x]
    else if LexLe(x, s[0]) then [x] + s
    else [s[0]] + Insert(x, s[1..])
  }

  /** Insertion into a sorted list keeps it sorted and adds exactly the new element. */
  lemma {:induction false} InsertKeepsSorted(x: string, s: seq<string>)
    requires Sorted(s)
    ensures Sorted(Insert(x, s))
    ensures multiset(Insert(x, s)) == multiset(s) + multiset{x}
  {
    if |s| == 0 {
    } else if LexLe(x, s[0]) {
      forall j | 0 <= j < |s|
        ensures LexLe(x, s[j])
      {
        if j > 0 {
          LexLeTransitive(x, s[0], s[j]);
        }
      }
    } else {
      InsertKeepsSorted(x, s[1..]);
      InsertedTailBounded(x, s, Insert(x, s[1..]));
      assert s == [s[0]] + s[1..];
    }
  }

  /** Insertion sort, the stand-in for `Array.prototype.sort()` without a comparator. */
  function Sort(s: seq<string>): seq<string>
  {
    if |s| == 0 then [] else Insert(s[0], Sort(s[1..]))
  }

  /** Sorting yields an ascending permutation of its input. */
  lemma {:induction false} SortIsSortedPermutation(s: seq<string>)
    ensures Sorted(Sort(s))
    ensures multiset(Sort(s)) == multiset(s)
  {
    if |s| > 0 {
      SortIsSortedPermutation(s[1..]);
      InsertKeepsSorted(s[0], Sort(s[1..]));
      assert s == [s[0]] + s[1..];
    }
  }

  /** Splitting a sorted list into its head and its tail. */
  lemma HeadAndTail(s: seq<string>)
    requires Sorted(s) && |s| > 0
    ensures Sorted(s[1..])
    ensures multiset(s[1..]) == multiset(s) - multiset{s[0]}
    ensures s == [s[0]] + s[1..]
  {
    assert s == [s[0]] + s[1..];
    assert multiset(s) == multiset{s[0]} + multiset(s[1..]);
  }

  /** A list has only one ascending arrangement: two sorted lists with the same elements,
      counted with multiplicity, are equal. */
  lemma {:induction false} SortedUnique(a: seq<string>, b: seq<string>)
    requires Sorted(a) && Sorted(b)
    requires multiset(a) == multiset(b)
    ensures a == b
  {
    if |a| == 0 {
      assert |multiset(b)| == 0;
    } else {
      assert |b| == |multiset(b)| == |multiset(a)| == |a|;
      assert a[0] in multiset(a);
      SortedHeadIsLeast(b, a[0]);
      assert b[0] in multiset(b);
      SortedHeadIsLeast(a, b[0]);
      LexLeAntisymmetric(a[0], b[0]);
      HeadAndTail(a);
      HeadAndTail(b);
      SortedUnique(a[1..], b[1..]);
    }
  }

  /** The outcome of sorting depends only on which elements are present, not on the order
      they were given in. */
  lemma SortPermutationInvariant(a: seq<string>, b: seq<string>)
    requires multiset(a) == multiset(b)
    ensures Sort(a) == Sort(b)
  {
    SortIsSortedPermutation(a);
    SortIsSortedPermutation(b);
    SortedUnique(Sort(a), Sort(b));
  }

  /** `x` sorts no later than every member of `s`. */
  predicate IsLeast(x: string, s: set<string>)
  {
    x in s && forall y :: y in s ==> LexLe(x, y)
  }

  lemma {:induction false} LeastExists(s: set<string>)
    requires s != {}
    ensures exists x :: IsLeast(x, s)
    decreases s
  {
    var y :| y in s;
    if s == {y} {
      LexLeReflexive(y);
      assert IsLeast(y, s);
    } else {
      LeastExists(s - {y});
      var x :| IsLeast(x, s - {y});
      LexLeTotal(x, y);
      if LexLe(x, y) {
        assert IsLeast(x, s);
      } else {
        forall z | z in s
          ensures LexLe(y, z)
        {
          if z == y {
            LexLeReflexive(y);
          } else {
            LexLeTransitive(y, x, z);
          }
        }
        assert IsLeast(y, s);
      }
    }
  }

  lemma LeastUnique(s: set<string>)
    ensures forall x, y :: IsLeast(x, s) && IsLeast(y, s) ==> x == y
  {
    forall x, y | IsLeast(x, s) && IsLeast(y, s)
      ensures x == y
    {
      LexLeAntisymmetric(x, y);
    }
  }

  /** Putting the least member in front of a sorted listing of the others lists them all. */
  lemma LeastFirst(x: string, s: set<string>, rest: seq<string>)
    requires IsLeast(x, s)
    requires Sorted(rest) && multiset(rest) == multiset(s - {x})
    ensures Sorted([x] + rest)
    ensures multiset([x] + rest) == multiset(s)
  {
    assert multiset(s) == multiset{x} + multiset(s - {x}) by {
      assert s == {x} + (s - {x});
    }
    forall j | 0 <= j < |rest|
      ensures LexLe(x, rest[j])
    {
      assert rest[j] in multiset(rest);
    }
  }

  /** The members of `s` least first: what `Object.keys(m).sort()` yields for a map whose key
      set is `s`. */
  function SortedKeys(s: set<string>): seq<string>
    decreases s
  {
    if s == {} then []
    else
      LeastExists(s);
      LeastUnique(s);
      var x :| IsLeast(x, s);
      [x] + SortedKeys(s - {x})
  }

  /** The sorted key list is ascending and lists each member of the set exactly once. */
  lemma {:induction false} SortedKeysListsSet(s: set<string>)
    ensures Sorted(SortedKeys(s))
    ensures multiset(SortedKeys(s)) == multiset(s)
    decreases s
  {
    if s != {} {
      LeastExists(s);
      LeastUnique(s);
      var x :| IsLeast(x, s);
      assert SortedKeys(s) == [x] + SortedKeys(s - {x});
      SortedKeysListsSet(s - {x});
      LeastFirst(x, s, SortedKeys(s - {x}));
    }
  }

  /** Whatever order the keys are enumerated in, sorting them gives `SortedKeys`:
      the key comparison is independent of the mapping's key order. */
  lemma SortedKeysIsSortOfAnyEnumeration(keys: seq<string>, s: set<string>)
    requires multiset(keys) == multiset(s)
    ensures Sort(keys) == SortedKeys(s)
  {
    SortIsSortedPermutation(keys);
    SortedKeysListsSet(s);
    SortedUnique(Sort(keys), SortedKeys(s));
  }

  /** Different key sets never list alike. */
  lemma SortedKeysInjective(s1: set<string>, s2: set<string>)
    requires SortedKeys(s1) == SortedKeys(s2)
    ensures s1 == s2
  {
    SortedKeysListsSet(s1);
    SortedKeysListsSet(s2);
    var m1, m2 := multiset(s1), multiset(s2);
    assert m1 == m2;
    forall x | x in s1
      ensures x in s2
    {
      assert x in m1;
    }
    forall x | x in s2
      ensures x in s1
    {
      assert x in m2;
    }
  }
}
