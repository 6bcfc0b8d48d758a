/**
 * Array.prototype.sort(comparefn) as sortUsers uses it (index.js:66): a
 * stable sort (section 23.1.3.30 of ECMA-262, 2023 edition) under a
 * consistent comparator. Its result is fixed: the records in comparator
 * order, records the comparator calls equal in their previous order.
 * StableSort computes that result by insertion; StableSortIsUnique shows that
 * every stable sort returns it.
 */
module Sorting {
  import opened Users

  /**
   * Swapping the arguments flips the sign of the answer; in particular every
   * record compares equal to itself.
   */
  ghost predicate Symmetric(cmp: (User, User) -> int)
  {
    forall a, b {:trigger cmp(a, b), cmp(b, a)} :: cmp(b, a) == -cmp(a, b)
  }

  /** "Not after" is transitive. */
  ghost predicate Transitive(cmp: (User, User) -> int)
  {
    forall a, b, c {:trigger cmp(a, b), cmp(b, c), cmp(a, c)} :: cmp(a, b) <= 0 && cmp(b, c) <= 0 ==> cmp(a, c) <= 0
  }

  /** A consistent comparator, as Array.prototype.sort expects one. */
  ghost predicate IsComparator(cmp: (User, User) -> int)
  {
    Symmetric(cmp) && Transitive(cmp)
  }

  /** Every record of r compares at most equal to every record after it. */
  ghost predicate Sorted(r: seq<User>, cmp: (User, User) -> int)
  {
    forall i, j :: 0 <= i < j < |r| ==> cmp(r[i], r[j]) <= 0
  }

  /** The records of s that cmp calls equal to y, in the order of s. */
  ghost function Tied(s: seq<User>, cmp: (User, User) -> int, y: User): (t: seq<User>)
  {
    if s == [] then []
    else Tied(s[..|s| - 1], cmp, y) + if cmp(s[|s| - 1], y) == 0 then [s[|s| - 1]] else []
  }

  /** Inserts x into t after every record that is not greater than x. */
  function Insert(t: seq<User>, x: User, cmp: (User, User) -> int): (r: seq<User>)
    ensures |r| == |t| + 1
    ensures multiset(r) == multiset(t) + multiset{x}
  {
    if t == [] then [x]
    else if cmp(t[|t| - 1], x) <= 0 then t + [x]
    else
      assert t == t[..|t| - 1] + [t[|t| - 1]];
      Insert(t[..|t| - 1], x, cmp) + [t[|t| - 1]]
  }

  /** users.sort(cmp): the stable sort of s, a permutation of s. */
  function StableSort(s: seq<User>, cmp: (User, User) -> int): (r: seq<User>)
    ensures |r| == |s|
    ensures multiset(r) == multiset(s)
  {
    if s == [] then []
    else
      assert s == s[..|s| - 1] + [s[|s| - 1]];
      Insert(StableSort(s[..|s| - 1], cmp), s[|s| - 1], cmp)
  }

  lemma TiedSnoc(a: seq<User>, e: User, cmp: (User, User) -> int, y: User)
    ensures Tied(a + [e], cmp, y) == Tied(a, cmp, y) + if cmp(e, y) == 0 then [e] else []
  {
    assert (a + [e])[..|a|] == a;
  }

  /** A record is tied with y in s exactly when it occurs in s and compares equal to y. */
  lemma {:induction false} TiedMembers(s: seq<User>, cmp: (User, User) -> int, y: User, u: User)
    ensures u in Tied(s, cmp, y) <==> u in s && cmp(u, y) == 0
  {
    if s != [] {
      var p := s[..|s| - 1];
      TiedMembers(p, cmp, y, u);
      assert s == p + [s[|s| - 1]];
    }
  }

  /** Insertion keeps a sorted list sorted. */
  lemma {:induction false} InsertSorted(t: seq<User>, x: User, cmp: (User, User) -> int)
    requires IsComparator(cmp)
    requires Sorted(t, cmp)
    ensures Sorted(Insert(t, x, cmp), cmp)
  {
    if t != [] {
      var n := |t| - 1;
      var p, l := t[..n], t[n];
      if cmp(l, x) <= 0 {
        var r := t + [x];
        assert Insert(t, x, cmp) == r;
        forall i, j | 0 <= i < j < |r|
          ensures cmp(r[i], r[j]) <= 0
        {
          if j == |t| && i < n {
            assert cmp(t[i], l) <= 0;
          }
        }
      } else {
        InsertSorted(p, x, cmp);
        var m := Insert(p, x, cmp);
        var r := m + [l];
        assert Insert(t, x, cmp) == r;
        forall i, j | 0 <= i < j < |r|
          ensures cmp(r[i], r[j]) <= 0
        {
          if j == |m| {
            assert m[i] in multiset(m);
            if m[i] != x {
              assert m[i] in multiset(p);
              var k :| 0 <= k < |p| && p[k] == m[i];
              assert t[k] == m[i];
            }
          }
        }
      }
    }
  }

  /** The stable sort puts the records in comparator order. */
  lemma {:induction false} StableSortSorted(s: seq<User>, cmp: (User, User) -> int)
    requires IsComparator(cmp)
    ensures Sorted(StableSort(s, cmp), cmp)
  {
    if s != [] {
      StableSortSorted(s[..|s| - 1], cmp);
      InsertSorted(StableSort(s[..|s| - 1], cmp), s[|s| - 1], cmp);
    }
  }

  /** Insertion places x after every record already tied with it. */
  lemma {:induction false} InsertStable(t: seq<User>, x: User, cmp: (User, User) -> int, y: User)
    requires IsComparator(cmp)
    ensures Tied(Insert(t, x, cmp), cmp, y) == Tied(t, cmp, y) + if cmp(x, y) == 0 then [x] else []
  {
    if t == [] {
      TiedSnoc([], x, cmp, y);
    } else {
      var n := |t| - 1;
      var p, l := t[..n], t[n];
      assert t == p + [l];
      if cmp(l, x) <= 0 {
        TiedSnoc(t, x, cmp, y);
      } else {
        var m := Insert(p, x, cmp);
        InsertStable(p, x, cmp, y);
        TiedSnoc(m, l, cmp, y);
        TiedSnoc(p, l, cmp, y);
        // l comes after x, so it is not tied with y when x is
        assert cmp(l, y) <= 0 && cmp(y, x) <= 0 ==> cmp(l, x) <= 0;
      }
    }
  }

  /** Stability: the records cmp calls equal to any y keep their relative order. */
  lemma {:induction false} StableSortStable(s: seq<User>, cmp: (User, User) -> int, y: User)
    requires IsComparator(cmp)
    ensures Tied(StableSort(s, cmp), cmp, y) == Tied(s, cmp, y)
  {
    if s != [] {
      var p, last := s[..|s| - 1], s[|s| - 1];
      assert s == p + [last];
      TiedSnoc(p, last, cmp, y);
      StableSortStable(p, cmp, y);
      InsertStable(StableSort(p, cmp), last, cmp, y);
    }
  }

  /** In a sorted list no record comes after the last one. */
  lemma NotAfterLast(r: seq<User>, cmp: (User, User) -> int, u: User)
    requires Symmetric(cmp)
    requires Sorted(r, cmp)
    requires u in r
    ensures cmp(u, r[|r| - 1]) <= 0
  {
    var i :| 0 <= i < |r| && r[i] == u;
    if i < |r| - 1 {
      assert cmp(r[i], r[|r| - 1]) <= 0;
    }
  }

  /** Of two sorted lists whose tied records agree, the last records are the same. */
  lemma SortedTiedSameLast(r1: seq<User>, r2: seq<User>, cmp: (User, User) -> int)
    requires Symmetric(cmp)
    requires Sorted(r1, cmp) && Sorted(r2, cmp)
    requires r1 != [] && r2 != []
    requires Tied(r1, cmp, r1[|r1| - 1]) == Tied(r2, cmp, r1[|r1| - 1])
    requires Tied(r1, cmp, r2[|r2| - 1]) == Tied(r2, cmp, r2[|r2| - 1])
    ensures r1[|r1| - 1] == r2[|r2| - 1]
  {
    var a, b := r1[|r1| - 1], r2[|r2| - 1];
    // b occurs in r1, so it is not after a; likewise a is not after b
    TiedMembers(r2, cmp, b, b);
    TiedMembers(r1, cmp, b, b);
    NotAfterLast(r1, cmp, b);
    TiedMembers(r1, cmp, a, a);
    TiedMembers(r2, cmp, a, a);
    NotAfterLast(r2, cmp, a);
    // so the last record tied with a is a in r1 and b in r2
    var t1, t2 := Tied(r1, cmp, a), Tied(r2, cmp, a);
    assert t1 == t2;
    assert t1[|t1| - 1] == a && t2[|t2| - 1] == b;
  }

  /** Dropping the same last record from two lists keeps their records tied with y in agreement. */
  lemma TiedDropLast(r1: seq<User>, r2: seq<User>, cmp: (User, User) -> int, y: User)
    requires r1 != [] && r2 != [] && r1[|r1| - 1] == r2[|r2| - 1]
    requires Tied(r1, cmp, y) == Tied(r2, cmp, y)
    ensures Tied(r1[..|r1| - 1], cmp, y) == Tied(r2[..|r2| - 1], cmp, y)
  {
    var t1, t2 := Tied(r1, cmp, y), Tied(r2, cmp, y);
    var q1, q2 := Tied(r1[..|r1| - 1], cmp, y), Tied(r2[..|r2| - 1], cmp, y);
    assert |q1| == |q2|;
    assert q1 == t1[..|q1|] && q2 == t2[..|q2|];
  }

  lemma SameLastAndRest(r1: seq<User>, r2: seq<User>)
    requires r1 != [] && r2 != [] && r1[|r1| - 1] == r2[|r2| - 1]
    requires r1[..|r1| - 1] == r2[..|r2| - 1]
    ensures r1 == r2
  {
    assert r1 == r1[..|r1| - 1] + [r1[|r1| - 1]];
    assert r2 == r2[..|r2| - 1] + [r2[|r2| - 1]];
  }

  /** Two sorted lists whose tied records agree for every y are the same list. */
  lemma {:induction false} SortedTiedUnique(r1: seq<User>, r2: seq<User>, cmp: (User, User) -> int)
    requires Symmetric(cmp)
    requires Sorted(r1, cmp) && Sorted(r2, cmp)
    requires forall y :: Tied(r1, cmp, y) == Tied(r2, cmp, y)
    ensures r1 == r2
    decreases |r1|
  {
    if r1 == [] || r2 == [] {
      var r := if r1 == [] then r2 else r1;
      if r != [] {
        var z := r[|r| - 1];
        TiedMembers(r1, cmp, z, z);
        TiedMembers(r2, cmp, z, z);
        assert false;
      }
    } else {
      assert Tied(r1, cmp, r1[|r1| - 1]) == Tied(r2, cmp, r1[|r1| - 1]);
      assert Tied(r1, cmp, r2[|r2| - 1]) == Tied(r2, cmp, r2[|r2| - 1]);
      SortedTiedSameLast(r1, r2, cmp);
      var p1, p2 := r1[..|r1| - 1], r2[..|r2| - 1];
      forall y
        ensures Tied(p1, cmp, y) == Tied(p2, cmp, y)
      {
        TiedDropLast(r1, r2, cmp, y);
      }
      SortedTiedUnique(p1, p2, cmp);
      SameLastAndRest(r1, r2);
    }
  }

  /**
   * Any sorted arrangement of s that keeps the tied records of s in order is
   * StableSort(s): the model's sort is the one every stable sort agrees on.
   */
  lemma StableSortIsUnique(s: seq<User>, r: seq<User>, cmp: (User, User) -> int)
    requires IsComparator(cmp)
    requires Sorted(r, cmp)
    requires forall y :: Tied(r, cmp, y) == Tied(s, cmp, y)
    ensures r == StableSort(s, cmp)
  {
    StableSortSorted(s, cmp);
    forall y
      ensures Tied(r, cmp, y) == Tied(StableSort(s, cmp), cmp, y)
    {
      StableSortStable(s, cmp, y);
    }
    SortedTiedUnique(r, StableSort(s, cmp), cmp);
  }

  /** Sorting a sorted list again changes nothing. */
  lemma StableSortIdempotent(s: seq<User>, cmp: (User, User) -> int)
    requires IsComparator(cmp)
    ensures StableSort(StableSort(s, cmp), cmp) == StableSort(s, cmp)
  {
    StableSortSorted(s, cmp);
    StableSortIsUnique(StableSort(s, cmp), StableSort(s, cmp), cmp);
  }
}
