/**
 * sortUsers (index.js:65-75): the comparator it hands to users.sort, chosen
 * by the sort attribute, and what sorting with it does for each attribute.
 */
module SortUsers {
  import opened Users
  import opened Sorting

  /**
   * The sign of a comparison answer; Array.prototype.sort looks at nothing
   * else of what a comparator returns.
   */
  function Sign(v: int): (r: int)
    ensures -1 <= r <= 1
    ensures (r < 0 <==> v < 0) && (r == 0 <==> v == 0)
  {
    if v < 0 then -1 else if v == 0 then 0 else 1
  }

  /**
   * What ECMA-262 demands of String.prototype.localeCompare: a consistent
   * comparison on all strings. Swapping the arguments swaps the sign of the
   * answer, and "not after" is transitive. Which strings a locale puts first
   * is left open: the model takes localeCompare as a parameter `collate`.
   */
  ghost predicate IsCollation(collate: (string, string) -> int)
  {
    (forall x, y {:trigger collate(x, y), collate(y, x)} :: Sign(collate(y, x)) == -Sign(collate(x, y))) &&
    (forall x, y, z {:trigger collate(x, y), collate(y, z), collate(x, z)} ::
      collate(x, y) <= 0 && collate(y, z) <= 0 ==> collate(x, z) <= 0)
  }

  /**
   * One collation: lexicographic order of the character codes, answering
   * -1, 0 or 1. It shows that IsCollation can be met; it is not the order of
   * any particular locale.
   */
  function LexCompare(x: string, y: string): (c: int)
    ensures -1 <= c <= 1
  {
    if x == [] then (if y == [] then 0 else -1)
    else if y == [] then 1
    else if x[0] < y[0] then -1
    else if y[0] < x[0] then 1
    else LexCompare(x[1..], y[1..])
  }

  /** LexCompare calls two strings equal only when they are equal. */
  lemma {:induction false} LexCompareZero(x: string, y: string)
    ensures LexCompare(x, y) == 0 <==> x == y
  {
    if x != [] && y != [] && x[0] == y[0] {
      LexCompareZero(x[1..], y[1..]);
      assert x == [x[0]] + x[1..] && y == [y[0]] + y[1..];
    }
  }

  /** Swapping the arguments of LexCompare flips the sign of its answer. */
  lemma {:induction false} LexCompareAntisymmetric(x: string, y: string)
    ensures LexCompare(y, x) == -LexCompare(x, y)
  {
    if x != [] && y != [] && x[0] == y[0] {
      LexCompareAntisymmetric(x[1..], y[1..]);
    }
  }

  /** "Not after" under LexCompare is transitive. */
  lemma {:induction false} LexCompareTransitive(x: string, y: string, z: string)
    requires LexCompare(x, y) <= 0 && LexCompare(y, z) <= 0
    ensures LexCompare(x, z) <= 0
  {
    if x != [] && y != [] && z != [] && x[0] == y[0] == z[0] {
      LexCompareTransitive(x[1..], y[1..], z[1..]);
    }
  }

  /** LexCompare is a collation, so the requirement on `collate` can be met. */
  lemma LexCompareIsCollation()
    ensures IsCollation(LexCompare)
  {
    forall x, y
      ensures Sign(LexCompare(y, x)) == -Sign(LexCompare(x, y))
    {
      LexCompareAntisymmetric(x, y);
    }
    forall x, y, z | LexCompare(x, y) <= 0 && LexCompare(y, z) <= 0
      ensures LexCompare(x, z) <= 0
    {
      LexCompareTransitive(x, y, z);
    }
  }

  /**
   * The comparator's answer for two records: "name" compares the full names
   * with localeCompare (`collate`), "size" subtracts the full-name lengths,
   * any other attribute answers 0. Only the sign of the name comparison is
   * kept, since the sort reads nothing else.
   */
  function Compare(attribute: string, collate: (string, string) -> int, a: User, b: User): (c: int)
  {
    if attribute == "name" then Sign(collate(FullName(a), FullName(b)))
    else if attribute == "size" then |FullName(a)| - |FullName(b)|
    else 0
  }

  /** The comparator function sortUsers passes to users.sort. */
  function Comparator(attribute: string, collate: (string, string) -> int): (cmp: (User, User) -> int)
  {
    (a: User, b: User) => Compare(attribute, collate, a, b)
  }

  /**
   * Whatever the attribute, the comparator is a consistent one when
   * localeCompare is, so users.sort is determined.
   */
  lemma ComparatorConsistent(attribute: string, collate: (string, string) -> int)
    requires attribute == "name" ==> IsCollation(collate)
    ensures IsComparator(Comparator(attribute, collate))
  {
    var cmp := Comparator(attribute, collate);
    forall a, b
      ensures cmp(b, a) == -cmp(a, b)
    {
      if attribute == "name" {
        assert Sign(collate(FullName(b), FullName(a))) == -Sign(collate(FullName(a), FullName(b)));
      }
    }
    forall a, b, c | cmp(a, b) <= 0 && cmp(b, c) <= 0
      ensures cmp(a, c) <= 0
    {
      if attribute == "name" {
        assert collate(FullName(a), FullName(b)) <= 0 && collate(FullName(b), FullName(c)) <= 0;
        assert collate(FullName(a), FullName(c)) <= 0;
      }
    }
  }

  /**
   * Sorting by "size" gives a permutation of s in which full-name lengths
   * never decrease, and records whose full names are equally long keep
   * their previous relative order.
   */
  lemma SizeSortOrdersByLength(s: seq<User>, collate: (string, string) -> int)
    ensures multiset(StableSort(s, Comparator("size", collate))) == multiset(s)
    ensures forall i, j :: 0 <= i < j < |s| ==>
      |FullName(StableSort(s, Comparator("size", collate))[i])| <= |FullName(StableSort(s, Comparator("size", collate))[j])|
    ensures forall y :: Tied(StableSort(s, Comparator("size", collate)), Comparator("size", collate), y) == Tied(s, Comparator("size", collate), y)
  {
    var cmp := Comparator("size", collate);
    ComparatorConsistent("size", collate);
    StableSortSorted(s, cmp);
    forall y
      ensures Tied(StableSort(s, cmp), cmp, y) == Tied(s, cmp, y)
    {
      StableSortStable(s, cmp, y);
    }
  }

  /**
   * Sorting by "name" gives a permutation of s with the full names in
   * localeCompare order; records whose full names localeCompare calls equal
   * keep their previous relative order.
   */
  lemma NameSortOrdersByName(s: seq<User>, collate: (string, string) -> int)
    requires IsCollation(collate)
    ensures multiset(StableSort(s, Comparator("name", collate))) == multiset(s)
    ensures forall i, j :: 0 <= i < j < |s| ==>
      collate(FullName(StableSort(s, Comparator("name", collate))[i]), FullName(StableSort(s, Comparator("name", collate))[j])) <= 0
    ensures forall y :: Tied(StableSort(s, Comparator("name", collate)), Comparator("name", collate), y) == Tied(s, Comparator("name", collate), y)
  {
    var cmp := Comparator("name", collate);
    ComparatorConsistent("name", collate);
    StableSortSorted(s, cmp);
    var r := StableSort(s, cmp);
    forall i, j | 0 <= i < j < |s|
      ensures collate(FullName(r[i]), FullName(r[j])) <= 0
    {
      assert cmp(r[i], r[j]) <= 0;
    }
    forall y
      ensures Tied(StableSort(s, cmp), cmp, y) == Tied(s, cmp, y)
    {
      StableSortStable(s, cmp, y);
    }
  }

  /** With an attribute other than "name" or "size" every comparison answers 0 and the order stays. */
  lemma OtherSortUnchanged(s: seq<User>, attribute: string, collate: (string, string) -> int)
    requires attribute != "name" && attribute != "size"
    ensures StableSort(s, Comparator(attribute, collate)) == s
  {
    ComparatorConsistent(attribute, collate);
    StableSortIsUnique(s, s, Comparator(attribute, collate));
  }
}
