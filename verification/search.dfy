/**
 * The search box's filter (index.js:145-147): a record stays when its
 * lower-cased first name contains the lower-cased query.
 */
module Search {
  import opened Users

  /** toLowerCase on one character, for the ASCII letters A-Z. */
  function LowerChar(c: char): (d: char)
    ensures !('A' <= d <= 'Z')
    ensures !('A' <= c <= 'Z') ==> d == c
  {
    if 'A' <= c <= 'Z' then (c as int - 'A' as int + 'a' as int) as char else c
  }

  /** toLowerCase on a string, character by character. */
  function Lower(s: string): (r: string)
    ensures |r| == |s|
    ensures forall i :: 0 <= i < |s| ==> r[i] == LowerChar(s[i])
  {
    seq(|s|, i requires 0 <= i < |s| => LowerChar(s[i]))
  }

  /** part occurs in text starting at index i. */
  predicate OccursAt(text: string, part: string, i: int)
  {
    0 <= i && i + |part| <= |text| && text[i..i + |part|] == part
  }

  /** String.prototype.includes: try each starting position from the left. */
  function Contains(text: string, part: string): (b: bool)
    decreases |text|
  {
    if |text| < |part| then false
    else if text[..|part|] == part then true
    else Contains(text[1..], part)
  }

  /** Contains answers true exactly when the part occurs somewhere in the text. */
  lemma {:induction false} ContainsIff(text: string, part: string)
    ensures Contains(text, part) <==> exists i :: OccursAt(text, part, i)
    decreases |text|
  {
    if |text| < |part| {
    } else if text[..|part|] == part {
      assert OccursAt(text, part, 0);
    } else {
      ContainsIff(text[1..], part);
      if exists i :: OccursAt(text[1..], part, i) {
        var i :| OccursAt(text[1..], part, i);
        assert text[1..][i..i + |part|] == text[i + 1..i + 1 + |part|];
        assert OccursAt(text, part, i + 1);
      }
      if exists i :: OccursAt(text, part, i) {
        var i :| OccursAt(text, part, i);
        assert i != 0;
        assert text[1..][i - 1..i - 1 + |part|] == text[i..i + |part|];
        assert OccursAt(text[1..], part, i - 1);
      }
    }
  }

  /** The filter predicate: the lower-cased first name includes the lower-cased query. */
  predicate Matches(u: User, query: string)
  {
    Contains(Lower(u.first), Lower(query))
  }

  /** users.filter(Matches): the records that match, in list order; never more than s holds. */
  function Matching(s: seq<User>, query: string): (r: seq<User>)
    ensures |r| <= |s|
  {
    if s == [] then []
    else
      var last := s[|s| - 1];
      Matching(s[..|s| - 1], query) + if Matches(last, query) then [last] else []
  }

  /**
   * A matching record stays in the filtered list as often as it occurs in s;
   * a record that does not match disappears.
   */
  lemma {:induction false} MatchingCount(s: seq<User>, query: string, u: User)
    ensures multiset(Matching(s, query))[u] == if Matches(u, query) then multiset(s)[u] else 0
  {
    if s != [] {
      var last := s[|s| - 1];
      assert s == s[..|s| - 1] + [last];
      MatchingCount(s[..|s| - 1], query, u);
    }
  }

  /** A record is in the filtered list exactly when it is in s and matches the query. */
  lemma MatchingMembers(s: seq<User>, query: string, u: User)
    ensures u in Matching(s, query) <==> u in s && Matches(u, query)
  {
    MatchingCount(s, query, u);
  }

  /** idx lists, in increasing order, positions of s that hold the elements of r. */
  ghost predicate Embeds(idx: seq<int>, r: seq<User>, s: seq<User>)
  {
    && |idx| == |r|
    && (forall k :: 0 <= k < |idx| ==> 0 <= idx[k] < |s| && r[k] == s[idx[k]])
    && (forall k, l :: 0 <= k < l < |idx| ==> idx[k] < idx[l])
  }

  /** r is s with some elements left out and the rest in their original order. */
  ghost predicate IsSubsequence(r: seq<User>, s: seq<User>)
  {
    exists idx :: Embeds(idx, r, s)
  }

  /** The positions of s whose records match, in increasing order. */
  ghost function MatchingIndices(s: seq<User>, query: string): (idx: seq<int>)
  {
    if s == [] then []
    else MatchingIndices(s[..|s| - 1], query) + if Matches(s[|s| - 1], query) then [|s| - 1] else []
  }

  /**
   * Matching keeps exactly the matching positions of s, in their original
   * relative order.
   */
  lemma {:induction false} MatchingSelectsExactly(s: seq<User>, query: string)
    ensures Embeds(MatchingIndices(s, query), Matching(s, query), s)
    ensures forall i :: 0 <= i < |s| ==> (Matches(s[i], query) <==> i in MatchingIndices(s, query))
  {
    if s != [] {
      var n := |s| - 1;
      var p, last := s[..n], s[n];
      MatchingSelectsExactly(p, query);
      var idx', r' := MatchingIndices(p, query), Matching(p, query);
      var idx, r := MatchingIndices(s, query), Matching(s, query);
      var keep := Matches(last, query);
      assert idx == idx' + (if keep then [n] else []);
      assert r == r' + (if keep then [last] else []);
      forall k | 0 <= k < |idx|
        ensures 0 <= idx[k] < |s| && r[k] == s[idx[k]]
      {
        if k < |idx'| {
          assert idx[k] == idx'[k] && r[k] == r'[k] && s[idx'[k]] == p[idx'[k]];
        }
      }
      forall i | 0 <= i < |s|
        ensures Matches(s[i], query) <==> i in idx
      {
        if i < n {
          assert s[i] == p[i];
          assert i in idx <==> i in idx';
        } else {
          assert forall k :: 0 <= k < |idx'| ==> idx'[k] < n;
          assert n !in idx';
          assert n in idx <==> keep;
          assert s[i] == last;
        }
      }
    }
  }

  /** The filtered list is a subsequence of the list it was computed from. */
  lemma MatchingIsSubsequence(s: seq<User>, query: string)
    ensures IsSubsequence(Matching(s, query), s)
  {
    MatchingSelectsExactly(s, query);
  }

  /** Filtering again with the same query changes nothing. */
  lemma {:induction false} MatchingIdempotent(s: seq<User>, query: string)
    ensures Matching(Matching(s, query), query) == Matching(s, query)
  {
    if s != [] {
      var p := s[..|s| - 1];
      var last := s[|s| - 1];
      MatchingIdempotent(p, query);
      if Matches(last, query) {
        var m := Matching(p, query) + [last];
        assert Matching(s, query) == m;
        assert m[..|m| - 1] == Matching(p, query) && m[|m| - 1] == last;
        assert Matching(m, query) == Matching(Matching(p, query), query) + [last];
      } else {
        assert Matching(s, query) == Matching(p, query) + [] == Matching(p, query);
      }
    }
  }
}
