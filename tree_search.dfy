/** The search predicate of the family tree and the filter the tree applies to its
    positioned members before drawing them. */
module TreeSearch {
  import opened Members
  import opened Text

  /** A member matches a term when its lower-cased name or role, or one of its
      lower-cased achievements, contains the lower-cased term, or when its Hebrew name
      (if present) or one of its cultural tags contains the term as given. */
  predicate Matches(m: Member, term: string) {
    var t := Lower(term);
    Contains(Lower(m.name), t)
    || (Present(m.hebrewName) && Contains(m.hebrewName.value, term))
    || Contains(Lower(m.role), t)
    || (exists a :: a in m.achievements && Contains(Lower(a), t))
    || (exists c :: c in m.cultural && Contains(c, term))
  }

  /** `a` is `b` with some entries left out, in the same order. */
  predicate Subsequence(a: seq<Member>, b: seq<Member>)
    decreases |b|
  {
    if a == [] then true
    else if b == [] then false
    else if a[|a| - 1] == b[|b| - 1] then Subsequence(a[..|a| - 1], b[..|b| - 1])
    else Subsequence(a, b[..|b| - 1])
  }

  /** `ms.filter(m => Matches(m, term))`. */
  function Select(ms: seq<Member>, term: string): (r: seq<Member>)
    ensures |r| <= |ms|
    ensures forall k :: 0 <= k < |r| ==> Matches(r[k], term)
    decreases |ms|
  {
    if ms == [] then [] else Select(ms[..|ms| - 1], term) + (if Matches(ms[|ms| - 1], term) then [ms[|ms| - 1]] else [])
  }

  /** The filter keeps each matching member as often as it occurs, and no other. */
  lemma {:induction false} SelectCounts(ms: seq<Member>, term: string)
    ensures forall m :: multiset(Select(ms, term))[m] == if Matches(m, term) then multiset(ms)[m] else 0
    decreases |ms|
  {
    if ms != [] {
      var p := ms[..|ms| - 1];
      SelectCounts(p, term);
      assert ms == p + [ms[|ms| - 1]];
    }
  }

  /** The tree's `filteredMembers`: every member for an empty term, otherwise the
      matching ones. */
  function Filter(ms: seq<Member>, term: string): seq<Member> {
    if term == "" then ms else Select(ms, term)
  }

  /** The filter keeps exactly the matching members, each as often as it occurs. */
  lemma SelectMembers(ms: seq<Member>, term: string)
    ensures forall m :: m in Select(ms, term) <==> m in ms && Matches(m, term)
  {
    SelectCounts(ms, term);
    forall m ensures m in Select(ms, term) <==> m in ms && Matches(m, term) {
      assert m in Select(ms, term) <==> multiset(Select(ms, term))[m] > 0;
      assert m in ms <==> multiset(ms)[m] > 0;
    }
  }

  /** The filter leaves out entries but never reorders them. */
  lemma {:induction false} SelectIsSubsequence(ms: seq<Member>, term: string)
    ensures Subsequence(Select(ms, term), ms)
    decreases |ms|
  {
    if ms != [] {
      var p := ms[..|ms| - 1];
      SelectIsSubsequence(p, term);
      var r := Select(ms, term);
      var last := ms[|ms| - 1];
      assert ms[..|ms| - 1] == p;
      if Matches(last, term) {
        assert r == Select(p, term) + [last];
        assert r[..|r| - 1] == Select(p, term);
        assert r[|r| - 1] == last;
      } else {
        assert r == Select(p, term);
        SubsequenceOfPrefix(Select(p, term), ms);
      }
    }
  }

  /** A subsequence of all but the last entry is a subsequence of the whole. */
  lemma {:induction false} SubsequenceOfPrefix(a: seq<Member>, b: seq<Member>)
    requires b != [] && Subsequence(a, b[..|b| - 1])
    ensures Subsequence(a, b)
    decreases |b|, 0
  {
    if a != [] && a[|a| - 1] == b[|b| - 1] {
      SubsequenceDropLast(a, b[..|b| - 1]);
    }
  }

  /** Dropping the last entry of a subsequence leaves a subsequence. */
  lemma {:induction false} SubsequenceDropLast(a: seq<Member>, c: seq<Member>)
    requires a != [] && Subsequence(a, c)
    ensures Subsequence(a[..|a| - 1], c)
    decreases |c|, 1
  {
    var c' := c[..|c| - 1];
    if a[|a| - 1] != c[|c| - 1] {
      SubsequenceDropLast(a, c');
    }
    SubsequenceOfPrefix(a[..|a| - 1], c);
  }

  /** A list whose members all match is its own selection. */
  lemma {:induction false} SelectAllMatching(ms: seq<Member>, term: string)
    requires forall k :: 0 <= k < |ms| ==> Matches(ms[k], term)
    ensures Select(ms, term) == ms
    decreases |ms|
  {
    if ms != [] {
      var p := ms[..|ms| - 1];
      var last := ms[|ms| - 1];
      assert Select(p, term) == p by {
        assert forall k :: 0 <= k < |p| ==> p[k] == ms[k];
        SelectAllMatching(p, term);
      }
      assert Matches(last, term);
      assert ms == p + [last];
    }
  }

  /** Filtering twice with the same term is filtering once. */
  lemma FilterIdempotent(ms: seq<Member>, term: string)
    ensures Filter(Filter(ms, term), term) == Filter(ms, term)
  {
    if term != "" {
      SelectAllMatching(Select(ms, term), term);
    }
  }

  /** An empty term keeps every member. */
  lemma FilterEmptyTerm(ms: seq<Member>)
    ensures Filter(ms, "") == ms
  {
  }

  /** The predicate does not look at the position. */
  lemma MatchesIgnoresPosition(m: Member, term: string)
    ensures Matches(Unplaced(m), term) == Matches(m, term)
  {
  }
}
