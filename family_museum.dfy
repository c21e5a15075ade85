/** The museum page around the tree: its own search results, the generation count in
    the header, the members it hands to the tree, the "searching" indicator and the
    two floating messages. */
module FamilyMuseum {
  import opened Members
  import opened TreeLayout
  import opened TreeSearch
  import opened TreeView

  /** `searchResults`: the page filters with the same predicate the tree uses, so its
      results are the tree's filter applied to the whole data set. */
  function SearchResults(data: seq<Member>, term: string): (r: seq<Member>)
    ensures |r| <= |data|
    ensures term == "" ==> r == data
    ensures term != "" ==> forall k :: 0 <= k < |r| ==> Matches(r[k], term)
  {
    Filter(data, term)
  }

  /** The members handed to the tree: the results for a term, all members otherwise. */
  function TreeMembers(data: seq<Member>, term: string): seq<Member> {
    if term != "" then SearchResults(data, term) else data
  }

  /** `new Set(data.map(m => m.generation)).size`. */
  function GenerationCount(data: seq<Member>): nat {
    |GenerationSet(data)|
  }

  /** The "no results" alert: a term, no search in progress, and nothing found. */
  predicate ShowsNoResultsAlert(term: string, isSearching: bool, results: seq<Member>) {
    term != "" && !isSearching && |results| == 0
  }

  /** The "found N results" banner: a term and at least one result. */
  predicate ShowsFoundBanner(term: string, results: seq<Member>) {
    term != "" && |results| > 0
  }

  /** Both branches of the conditional hand the tree the search results. */
  lemma TreeMembersAreResults(data: seq<Member>, term: string)
    ensures TreeMembers(data, term) == SearchResults(data, term)
  {
  }

  /** The reported result count never exceeds the member count. */
  lemma ResultCountBounded(data: seq<Member>, term: string)
    ensures |SearchResults(data, term)| <= |data|
  {
  }

  /** The generation count is the number of distinct generations: at most the number
      of members, and zero exactly when there are none. */
  lemma GenerationCountBounds(data: seq<Member>)
    ensures GenerationCount(data) == |DistinctGenerations(data)|
    ensures GenerationCount(data) <= |data|
    ensures GenerationCount(data) == 0 <==> data == []
  {
    DistinctGenerationsCount(data);
    DistinctSize(DistinctGenerations(data), GenerationSet(data));
    DistinctGenerationsLength(data);
    if data != [] {
      assert data[0].generation in GenerationSet(data);
    }
  }

  lemma {:induction false} DistinctGenerationsLength(ms: seq<Member>)
    ensures |DistinctGenerations(ms)| <= |ms|
    decreases |ms|
  {
    if ms != [] {
      DistinctGenerationsLength(ms[..|ms| - 1]);
    }
  }

  /** The alert and the banner are never shown together. */
  lemma MessagesExclusive(term: string, isSearching: bool, results: seq<Member>)
    ensures !(ShowsNoResultsAlert(term, isSearching, results) && ShowsFoundBanner(term, results))
  {
  }

  /** The tree filters what the page already filtered and finds nothing to drop: its
      filtered members are exactly its positioned members. */
  lemma TreeRefilterUnchanged(data: seq<Member>, term: string, width: int)
    ensures Filter(LayoutOf(TreeMembers(data, term), width), term) == LayoutOf(TreeMembers(data, term), width)
  {
    if term != "" {
      var results := SearchResults(data, term);
      var l := LayoutOf(results, width);
      assert Counterparts(l, results) by {
        LayoutFromInput(results, width);
      }
      forall k | 0 <= k < |l|
        ensures Matches(l[k], term)
      {
        var j :| 0 <= j < |results| && Unplaced(results[j]) == Unplaced(l[k]);
        MatchesTransfer(l[k], results[j], term);
      }
      SelectAllMatching(l, term);
    }
  }

  /** The tree's empty state and the page's alert agree: with a term, the tree shows
      "no results" exactly when the page found nothing. */
  lemma TreeEmptyStateAgrees(data: seq<Member>, term: string, width: int)
    ensures ShowsNoResults(Filter(LayoutOf(TreeMembers(data, term), width), term), term) <==>
      term != "" && |SearchResults(data, term)| == 0
  {
    TreeRefilterUnchanged(data, term, width);
    LayoutIsPermutation(TreeMembers(data, term), width);
  }

  /** The header's "searching" indicator. Changing the term cancels the pending
      timer; a non-empty term turns the indicator on and schedules a timer that turns
      it off, an empty one turns it off at once. */
  class SearchIndicator {
    var searchTerm: string
    var isSearching: bool
    var timerPending: bool

    /** The indicator is on exactly while a timer is pending, and never for an empty
        term. */
    predicate Valid()
      reads this
    {
      isSearching == timerPending && (searchTerm == "" ==> !isSearching)
    }

    constructor ()
      ensures Valid()
      ensures searchTerm == "" && !isSearching && !timerPending
    {
      searchTerm := "";
      isSearching := false;
      timerPending := false;
    }

    /** The effect that runs when the term changes; setting the same term again does
        not re-run it. */
    method ChangeTerm(term: string)
      requires Valid()
      modifies this
      ensures Valid()
      ensures searchTerm == term
      ensures term == old(searchTerm) ==> isSearching == old(isSearching) && timerPending == old(timerPending)
      ensures term != old(searchTerm) ==> isSearching == (term != "") && timerPending == (term != "")
    {
      if term != searchTerm {
        searchTerm := term;
        if term == "" {
          timerPending := false;
          isSearching := false;
        } else {
          isSearching := true;
          timerPending := true;
        }
      }
    }

    /** The pending timer, if any, fires and turns the indicator off. */
    method TimerFires()
      requires Valid()
      modifies this
      ensures Valid()
      ensures searchTerm == old(searchTerm) && !isSearching && !timerPending
    {
      if timerPending {
        isSearching := false;
        timerPending := false;
      }
    }
  }
}
