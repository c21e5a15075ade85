/** The family tree's remaining view logic: the size clamp applied on resize, the
    generation labels beside the rows, and the empty-result state. */
module TreeView {
  import opened Members
  import opened Text
  import opened TreeLayout
  import opened TreeSearch

  datatype Size = Size(width: int, height: int)

  const MinWidth: int := 1200
  const MinHeight: int := 800

  /** The size before the first resize. */
  const InitialSize: Size := Size(MinWidth, MinHeight)

  /** The tree's size for a window of the given inner size: the window less 100 in
      width and 200 in height, but never below 1200 by 800. */
  function Resize(innerWidth: int, innerHeight: int): (r: Size)
    ensures r.width >= MinWidth && r.width >= innerWidth - 100
    ensures r.width == MinWidth || r.width == innerWidth - 100
    ensures r.height >= MinHeight && r.height >= innerHeight - 200
    ensures r.height == MinHeight || r.height == innerHeight - 200
  {
    Size(if innerWidth - 100 > MinWidth then innerWidth - 100 else MinWidth,
         if innerHeight - 200 > MinHeight then innerHeight - 200 else MinHeight)
  }

  /** The size the tree starts with is what a resize gives exactly for windows no
      larger than 1300 by 1000. */
  lemma ResizeKeepsInitial(innerWidth: int, innerHeight: int)
    ensures Resize(innerWidth, innerHeight) == InitialSize <==> innerWidth <= 1300 && innerHeight <= 1000
  {
  }

  /** A larger window never gives a smaller tree. */
  lemma ResizeMonotone(w1: int, h1: int, w2: int, h2: int)
    requires w1 <= w2 && h1 <= h2
    ensures Resize(w1, h1).width <= Resize(w2, h2).width
    ensures Resize(w1, h1).height <= Resize(w2, h2).height
  {
  }

  /** A generation label: its generation, its offset from the top, and its text. */
  datatype Label = Label(generation: int, top: int, text: string)

  /** `members.map(m => m.generation)`. */
  function Generations(ms: seq<Member>): (r: seq<int>)
    ensures |r| == |ms|
    ensures forall k :: 0 <= k < |ms| ==> r[k] == ms[k].generation
  {
    seq(|ms|, k requires 0 <= k < |ms| => ms[k].generation)
  }

  /** "דור " followed by the one-based generation number. */
  function LabelText(g: int): string {
    "דור " + IntToString(g + 1)
  }

  /** One label per distinct generation of the positioned members, ascending, each
      200 per generation below the first, starting at 100. */
  function GenerationLabels(positioned: seq<Member>): seq<Label> {
    var gs := SortedGenerations(positioned);
    if gs == [] then []
    else
      var lowest := SeqMin(Generations(positioned));
      seq(|gs|, k requires 0 <= k < |gs| => Label(gs[k], (gs[k] - lowest) * 200 + 100, LabelText(gs[k])))
  }

  /** One label per distinct generation, strictly ascending. */
  lemma LabelsPerGeneration(ms: seq<Member>)
    ensures |GenerationLabels(ms)| == |GenerationSet(ms)|
    ensures forall g :: g in GenerationSet(ms) <==>
      exists k :: 0 <= k < |GenerationLabels(ms)| && GenerationLabels(ms)[k].generation == g
    ensures forall i, j :: 0 <= i < j < |GenerationLabels(ms)| ==>
      GenerationLabels(ms)[i].generation < GenerationLabels(ms)[j].generation
  {
    var gs := SortedGenerations(ms);
    SortedGenerationsFacts(ms);
    assert |multiset(gs)| == |gs|;
    DistinctSize(gs, GenerationSet(ms));
    var labels := GenerationLabels(ms);
    forall g ensures g in GenerationSet(ms) <==> exists k :: 0 <= k < |labels| && labels[k].generation == g {
      if g in GenerationSet(ms) {
        var k :| 0 <= k < |gs| && gs[k] == g;
        assert labels[k].generation == g;
      }
    }
  }

  /** A distinct list whose elements are exactly those of a set has the set's size. */
  lemma {:induction false} DistinctSize(s: seq<int>, e: set<int>)
    requires Distinct(s)
    requires forall x :: x in s <==> x in e
    ensures |s| == |e|
    decreases |s|
  {
    if s != [] {
      var last := s[|s| - 1];
      var p := s[..|s| - 1];
      assert forall x :: x in p <==> x in e - {last} by {
        forall x ensures x in p <==> x in e - {last} {
          if x in p {
            var i :| 0 <= i < |p| && p[i] == x;
            assert s[i] == x;
          }
          assert x in s && x != last ==> x in p by {
            if x in s && x != last {
              var i :| 0 <= i < |s| && s[i] == x;
              assert i < |s| - 1;
              assert p[i] == x;
            }
          }
        }
      }
      DistinctSize(p, e - {last});
    } else {
      assert forall x :: x !in e;
      assert e == {};
    }
  }

  /** The label's number reads back as the one-based generation. */
  lemma LabelNumber(g: int)
    ensures |LabelText(g)| > 4 && LabelText(g)[..4] == "דור "
    ensures ParseInt(LabelText(g)[4..]) == g + 1
  {
    assert LabelText(g)[4..] == IntToString(g + 1);
    IntToStringRoundTrip(g + 1);
  }

  /** Two minima of lists with the same elements are equal. */
  lemma MinOfSameElements(a: seq<int>, b: seq<int>)
    requires |a| > 0 && |b| > 0
    requires forall x :: x in a <==> x in b
    ensures SeqMin(a) == SeqMin(b)
  {
    var ma, mb := SeqMin(a), SeqMin(b);
    var i :| 0 <= i < |b| && b[i] == ma;
    var j :| 0 <= j < |a| && a[j] == mb;
  }

  /** Each label sits 50 above the row of its generation in the tree's own layout:
      the labels and the rows measure from the same least generation. */
  lemma LabelAboveRow(ms: seq<Member>, width: int)
    ensures forall k, p ::
      (0 <= k < |GenerationLabels(LayoutOf(ms, width))| && p in LayoutOf(ms, width) &&
       p.generation == GenerationLabels(LayoutOf(ms, width))[k].generation) ==>
      (GenerationLabels(LayoutOf(ms, width))[k].top as real) == p.position.y - 50.0
  {
    var l := LayoutOf(ms, width);
    var labels := GenerationLabels(l);
    var keys := DistinctGenerations(ms);
    if labels != [] {
      LayoutGenerationKeys(ms, width);
      assert |Generations(l)| > 0;
      assert keys != [];
      MinOfSameElements(Generations(l), keys);
      assert forall q :: 0 <= q < |l| ==> l[q].position.y == RowY(l[q].generation, MinGeneration(keys)) by {
        LayoutHeights(ms, width);
      }
    }
  }

  /** The generations of the layout are the generation keys of its input. */
  lemma LayoutGenerationKeys(ms: seq<Member>, width: int)
    ensures forall x :: x in Generations(LayoutOf(ms, width)) <==> x in DistinctGenerations(ms)
  {
    var l := LayoutOf(ms, width);
    assert GenerationSet(l) == GenerationSet(ms) by {
      LayoutGenerations(ms, width);
    }
    DistinctGenerationsCount(ms);
    forall x ensures x in Generations(l) <==> x in GenerationSet(l) {
      if x in Generations(l) {
        var i :| 0 <= i < |l| && Generations(l)[i] == x;
        assert l[i] in l;
      }
      if x in GenerationSet(l) {
        var m :| m in l && m.generation == x;
        var i :| 0 <= i < |l| && l[i] == m;
        assert Generations(l)[i] == x;
      }
    }
  }

  /** The tree shows its "no results" state when a non-empty term leaves no member. */
  predicate ShowsNoResults(filtered: seq<Member>, term: string) {
    |filtered| == 0 && term != ""
  }

  /** The tree's "no results" state appears exactly when the term is not empty and
      none of the members it was given matches. */
  lemma NoResultsIff(ms: seq<Member>, width: int, term: string)
    ensures ShowsNoResults(Filter(LayoutOf(ms, width), term), term) <==>
      term != "" && forall k :: 0 <= k < |ms| ==> !Matches(ms[k], term)
  {
    var l := LayoutOf(ms, width);
    if term != "" {
      assert (exists k :: 0 <= k < |ms| && Matches(ms[k], term)) ==> |Select(l, term)| > 0 by {
        LayoutCoversInput(ms, width);
        SelectedIfMatched(l, ms, term);
      }
      assert (forall k :: 0 <= k < |ms| ==> !Matches(ms[k], term)) ==> |Select(l, term)| == 0 by {
        LayoutFromInput(ms, width);
        NoneSelectedIfNoneMatched(l, ms, term);
      }
    }
  }

  /** When every member of `b` has a counterpart in `a`, a match in `b` leaves the
      selection of `a` non-empty. */
  lemma SelectedIfMatched(a: seq<Member>, b: seq<Member>, term: string)
    requires Counterparts(b, a)
    ensures (exists k :: 0 <= k < |b| && Matches(b[k], term)) ==> |Select(a, term)| > 0
  {
    if exists k :: 0 <= k < |b| && Matches(b[k], term) {
      var k :| 0 <= k < |b| && Matches(b[k], term);
      var q :| 0 <= q < |a| && Unplaced(a[q]) == Unplaced(b[k]);
      MatchesTransfer(a[q], b[k], term);
      SelectMembers(a, term);
      assert a[q] in Select(a, term);
    }
  }

  /** When every member of `a` has a counterpart in `b`, no match in `b` leaves the
      selection of `a` empty. */
  lemma NoneSelectedIfNoneMatched(a: seq<Member>, b: seq<Member>, term: string)
    requires Counterparts(a, b)
    ensures (forall k :: 0 <= k < |b| ==> !Matches(b[k], term)) ==> |Select(a, term)| == 0
  {
    if |Select(a, term)| > 0 {
      var m := Select(a, term)[0];
      SelectMembers(a, term);
      assert m in a && Matches(m, term);
      var q :| 0 <= q < |a| && a[q] == m;
      var k :| 0 <= k < |b| && Unplaced(b[k]) == Unplaced(a[q]);
      MatchesTransfer(a[q], b[k], term);
    }
  }

  /** Members equal up to position match the same terms. */
  lemma MatchesTransfer(x: Member, y: Member, term: string)
    requires Unplaced(x) == Unplaced(y)
    ensures Matches(x, term) == Matches(y, term)
  {
    MatchesIgnoresPosition(x, term);
    MatchesIgnoresPosition(y, term);
  }
}
