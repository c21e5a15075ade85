/** The generation layout of the interactive family tree: members are grouped into
    one bucket per generation, buckets become rows from top to bottom in ascending
    generation, and each row is centred horizontally in the tree's width. */
module TreeLayout {
  import opened Members

  const GenerationHeight: int := 200
  const MemberWidth: int := 280
  const TopMargin: int := 150

  /** The vertical coordinate of generation `g`'s row. */
  function RowY(g: int, minGen: int): real {
    ((g - minGen) * GenerationHeight + TopMargin) as real
  }

  /** The horizontal centre of slot `i` in a row of `n` members, in a tree `width` wide. */
  function RowX(width: int, n: int, i: int): real {
    (width - n * MemberWidth) as real / 2.0 + (i * MemberWidth) as real + MemberWidth as real / 2.0
  }

  predicate Sorted(s: seq<int>) {
    forall i, j :: 0 <= i < j < |s| ==> s[i] <= s[j]
  }

  function Insert(x: int, s: seq<int>): (r: seq<int>)
    ensures multiset(r) == multiset(s) + multiset{x}
    ensures Sorted(s) ==> Sorted(r)
  {
    if s == [] then [x]
    else if x <= s[0] then [x] + s
    else
      var t := Insert(x, s[1..]);
      assert s == [s[0]] + s[1..];
      InsertBound(x, s, t);
      if Sorted(s) then SortedCons(s[0], t); [s[0]] + t else [s[0]] + t
  }

  /** A head no larger than anything in a sorted tail keeps the list sorted. */
  lemma SortedCons(h: int, t: seq<int>)
    requires Sorted(t) && forall k :: 0 <= k < |t| ==> h <= t[k]
    ensures Sorted([h] + t)
  {
    var r := [h] + t;
    forall i, j | 0 <= i < j < |r|
      ensures r[i] <= r[j]
    {
      assert r[j] == t[j - 1];
      if i > 0 {
        assert r[i] == t[i - 1];
      }
    }
  }

  /** What is inserted behind the head of a sorted list is no smaller than the head. */
  lemma InsertBound(x: int, s: seq<int>, t: seq<int>)
    requires |s| > 0 && s[0] < x
    requires multiset(t) == multiset(s[1..]) + multiset{x}
    ensures Sorted(s) ==> forall k :: 0 <= k < |t| ==> s[0] <= t[k]
  {
    if Sorted(s) {
      forall k | 0 <= k < |t|
        ensures s[0] <= t[k]
      {
        assert t[k] in multiset(t);
        if t[k] != x {
          assert t[k] in multiset(s[1..]);
          var i :| 0 <= i < |s| - 1 && s[1..][i] == t[k];
          assert s[i + 1] == t[k];
        }
      }
    }
  }

  /** The `.sort((a, b) => a - b)` the tree applies to the generation keys. */
  function SortAscending(s: seq<int>): (r: seq<int>)
    ensures multiset(r) == multiset(s)
    ensures Sorted(r)
  {
    if s == [] then []
    else
      assert s == [s[0]] + s[1..];
      Insert(s[0], SortAscending(s[1..]))
  }

  /** `Math.min(...s)` for a non-empty list. */
  function SeqMin(s: seq<int>): (r: int)
    requires |s| > 0
    ensures r in s
    ensures forall i :: 0 <= i < |s| ==> r <= s[i]
  {
    if |s| == 1 then s[0]
    else
      var m := SeqMin(s[1..]);
      assert s == [s[0]] + s[1..];
      if s[0] <= m then s[0] else m
  }

  /** The least generation key. With no members `Math.min()` is Infinity, but then
      no row is placed and the value is never read; 0 stands in for it. */
  function MinGeneration(keys: seq<int>): int {
    if keys == [] then 0 else SeqMin(keys)
  }

  /** The generations in the order their rows are placed. */
  function SortedGenerations(ms: seq<Member>): seq<int> {
    SortAscending(DistinctGenerations(ms))
  }

  /** One row: each bucket member, in bucket order, at its slot of generation `g`'s row. */
  function PlaceRow(bucket: seq<Member>, g: int, minGen: int, width: int): seq<Member> {
    seq(|bucket|, i requires 0 <= i < |bucket| =>
      bucket[i].(position := Point(RowX(width, |bucket|, i), RowY(g, minGen))))
  }

  /** The rows of generations `gs` in that order, concatenated. */
  function Rows(gs: seq<int>, ms: seq<Member>, width: int, minGen: int): seq<Member> {
    if gs == [] then []
    else Rows(gs[..|gs| - 1], ms, width, minGen) + PlaceRow(Bucket(ms, gs[|gs| - 1]), gs[|gs| - 1], minGen, width)
  }

  /** The positioned members the tree renders for `ms` in a tree `width` wide. */
  function LayoutOf(ms: seq<Member>, width: int): seq<Member> {
    Rows(SortedGenerations(ms), ms, width, MinGeneration(DistinctGenerations(ms)))
  }

  /** One step of the grouping pass: adding a member extends its own bucket only, and
      adds its generation to the keys when it is new. */
  lemma GroupStep(members: seq<Member>, i: int)
    requires 0 <= i < |members|
    ensures forall g :: (Bucket(members[..i + 1], g)
      == Bucket(members[..i], g) + (if members[i].generation == g then [members[i]] else []))
    ensures DistinctGenerations(members[..i + 1]) == (if members[i].generation in DistinctGenerations(members[..i])
      then DistinctGenerations(members[..i]) else DistinctGenerations(members[..i]) + [members[i].generation])
    ensures members[i].generation !in DistinctGenerations(members[..i]) ==> Bucket(members[..i], members[i].generation) == []
  {
    assert members[..i + 1][..i] == members[..i];
    DistinctGenerationsCount(members[..i]);
    if members[i].generation !in DistinctGenerations(members[..i]) {
      BucketOfAbsent(members[..i], members[i].generation);
    }
  }

  /** The grouping pass: push each member onto its generation's bucket in a map,
      creating the bucket on first sight; `keys` is the map's key insertion order. */
  method GroupByGeneration(members: seq<Member>) returns (generations: map<int, seq<Member>>, keys: seq<int>)
    ensures keys == DistinctGenerations(members)
    ensures forall g :: g in generations <==> g in keys
    ensures forall g :: g in generations ==> generations[g] == Bucket(members, g)
  {
    generations := map[];
    keys := [];
    var i := 0;
    while i < |members|
      invariant 0 <= i <= |members|
      invariant Grouped(generations, keys, members[..i])
    {
      var gen := members[i].generation;
      var before, keysBefore := generations, keys;
      if gen !in generations {
        generations := generations[gen := []];
        keys := keys + [gen];
      }
      generations := generations[gen := generations[gen] + [members[i]]];
      GroupedStep(before, keysBefore, members, i);
      i := i + 1;
    }
    assert members[..|members|] == members;
  }

  /** The grouping pass's invariant: the keys are the distinct generations seen so far,
      the map's domain is the keys, and each entry is that generation's bucket. */
  ghost predicate Grouped(generations: map<int, seq<Member>>, keys: seq<int>, seen: seq<Member>) {
    keys == DistinctGenerations(seen) &&
    (forall g :: g in generations <==> g in keys) &&
    (forall g :: g in generations ==> generations[g] == Bucket(seen, g))
  }

  /** Pushing member `i` onto its bucket, creating the bucket first when it is new,
      keeps the grouping invariant. */
  lemma GroupedStep(generations: map<int, seq<Member>>, keys: seq<int>, members: seq<Member>, i: int)
    requires 0 <= i < |members| && Grouped(generations, keys, members[..i])
    ensures var gen := members[i].generation;
      var g1 := if gen !in generations then generations[gen := []] else generations;
      var k1 := if gen !in generations then keys + [gen] else keys;
      Grouped(g1[gen := g1[gen] + [members[i]]], k1, members[..i + 1])
  {
    GroupStep(members, i);
  }

  /** Pushes the members of one bucket, in order, at their slots of generation
      `generation`'s row. */
  method PushRow(positioned: seq<Member>, genMembers: seq<Member>, generation: int, minGeneration: int, width: int)
    returns (out: seq<Member>)
    ensures out == positioned + PlaceRow(genMembers, generation, minGeneration, width)
  {
    out := positioned;
    var generationY := RowY(generation, minGeneration);
    var startX := (width - |genMembers| * MemberWidth) as real / 2.0;
    var index := 0;
    while index < |genMembers|
      invariant 0 <= index <= |genMembers|
      invariant out == positioned + PlaceRow(genMembers, generation, minGeneration, width)[..index]
    {
      var x := startX + (index * MemberWidth) as real + MemberWidth as real / 2.0;
      out := out + [genMembers[index].(position := Point(x, generationY))];
      assert PlaceRow(genMembers, generation, minGeneration, width)[..index + 1]
        == PlaceRow(genMembers, generation, minGeneration, width)[..index]
        + [genMembers[index].(position := Point(x, generationY))];
      index := index + 1;
    }
  }

  lemma RowsStep(gs: seq<int>, k: int, ms: seq<Member>, width: int, minGen: int)
    requires 0 <= k < |gs|
    ensures Rows(gs[..k + 1], ms, width, minGen)
      == Rows(gs[..k], ms, width, minGen) + PlaceRow(Bucket(ms, gs[k]), gs[k], minGen, width)
  {
    assert gs[..k + 1][..k] == gs[..k];
  }

  /** The layout pass: group the members by generation, sort the keys, then push each
      bucket's members with their computed positions. */
  method Layout(members: seq<Member>, width: int) returns (positioned: seq<Member>)
    ensures positioned == LayoutOf(members, width)
  {
    var generations, keys := GroupByGeneration(members);
    var minGeneration := MinGeneration(keys);
    var sorted := SortAscending(keys);
    positioned := [];
    var k := 0;
    while k < |sorted|
      invariant 0 <= k <= |sorted|
      invariant positioned == Rows(sorted[..k], members, width, minGeneration)
    {
      var generation := sorted[k];
      assert generation in multiset(keys) by {
        assert generation in multiset(sorted);
      }
      assert generations[generation] == Bucket(members, generation);
      positioned := PushRow(positioned, generations[generation], generation, minGeneration, width);
      RowsStep(sorted, k, members, width, minGeneration);
      k := k + 1;
    }
    assert sorted[..|sorted|] == sorted;
  }

  /** Each generation of the members is placed exactly once, in strictly ascending order. */
  lemma SortedGenerationsFacts(ms: seq<Member>)
    ensures forall g :: multiset(SortedGenerations(ms))[g] == if g in GenerationSet(ms) then 1 else 0
    ensures forall g :: g in SortedGenerations(ms) <==> g in GenerationSet(ms)
    ensures Distinct(SortedGenerations(ms))
    ensures forall i, j :: 0 <= i < j < |SortedGenerations(ms)| ==> SortedGenerations(ms)[i] < SortedGenerations(ms)[j]
  {
    var gs := SortedGenerations(ms);
    DistinctGenerationsCount(ms);
    forall g ensures g in gs <==> g in GenerationSet(ms) {
      assert g in gs <==> g in multiset(gs);
    }
    CountDistinct(gs);
  }

  lemma UnplacedPlaceRow(b: seq<Member>, g: int, minGen: int, width: int)
    ensures UnplacedAll(PlaceRow(b, g, minGen, width)) == UnplacedAll(b)
  {
  }

  /** Placing rows, each generation listed at most once, keeps every member and every
      field but the position: a member appears as often as in the input when its
      generation is listed, and not at all otherwise. */
  lemma {:induction false} RowsCount(gs: seq<int>, ms: seq<Member>, width: int, minGen: int, u: Member)
    requires Distinct(gs)
    ensures multiset(UnplacedAll(Rows(gs, ms, width, minGen)))[u]
      == if u.generation in gs then multiset(UnplacedAll(ms))[u] else 0
    decreases |gs|
  {
    if gs != [] {
      var p := gs[..|gs| - 1];
      var g := gs[|gs| - 1];
      assert Distinct(p);
      assert g !in p;
      RowsCount(p, ms, width, minGen, u);
      var b := Bucket(ms, g);
      UnplacedAllAppend(Rows(p, ms, width, minGen), PlaceRow(b, g, minGen, width));
      UnplacedPlaceRow(b, g, minGen, width);
      BucketUnplaced(ms, g);
      BucketMembers(UnplacedAll(ms), g);
      assert gs == p + [g];
    }
  }

  /** The layout is a permutation of its input: same length, and the same members
      with the same multiplicity once positions are disregarded. */
  lemma LayoutIsPermutation(ms: seq<Member>, width: int)
    ensures |LayoutOf(ms, width)| == |ms|
    ensures multiset(UnplacedAll(LayoutOf(ms, width))) == multiset(UnplacedAll(ms))
  {
    var gs := SortedGenerations(ms);
    var mg := MinGeneration(DistinctGenerations(ms));
    var before := multiset(UnplacedAll(ms));
    var after := multiset(UnplacedAll(LayoutOf(ms, width)));
    SortedGenerationsFacts(ms);
    forall u ensures after[u] == before[u] {
      RowsCount(gs, ms, width, mg, u);
      if u in before {
        var k :| 0 <= k < |ms| && UnplacedAll(ms)[k] == u;
        assert ms[k].generation == u.generation;
        assert u.generation in GenerationSet(ms);
      }
    }
    assert after == before;
    assert |after| == |before|;
  }

  /** Every placed member comes from one of the rows listed, at that row's height. */
  lemma {:induction false} RowsPlacement(gs: seq<int>, ms: seq<Member>, width: int, minGen: int)
    ensures forall k :: 0 <= k < |Rows(gs, ms, width, minGen)| ==>
      Rows(gs, ms, width, minGen)[k].generation in gs &&
      Rows(gs, ms, width, minGen)[k].position.y == RowY(Rows(gs, ms, width, minGen)[k].generation, minGen)
    decreases |gs|
  {
    if gs != [] {
      var p := gs[..|gs| - 1];
      var g := gs[|gs| - 1];
      RowsPlacement(p, ms, width, minGen);
      BucketMembers(ms, g);
      assert gs == p + [g];
    }
  }

  /** Rows listed in ascending generation produce members in ascending generation. */
  lemma {:induction false} RowsOrdered(gs: seq<int>, ms: seq<Member>, width: int, minGen: int)
    requires Sorted(gs)
    ensures forall i, j :: 0 <= i < j < |Rows(gs, ms, width, minGen)| ==>
      Rows(gs, ms, width, minGen)[i].generation <= Rows(gs, ms, width, minGen)[j].generation
    decreases |gs|
  {
    if gs != [] {
      var p := gs[..|gs| - 1];
      var g := gs[|gs| - 1];
      RowsOrdered(p, ms, width, minGen);
      RowsPlacement(p, ms, width, minGen);
      BucketMembers(ms, g);
      var r := Rows(p, ms, width, minGen);
      forall k | 0 <= k < |r| ensures r[k].generation <= g {
        var t :| 0 <= t < |p| && p[t] == r[k].generation;
        assert gs[t] <= gs[|gs| - 1];
      }
    }
  }

  /** The layout lists members by ascending generation. */
  lemma LayoutSortedByGeneration(ms: seq<Member>, width: int)
    ensures forall i, j :: 0 <= i < j < |LayoutOf(ms, width)| ==>
      LayoutOf(ms, width)[i].generation <= LayoutOf(ms, width)[j].generation
  {
    RowsOrdered(SortedGenerations(ms), ms, width, MinGeneration(DistinctGenerations(ms)));
  }

  lemma BucketOfRow(b: seq<Member>, h: int, minGen: int, width: int, g: int)
    requires forall k :: 0 <= k < |b| ==> b[k].generation == h
    ensures Bucket(PlaceRow(b, h, minGen, width), g) == if g == h then PlaceRow(b, h, minGen, width) else []
  {
    if g == h {
      BucketOfUniform(PlaceRow(b, h, minGen, width), g);
    } else {
      BucketOfAbsent(PlaceRow(b, h, minGen, width), g);
    }
  }

  /** With each generation listed once, the members of generation `g` in the rows are
      exactly `g`'s own row. */
  lemma {:induction false} RowsBucket(gs: seq<int>, ms: seq<Member>, width: int, minGen: int, g: int)
    requires Distinct(gs)
    ensures Bucket(Rows(gs, ms, width, minGen), g) == if g in gs then PlaceRow(Bucket(ms, g), g, minGen, width) else []
    decreases |gs|
  {
    if gs != [] {
      var p := gs[..|gs| - 1];
      var h := gs[|gs| - 1];
      assert Distinct(p);
      assert h !in p;
      RowsBucket(p, ms, width, minGen, g);
      BucketMembers(ms, h);
      BucketAppend(Rows(p, ms, width, minGen), PlaceRow(Bucket(ms, h), h, minGen, width), g);
      BucketOfRow(Bucket(ms, h), h, minGen, width, g);
      assert gs == p + [h];
    }
  }

  /** Within each generation the layout keeps the members' original relative order. */
  lemma LayoutKeepsOrderWithinGeneration(ms: seq<Member>, width: int, g: int)
    ensures Bucket(UnplacedAll(LayoutOf(ms, width)), g) == Bucket(UnplacedAll(ms), g)
  {
    var gs := SortedGenerations(ms);
    var mg := MinGeneration(DistinctGenerations(ms));
    SortedGenerationsFacts(ms);
    RowsBucket(gs, ms, width, mg, g);
    BucketUnplaced(LayoutOf(ms, width), g);
    BucketUnplaced(ms, g);
    if g !in gs {
      BucketOfAbsent(ms, g);
    }
  }

  function SumX(ps: seq<Member>): real {
    if ps == [] then 0.0 else SumX(ps[..|ps| - 1]) + ps[|ps| - 1].position.x
  }

  lemma {:induction false} RowSum(row: seq<Member>, width: int, n: int)
    requires forall i :: 0 <= i < |row| ==> row[i].position.x == RowX(width, n, i)
    ensures SumX(row) == (|row| as real) * ((width - n * MemberWidth) as real / 2.0)
      + 140.0 * (|row| as real) * (|row| as real)
    decreases |row|
  {
    if row != [] {
      var k := |row| as real;
      var a := (width - n * MemberWidth) as real / 2.0;
      RowSum(row[..|row| - 1], width, n);
      assert SumX(row) == (k - 1.0) * a + 140.0 * (k - 1.0) * (k - 1.0) + a + 280.0 * (k - 1.0) + 140.0;
      assert (k - 1.0) * (k - 1.0) == k * k - 2.0 * k + 1.0;
    }
  }

  /** The members of generation `g` in the layout are exactly `g`'s row, placed from
      the bucket of `g` in the input. */
  lemma LayoutRow(ms: seq<Member>, width: int, g: int)
    ensures Bucket(LayoutOf(ms, width), g)
      == PlaceRow(Bucket(ms, g), g, MinGeneration(DistinctGenerations(ms)), width)
  {
    var gs := SortedGenerations(ms);
    SortedGenerationsFacts(ms);
    RowsBucket(gs, ms, width, MinGeneration(DistinctGenerations(ms)), g);
    if g !in gs {
      BucketOfAbsent(ms, g);
    }
  }

  /** A placed row: its members sit `MemberWidth` apart from left to right at one
      height, so no two share an x. */
  lemma RowSpacing(b: seq<Member>, g: int, minGen: int, width: int)
    ensures var row := PlaceRow(b, g, minGen, width);
      && (forall i :: 0 <= i < |row| ==> row[i].position.y == RowY(g, minGen))
      && (forall i :: 0 <= i < |row| - 1 ==>
            row[i + 1].position.x - row[i].position.x == MemberWidth as real)
      && (forall i, j :: 0 <= i < j < |row| ==> row[i].position.x < row[j].position.x)
  {
  }

  /** A placed row is centred: the mean of its x values is half the width. */
  lemma RowCentred(b: seq<Member>, g: int, minGen: int, width: int)
    ensures SumX(PlaceRow(b, g, minGen, width)) == (|b| as real) * (width as real) / 2.0
  {
    var n := |b|;
    RowSum(PlaceRow(b, g, minGen, width), width, n);
    var nr := n as real;
    assert (n * MemberWidth) as real == 280.0 * nr;
    assert nr * ((width as real - 280.0 * nr) / 2.0) == nr * (width as real) / 2.0 - 140.0 * nr * nr;
  }

  /** Every member sits on its generation's row, and no row is above the top margin. */
  lemma LayoutHeights(ms: seq<Member>, width: int)
    ensures forall k :: 0 <= k < |LayoutOf(ms, width)| ==>
      LayoutOf(ms, width)[k].position.y == RowY(LayoutOf(ms, width)[k].generation, MinGeneration(DistinctGenerations(ms)))
      && LayoutOf(ms, width)[k].position.y >= TopMargin as real
  {
    var keys := DistinctGenerations(ms);
    var gs := SortedGenerations(ms);
    SortedGenerationsFacts(ms);
    DistinctGenerationsCount(ms);
    RowsPlacement(gs, ms, width, MinGeneration(keys));
    forall k | 0 <= k < |LayoutOf(ms, width)|
      ensures LayoutOf(ms, width)[k].generation >= MinGeneration(keys)
    {
      var g := LayoutOf(ms, width)[k].generation;
      assert g in keys;
      var t :| 0 <= t < |keys| && keys[t] == g;
    }
  }

  /** Every entry of `a` is, up to position, an entry of `b`. */
  predicate Counterparts(a: seq<Member>, b: seq<Member>) {
    forall k :: 0 <= k < |a| ==> exists j :: 0 <= j < |b| && Unplaced(b[j]) == Unplaced(a[k])
  }

  /** Two lists with the same members up to position pair their entries off. */
  lemma SameUpToPosition(a: seq<Member>, b: seq<Member>)
    requires multiset(UnplacedAll(a)) == multiset(UnplacedAll(b))
    ensures Counterparts(a, b)
  {
    var ua, ub := UnplacedAll(a), UnplacedAll(b);
    forall k | 0 <= k < |a|
      ensures exists j :: 0 <= j < |b| && Unplaced(b[j]) == Unplaced(a[k])
    {
      assert ua[k] == Unplaced(a[k]);
      assert ua[k] in multiset(ua);
      assert ua[k] in multiset(ub);
      assert ua[k] in ub;
      var j :| 0 <= j < |ub| && ub[j] == ua[k];
      assert ub[j] == Unplaced(b[j]);
    }
  }

  /** When every entry of `a` has a counterpart in `b` up to position, the
      generations of `a` are generations of `b`. */
  lemma GenerationsIncluded(a: seq<Member>, b: seq<Member>)
    requires Counterparts(a, b)
    ensures GenerationSet(a) <= GenerationSet(b)
  {
    forall g | g in GenerationSet(a) ensures g in GenerationSet(b) {
      var m :| m in a && m.generation == g;
      var k :| 0 <= k < |a| && a[k] == m;
      var j :| 0 <= j < |b| && Unplaced(b[j]) == Unplaced(a[k]);
      assert b[j].generation == Unplaced(b[j]).generation == g;
      assert b[j] in b;
    }
  }

  /** Each positioned member is an input member with a new position. */
  lemma LayoutFromInput(ms: seq<Member>, width: int)
    ensures Counterparts(LayoutOf(ms, width), ms)
  {
    var l := LayoutOf(ms, width);
    assert multiset(UnplacedAll(l)) == multiset(UnplacedAll(ms)) by {
      LayoutIsPermutation(ms, width);
    }
    SameUpToPosition(l, ms);
  }

  /** Each input member has a positioned counterpart. */
  lemma LayoutCoversInput(ms: seq<Member>, width: int)
    ensures Counterparts(ms, LayoutOf(ms, width))
  {
    var l := LayoutOf(ms, width);
    assert multiset(UnplacedAll(ms)) == multiset(UnplacedAll(l)) by {
      LayoutIsPermutation(ms, width);
    }
    SameUpToPosition(ms, l);
  }

  /** The positioned members have exactly the input's generations. */
  lemma LayoutGenerations(ms: seq<Member>, width: int)
    ensures GenerationSet(LayoutOf(ms, width)) == GenerationSet(ms)
  {
    var l := LayoutOf(ms, width);
    assert GenerationSet(l) <= GenerationSet(ms) by {
      LayoutFromInput(ms, width);
      GenerationsIncluded(l, ms);
    }
    assert GenerationSet(ms) <= GenerationSet(l) by {
      LayoutCoversInput(ms, width);
      GenerationsIncluded(ms, l);
    }
  }
}
