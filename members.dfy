/** The family-member record shared by every component, and the generation buckets
    the layout groups members into. */
module Members {

  datatype Option<T> = None | Some(value: T)

  datatype Point = Point(x: real, y: real)

  /** One family member. Optional list fields are `[]` when absent: every use in the
      tree treats an absent list and an empty one alike. `position` is assigned by the
      layout and is not authoritative on input. */
  datatype Member = Member(
    id: string,
    name: string,
    hebrewName: Option<string>,
    birthYear: Option<int>,
    deathYear: Option<int>,
    role: string,
    photo: Option<string>,
    biography: Option<string>,
    spouse: Option<string>,
    children: seq<string>,
    achievements: seq<string>,
    cultural: seq<string>,
    generation: int,
    position: Point,
    parentIds: seq<string>)

  /** JavaScript truthiness of an optional string field: absent and "" are both false. */
  predicate Present(s: Option<string>) {
    s.Some? && s.value != ""
  }

  predicate Distinct<T(==)>(s: seq<T>) {
    forall i, j :: 0 <= i < j < |s| ==> s[i] != s[j]
  }

  /** No two members share an id (assumed of the input data, never checked). */
  predicate UniqueIds(ms: seq<Member>) {
    forall i, j :: 0 <= i < j < |ms| ==> ms[i].id != ms[j].id
  }

  /** A member with its position cleared: everything the layout must leave unchanged. */
  function Unplaced(m: Member): Member {
    m.(position := Point(0.0, 0.0))
  }

  function UnplacedAll(ms: seq<Member>): (r: seq<Member>)
    ensures |r| == |ms|
    ensures forall k :: 0 <= k < |ms| ==> r[k] == Unplaced(ms[k])
  {
    seq(|ms|, k requires 0 <= k < |ms| => Unplaced(ms[k]))
  }

  lemma UnplacedAllAppend(a: seq<Member>, b: seq<Member>)
    ensures UnplacedAll(a + b) == UnplacedAll(a) + UnplacedAll(b)
  {
  }

  function GenerationSet(ms: seq<Member>): set<int> {
    set m | m in ms :: m.generation
  }

  /** The members of generation `g` in their original order: the bucket the tree
      pushes them into, one member at a time. */
  function Bucket(ms: seq<Member>, g: int): seq<Member> {
    if ms == [] then []
    else Bucket(ms[..|ms| - 1], g) + (if ms[|ms| - 1].generation == g then [ms[|ms| - 1]] else [])
  }

  /** The generations in order of first occurrence: the key order of the tree's `Map`. */
  function DistinctGenerations(ms: seq<Member>): seq<int> {
    if ms == [] then []
    else
      var d := DistinctGenerations(ms[..|ms| - 1]);
      if ms[|ms| - 1].generation in d then d else d + [ms[|ms| - 1].generation]
  }

  lemma {:induction false} BucketAppend(a: seq<Member>, b: seq<Member>, g: int)
    ensures Bucket(a + b, g) == Bucket(a, g) + Bucket(b, g)
    decreases |b|
  {
    if b == [] {
      assert a + b == a;
    } else {
      assert (a + b)[..|a + b| - 1] == a + b[..|b| - 1];
      BucketAppend(a, b[..|b| - 1], g);
    }
  }

  /** Every member of a bucket has the bucket's generation, and a bucket is a
      subsequence of its members in multiset terms. */
  lemma {:induction false} BucketMembers(ms: seq<Member>, g: int)
    ensures forall k :: 0 <= k < |Bucket(ms, g)| ==> Bucket(ms, g)[k].generation == g
    ensures forall m :: multiset(Bucket(ms, g))[m] == if m.generation == g then multiset(ms)[m] else 0
    decreases |ms|
  {
    if ms != [] {
      var p := ms[..|ms| - 1];
      BucketMembers(p, g);
      assert ms == p + [ms[|ms| - 1]];
    }
  }

  /** A list whose members all have generation `g` is its own bucket. */
  lemma {:induction false} BucketOfUniform(s: seq<Member>, g: int)
    requires forall k :: 0 <= k < |s| ==> s[k].generation == g
    ensures Bucket(s, g) == s
    decreases |s|
  {
    if s != [] {
      BucketOfUniform(s[..|s| - 1], g);
    }
  }

  /** A list with no member of generation `h` has an empty bucket for `h`. */
  lemma {:induction false} BucketOfAbsent(s: seq<Member>, h: int)
    requires forall k :: 0 <= k < |s| ==> s[k].generation != h
    ensures Bucket(s, h) == []
    decreases |s|
  {
    if s != [] {
      BucketOfAbsent(s[..|s| - 1], h);
    }
  }

  lemma {:induction false} BucketUnplaced(ms: seq<Member>, g: int)
    ensures Bucket(UnplacedAll(ms), g) == UnplacedAll(Bucket(ms, g))
    decreases |ms|
  {
    if ms != [] {
      var p := ms[..|ms| - 1];
      assert UnplacedAll(ms)[..|ms| - 1] == UnplacedAll(p);
      BucketUnplaced(p, g);
      UnplacedAllAppend(Bucket(p, g), if ms[|ms| - 1].generation == g then [ms[|ms| - 1]] else []);
    }
  }

  /** The generation keys list each generation of the members exactly once. */
  lemma {:induction false} DistinctGenerationsCount(ms: seq<Member>)
    ensures forall g :: multiset(DistinctGenerations(ms))[g] == if g in GenerationSet(ms) then 1 else 0
    ensures forall g :: g in DistinctGenerations(ms) <==> g in GenerationSet(ms)
    ensures Distinct(DistinctGenerations(ms))
    decreases |ms|
  {
    if ms != [] {
      var p := ms[..|ms| - 1];
      var last := ms[|ms| - 1];
      DistinctGenerationsCount(p);
      assert ms == p + [last];
      assert GenerationSet(ms) == GenerationSet(p) + {last.generation};
    }
  }

  /** Distinct lists have at most one copy of every element. */
  lemma {:induction false} DistinctCount(s: seq<int>)
    requires Distinct(s)
    ensures forall x :: multiset(s)[x] <= 1
    decreases |s|
  {
    if s != [] {
      DistinctCount(s[1..]);
      assert s == [s[0]] + s[1..];
      assert s[0] !in s[1..];
    }
  }

  /** A list with at most one copy of every element is distinct. */
  lemma CountDistinct(s: seq<int>)
    requires forall x :: multiset(s)[x] <= 1
    ensures Distinct(s)
  {
    forall i, j | 0 <= i < j < |s|
      ensures s[i] != s[j]
    {
      RepeatCounts(s, i, j);
    }
  }

  lemma RepeatCounts(s: seq<int>, i: int, j: int)
    requires 0 <= i < j < |s|
    ensures s[i] == s[j] ==> multiset(s)[s[i]] >= 2
  {
    assert s == s[..j] + s[j..];
    assert s[i] in s[..j];
    assert s[j] in s[j..];
  }
}
