/** The connection resolver of the interactive family tree: one parent-child edge per
    child id that names a positioned member, and one spouse edge per name match whose
    ids are in ascending order. */
module TreeConnections {
  import opened Members
  import opened Text

  /** The three connection types; `Sibling` is declared but never produced. */
  datatype ConnectionKind = ParentChild | Spouse | Sibling

  datatype Connection = Connection(from: Point, to: Point, kind: ConnectionKind, memberIds: seq<string>)

  /** The member field a lookup compares. */
  datatype Field = Id | Name

  function FieldOf(m: Member, f: Field): string {
    match f
    case Id => m.id
    case Name => m.name
  }

  /** `ms.find(...)` comparing field `f` with `value`: the first member whose field
      equals it, if any. */
  function FindFirst(ms: seq<Member>, f: Field, value: string): (r: Option<Member>)
    ensures r.None? <==> forall k :: 0 <= k < |ms| ==> FieldOf(ms[k], f) != value
    ensures r.Some? ==> FieldOf(r.value, f) == value
    ensures r.Some? ==> exists k :: (0 <= k < |ms| && ms[k] == r.value && FieldOf(r.value, f) == value
      && forall j :: 0 <= j < k ==> FieldOf(ms[j], f) != value)
  {
    if ms == [] then None
    else if FieldOf(ms[0], f) == value then Some(ms[0])
    else
      var r := FindFirst(ms[1..], f, value);
      assert forall k :: 1 <= k < |ms| ==> ms[k] == ms[1..][k - 1];
      r
  }

  /** `ms.find(m => m.id === id)`. */
  function FindById(ms: seq<Member>, id: string): Option<Member> {
    FindFirst(ms, Id, id)
  }

  /** `ms.find(m => m.name === name)`. */
  function FindByName(ms: seq<Member>, name: string): Option<Member> {
    FindFirst(ms, Name, name)
  }

  /** The parent-child edges of `parent` for the child ids `childIds`, in their order,
      looked up among the positioned members `ms`. */
  function ChildEdges(parent: Member, childIds: seq<string>, ms: seq<Member>): seq<Connection> {
    if childIds == [] then []
    else
      ChildEdges(parent, childIds[..|childIds| - 1], ms) + ChildEdge(parent, childIds[|childIds| - 1], ms)
  }

  /** The edge, if any, that `parent`'s child id `childId` contributes. */
  function ChildEdge(parent: Member, childId: string, ms: seq<Member>): seq<Connection> {
    match FindById(ms, childId)
    case Some(child) => [Connection(parent.position, child.position, ParentChild, [parent.id, child.id])]
    case None => []
  }

  /** The spouse edge of `m`, if its spouse names a member and `m`'s id sorts first. */
  function SpouseEdges(m: Member, ms: seq<Member>): seq<Connection> {
    if !Present(m.spouse) then []
    else
      match FindByName(ms, m.spouse.value)
      case Some(spouse) =>
        if StrLess(m.id, spouse.id) then [Connection(m.position, spouse.position, Spouse, [m.id, spouse.id])] else []
      case None => []
  }

  function MemberEdges(m: Member, ms: seq<Member>): seq<Connection> {
    ChildEdges(m, m.children, ms) + SpouseEdges(m, ms)
  }

  /** The edges of the members `ps`, in member order, looked up among `ms`. */
  function EdgesOf(ps: seq<Member>, ms: seq<Member>): seq<Connection> {
    if ps == [] then [] else EdgesOf(ps[..|ps| - 1], ms) + MemberEdges(ps[|ps| - 1], ms)
  }

  /** All connections of the positioned members. */
  function ConnectionsOf(ms: seq<Member>): seq<Connection> {
    EdgesOf(ms, ms)
  }

  lemma EdgesStep(ps: seq<Member>, i: int, ms: seq<Member>)
    requires 0 <= i < |ps|
    ensures EdgesOf(ps[..i + 1], ms) == EdgesOf(ps[..i], ms) + MemberEdges(ps[i], ms)
  {
    assert ps[..i + 1][..i] == ps[..i];
  }

  lemma ChildEdgesStep(parent: Member, cs: seq<string>, j: int, ms: seq<Member>)
    requires 0 <= j < |cs|
    ensures ChildEdges(parent, cs[..j + 1], ms) == ChildEdges(parent, cs[..j], ms) + ChildEdge(parent, cs[j], ms)
  {
    assert cs[..j + 1][..j] == cs[..j];
  }

  /** Pushes one member's parent-child edges: one per child id that finds a member. */
  method PushChildEdges(connections: seq<Connection>, member: Member, positioned: seq<Member>)
    returns (out: seq<Connection>)
    ensures out == connections + ChildEdges(member, member.children, positioned)
  {
    out := connections;
    var j := 0;
    while j < |member.children|
      invariant 0 <= j <= |member.children|
      invariant out == connections + ChildEdges(member, member.children[..j], positioned)
    {
      var childId := member.children[j];
      var child := FindById(positioned, childId);
      ChildEdgesStep(member, member.children, j, positioned);
      if child.Some? {
        out := out + [Connection(member.position, child.value.position, ParentChild, [member.id, child.value.id])];
      }
      assert out == connections + ChildEdges(member, member.children[..j + 1], positioned);
      j := j + 1;
    }
    assert member.children[..|member.children|] == member.children;
  }

  /** Pushes the member's spouse edge when its spouse's name finds a member whose id
      sorts after the member's own. */
  method PushSpouseEdge(connections: seq<Connection>, member: Member, positioned: seq<Member>)
    returns (out: seq<Connection>)
    ensures out == connections + SpouseEdges(member, positioned)
  {
    out := connections;
    if member.spouse.Some? && member.spouse.value != "" {
      var spouse := FindByName(positioned, member.spouse.value);
      if spouse.Some? && StrLess(member.id, spouse.value.id) {
        out := out + [Connection(member.position, spouse.value.position, Spouse, [member.id, spouse.value.id])];
      }
    }
  }

  /** The resolver pass: for each member, push an edge per child id that finds a member,
      then the spouse edge when the spouse's name finds a member with a larger id. */
  method Connect(positioned: seq<Member>) returns (connections: seq<Connection>)
    ensures connections == ConnectionsOf(positioned)
  {
    connections := [];
    var i := 0;
    while i < |positioned|
      invariant 0 <= i <= |positioned|
      invariant connections == EdgesOf(positioned[..i], positioned)
    {
      var member := positioned[i];
      connections := PushChildEdges(connections, member, positioned);
      connections := PushSpouseEdge(connections, member, positioned);
      assert connections == EdgesOf(positioned[..i + 1], positioned) by {
        EdgesStep(positioned, i, positioned);
      }
      i := i + 1;
    }
    assert positioned[..|positioned|] == positioned;
  }

  // Properties of the resolver.

  /** `c` is one of the edges member `p` emits: a parent-child edge to a child id it
      lists that finds a member, or its spouse edge. */
  predicate EmittedBy(c: Connection, p: Member, ms: seq<Member>) {
    (exists ch :: ch in p.children && ChildEdgeOf(c, p, ch, ms)) || SpouseEdgeOf(c, p, ms)
  }

  predicate ChildEdgeOf(c: Connection, p: Member, ch: string, ms: seq<Member>) {
    FindById(ms, ch).Some? &&
    c == Connection(p.position, FindById(ms, ch).value.position, ParentChild, [p.id, ch])
  }

  predicate SpouseEdgeOf(c: Connection, p: Member, ms: seq<Member>) {
    Present(p.spouse) && FindByName(ms, p.spouse.value).Some? &&
    var spouse := FindByName(ms, p.spouse.value).value;
    StrLess(p.id, spouse.id) && c == Connection(p.position, spouse.position, Spouse, [p.id, spouse.id])
  }

  lemma ChildEdgeExact(p: Member, ch: string, ms: seq<Member>)
    ensures forall c :: c in ChildEdge(p, ch, ms) <==> ChildEdgeOf(c, p, ch, ms)
  {
  }

  lemma {:induction false} ChildEdgesExact(p: Member, cs: seq<string>, ms: seq<Member>)
    ensures forall c :: c in ChildEdges(p, cs, ms) <==> exists ch :: ch in cs && ChildEdgeOf(c, p, ch, ms)
    decreases |cs|
  {
    if cs != [] {
      var q := cs[..|cs| - 1];
      var last := cs[|cs| - 1];
      ChildEdgesExact(p, q, ms);
      ChildEdgeExact(p, last, ms);
      assert ChildEdges(p, cs, ms) == ChildEdges(p, q, ms) + ChildEdge(p, last, ms);
      assert cs == q + [last];
      forall c ensures c in ChildEdges(p, cs, ms) <==> exists ch :: ch in cs && ChildEdgeOf(c, p, ch, ms) {
        if exists ch :: ch in cs && ChildEdgeOf(c, p, ch, ms) {
          var ch :| ch in cs && ChildEdgeOf(c, p, ch, ms);
          if ch != last {
            assert ch in q;
          }
        }
      }
    }
  }

  lemma MemberEdgesExact(p: Member, ms: seq<Member>)
    ensures forall c :: c in MemberEdges(p, ms) <==> EmittedBy(c, p, ms)
  {
    ChildEdgesExact(p, p.children, ms);
  }

  predicate EmittedByOneOf(c: Connection, ps: seq<Member>, ms: seq<Member>) {
    exists k :: 0 <= k < |ps| && EmittedBy(c, ps[k], ms)
  }

  lemma EmittedByOneOfStep(c: Connection, ps: seq<Member>, ms: seq<Member>)
    requires ps != []
    ensures EmittedByOneOf(c, ps, ms) <==>
      EmittedByOneOf(c, ps[..|ps| - 1], ms) || EmittedBy(c, ps[|ps| - 1], ms)
  {
    var q := ps[..|ps| - 1];
    if EmittedByOneOf(c, ps, ms) {
      var k :| 0 <= k < |ps| && EmittedBy(c, ps[k], ms);
      if k < |q| {
        assert EmittedBy(c, q[k], ms);
      }
    }
    if EmittedByOneOf(c, q, ms) {
      var k :| 0 <= k < |q| && EmittedBy(c, q[k], ms);
      assert EmittedBy(c, ps[k], ms);
    }
  }

  /** Every connection of `ps` is emitted by one of the members of `ps`, and every
      edge a member of `ps` emits is a connection. */
  lemma {:induction false} EdgesExact(ps: seq<Member>, ms: seq<Member>)
    ensures forall c :: c in EdgesOf(ps, ms) <==> EmittedByOneOf(c, ps, ms)
    decreases |ps|
  {
    if ps != [] {
      var q := ps[..|ps| - 1];
      var last := ps[|ps| - 1];
      EdgesExact(q, ms);
      MemberEdgesExact(last, ms);
      forall c ensures c in EdgesOf(ps, ms) <==> EmittedByOneOf(c, ps, ms) {
        EmittedByOneOfStep(c, ps, ms);
      }
    }
  }

  /** The connections are exactly the edges the members emit: a parent-child edge from
      a member to each listed child id that names a member (from and to are the two
      positions, the ids are parent then child) and, when the spouse's name finds a
      member whose id sorts after the member's own, one spouse edge. */
  lemma ConnectionsExact(ms: seq<Member>)
    ensures forall c :: c in ConnectionsOf(ms) <==> EmittedByOneOf(c, ms, ms)
  {
    EdgesExact(ms, ms);
  }

  /** No sibling connection is ever produced; every connection joins two ids, and a
      spouse connection's ids are strictly ascending, so it never joins a member to
      itself. */
  lemma ConnectionShapes(ms: seq<Member>)
    ensures forall c :: c in ConnectionsOf(ms) ==> c.kind != Sibling && |c.memberIds| == 2
    ensures forall c :: c in ConnectionsOf(ms) && c.kind == Spouse ==>
      StrLess(c.memberIds[0], c.memberIds[1]) && c.memberIds[0] != c.memberIds[1]
  {
    ConnectionsExact(ms);
    forall c | c in ConnectionsOf(ms) && c.kind == Spouse
      ensures c.memberIds[0] != c.memberIds[1]
    {
      StrLessIrreflexive(c.memberIds[0]);
    }
  }

  /** The child ids of `cs` that name one of `ms`, each paired with `p`'s id. */
  function ResolvedPairs(p: Member, cs: seq<string>, ms: seq<Member>): seq<seq<string>> {
    if cs == [] then []
    else
      var found := exists k :: 0 <= k < |ms| && ms[k].id == cs[|cs| - 1];
      ResolvedPairs(p, cs[..|cs| - 1], ms) + (if found then [[p.id, cs[|cs| - 1]]] else [])
  }

  /** All (member, child id) pairs of `ps` whose child id names one of `ms`, in member
      order and then children order. */
  function AllResolvedPairs(ps: seq<Member>, ms: seq<Member>): seq<seq<string>> {
    if ps == [] then []
    else AllResolvedPairs(ps[..|ps| - 1], ms) + ResolvedPairs(ps[|ps| - 1], ps[|ps| - 1].children, ms)
  }

  /** The id pairs of the parent-child connections, in order. */
  function ParentChildIds(cs: seq<Connection>): seq<seq<string>> {
    if cs == [] then []
    else ParentChildIds(cs[..|cs| - 1]) + (if cs[|cs| - 1].kind == ParentChild then [cs[|cs| - 1].memberIds] else [])
  }

  lemma {:induction false} ParentChildIdsAppend(a: seq<Connection>, b: seq<Connection>)
    ensures ParentChildIds(a + b) == ParentChildIds(a) + ParentChildIds(b)
    decreases |b|
  {
    if b == [] {
      assert a + b == a;
    } else {
      assert (a + b)[..|a + b| - 1] == a + b[..|b| - 1];
      ParentChildIdsAppend(a, b[..|b| - 1]);
    }
  }

  lemma ParentChildIdsSingleton(c: Connection)
    ensures ParentChildIds([c]) == if c.kind == ParentChild then [c.memberIds] else []
  {
    assert [c][..0] == [];
  }

  lemma {:induction false} ChildEdgesIds(p: Member, cs: seq<string>, ms: seq<Member>)
    ensures ParentChildIds(ChildEdges(p, cs, ms)) == ResolvedPairs(p, cs, ms)
    decreases |cs|
  {
    if cs != [] {
      var q := cs[..|cs| - 1];
      ChildEdgesIds(p, q, ms);
      var tail := ChildEdge(p, cs[|cs| - 1], ms);
      ParentChildIdsAppend(ChildEdges(p, q, ms), tail);
      if tail != [] {
        ParentChildIdsSingleton(tail[0]);
        assert tail == [tail[0]];
      }
    }
  }

  lemma {:induction false} EdgesIds(ps: seq<Member>, ms: seq<Member>)
    ensures ParentChildIds(EdgesOf(ps, ms)) == AllResolvedPairs(ps, ms)
    decreases |ps|
  {
    if ps != [] {
      var q := ps[..|ps| - 1];
      var last := ps[|ps| - 1];
      var sp := SpouseEdges(last, ms);
      var ce := ChildEdges(last, last.children, ms);
      assert EdgesOf(ps, ms) == EdgesOf(q, ms) + (ce + sp);
      assert ParentChildIds(EdgesOf(q, ms)) == AllResolvedPairs(q, ms) by {
        EdgesIds(q, ms);
      }
      assert ParentChildIds(ce) == ResolvedPairs(last, last.children, ms) by {
        ChildEdgesIds(last, last.children, ms);
      }
      assert ParentChildIds(sp) == [] by {
        if sp != [] {
          ParentChildIdsSingleton(sp[0]);
          assert sp == [sp[0]];
        }
      }
      ParentChildIdsAppend(EdgesOf(q, ms), ce + sp);
      ParentChildIdsAppend(ce, sp);
    }
  }

  /** Exactly one parent-child connection per (member, child id) pair whose id names a
      member, in member order and then children order, with the ids [parent, child];
      child ids that name nobody produce nothing. */
  lemma ParentChildConnections(ms: seq<Member>)
    ensures ParentChildIds(ConnectionsOf(ms)) == AllResolvedPairs(ms, ms)
  {
    EdgesIds(ms, ms);
  }

  /** Which connections to count. */
  datatype Query = SpouseFrom(id: string) | SpouseBetween(a: string, b: string)

  predicate Selected(c: Connection, q: Query) {
    c.kind == Spouse &&
    match q
    case SpouseFrom(id) => |c.memberIds| > 0 && c.memberIds[0] == id
    case SpouseBetween(a, b) => c.memberIds == [a, b] || c.memberIds == [b, a]
  }

  function Count(cs: seq<Connection>, q: Query): nat {
    if cs == [] then 0 else Count(cs[..|cs| - 1], q) + (if Selected(cs[|cs| - 1], q) then 1 else 0)
  }

  lemma CountSingleton(c: Connection, q: Query)
    ensures Count([c], q) == if Selected(c, q) then 1 else 0
  {
    assert [c][..0] == [];
  }

  lemma {:induction false} CountAppend(a: seq<Connection>, b: seq<Connection>, q: Query)
    ensures Count(a + b, q) == Count(a, q) + Count(b, q)
    decreases |b|
  {
    if b == [] {
      assert a + b == a;
    } else {
      assert (a + b)[..|a + b| - 1] == a + b[..|b| - 1];
      CountAppend(a, b[..|b| - 1], q);
    }
  }

  /** Only spouse edges are counted, so a member's edges count as its spouse edge does. */
  lemma MemberEdgesCount(m: Member, ms: seq<Member>, q: Query)
    ensures Count(MemberEdges(m, ms), q) == Count(SpouseEdges(m, ms), q)
  {
    CountAppend(ChildEdges(m, m.children, ms), SpouseEdges(m, ms), q);
    ChildEdgesNotSpouse(m, m.children, ms, q);
  }

  lemma {:induction false} ChildEdgesNotSpouse(m: Member, cs: seq<string>, ms: seq<Member>, q: Query)
    ensures Count(ChildEdges(m, cs, ms), q) == 0
    decreases |cs|
  {
    if cs != [] {
      var q' := cs[..|cs| - 1];
      ChildEdgesNotSpouse(m, q', ms, q);
      var tail := ChildEdge(m, cs[|cs| - 1], ms);
      CountAppend(ChildEdges(m, q', ms), tail, q);
      if tail != [] {
        CountSingleton(tail[0], q);
        assert tail == [tail[0]];
      }
    }
  }

  /** With unique ids, no member id starts more than one spouse connection, and an id
      that no member has starts none. */
  lemma {:induction false} SpouseEdgesPerMember(ps: seq<Member>, ms: seq<Member>, id: string)
    requires UniqueIds(ps)
    ensures Count(EdgesOf(ps, ms), SpouseFrom(id)) <= 1
    ensures (forall k :: 0 <= k < |ps| ==> ps[k].id != id) ==> Count(EdgesOf(ps, ms), SpouseFrom(id)) == 0
    decreases |ps|
  {
    if ps != [] {
      var q := ps[..|ps| - 1];
      var last := ps[|ps| - 1];
      assert UniqueIds(q);
      SpouseEdgesPerMember(q, ms, id);
      CountAppend(EdgesOf(q, ms), MemberEdges(last, ms), SpouseFrom(id));
      MemberEdgesCount(last, ms, SpouseFrom(id));
      var sp := SpouseEdges(last, ms);
      if sp != [] {
        CountSingleton(sp[0], SpouseFrom(id));
        assert sp == [sp[0]];
      }
      if last.id == id {
        assert forall k :: 0 <= k < |q| ==> q[k].id != id;
      }
    }
  }

  /** At most one spouse connection starts at each member. */
  lemma AtMostOneSpouseEdge(ms: seq<Member>, id: string)
    requires UniqueIds(ms)
    ensures Count(ConnectionsOf(ms), SpouseFrom(id)) <= 1
  {
    SpouseEdgesPerMember(ms, ms, id);
  }

  predicate NameOnlyAt(ms: seq<Member>, i: int) requires 0 <= i < |ms| {
    forall k :: 0 <= k < |ms| && ms[k].name == ms[i].name ==> k == i
  }

  /** Members `i` and `j` (two different members, with unique ids) name each other as
      spouse, and no other member has either of their (non-empty) names. */
  predicate MutualPair(ms: seq<Member>, i: int, j: int)
    requires 0 <= i < |ms| && 0 <= j < |ms|
  {
    UniqueIds(ms) && i != j &&
    ms[i].spouse == Some(ms[j].name) && ms[j].spouse == Some(ms[i].name) &&
    ms[i].name != "" && ms[j].name != "" &&
    NameOnlyAt(ms, i) && NameOnlyAt(ms, j)
  }

  lemma SpouseFound(ms: seq<Member>, i: int, j: int)
    requires 0 <= i < |ms| && 0 <= j < |ms|
    requires ms[i].spouse == Some(ms[j].name) && NameOnlyAt(ms, j)
    ensures FindByName(ms, ms[j].name) == Some(ms[j])
  {
  }

  /** The spouse edge of one of the pair counts once, when its id sorts first. */
  lemma SpouseEdgeToPartner(ms: seq<Member>, i: int, j: int, q: Query)
    requires 0 <= i < |ms| && 0 <= j < |ms|
    requires ms[i].spouse == Some(ms[j].name) && ms[j].name != "" && NameOnlyAt(ms, j)
    requires q == SpouseBetween(ms[i].id, ms[j].id) || q == SpouseBetween(ms[j].id, ms[i].id)
    ensures Count(SpouseEdges(ms[i], ms), q) == if StrLess(ms[i].id, ms[j].id) then 1 else 0
  {
    SpouseFound(ms, i, j);
    var sp := SpouseEdges(ms[i], ms);
    if sp != [] {
      CountSingleton(sp[0], q);
      assert sp == [sp[0]];
    }
  }

  /** A member outside the pair contributes no edge between them. */
  lemma SpouseEdgeElsewhere(m: Member, ms: seq<Member>, a: string, b: string)
    requires m.id != a && m.id != b
    ensures Count(SpouseEdges(m, ms), SpouseBetween(a, b)) == 0
  {
    var sp := SpouseEdges(m, ms);
    if sp != [] {
      CountSingleton(sp[0], SpouseBetween(a, b));
      assert sp == [sp[0]];
    }
  }

  lemma PrefixCountStep(ms: seq<Member>, k: int, q: Query)
    requires 0 <= k < |ms|
    ensures Count(EdgesOf(ms[..k + 1], ms), q) == Count(EdgesOf(ms[..k], ms), q) + Count(MemberEdges(ms[k], ms), q)
  {
    EdgesStep(ms, k, ms);
    CountAppend(EdgesOf(ms[..k], ms), MemberEdges(ms[k], ms), q);
  }

  /** The number of spouse edges between the pair among the first `n` members'
      edges: one for whichever of the two is among them and has the smaller id. */
  function PairEdgesUpTo(ms: seq<Member>, i: int, j: int, n: int): int
    requires 0 <= i < |ms| && 0 <= j < |ms|
  {
    (if i < n && StrLess(ms[i].id, ms[j].id) then 1 else 0) + (if j < n && StrLess(ms[j].id, ms[i].id) then 1 else 0)
  }

  /** Moving the bound past member `n - 1` adds that member's count, which is its share
      of the pair's edges. */
  lemma MutualPrefixStep(ms: seq<Member>, i: int, j: int, n: int)
    requires 0 <= i < |ms| && 0 <= j < |ms| && 0 < n <= |ms|
    requires Count(EdgesOf(ms[..n - 1], ms), SpouseBetween(ms[i].id, ms[j].id)) == PairEdgesUpTo(ms, i, j, n - 1)
    requires Count(MemberEdges(ms[n - 1], ms), SpouseBetween(ms[i].id, ms[j].id))
      == (if n - 1 == i && StrLess(ms[i].id, ms[j].id) then 1 else 0)
       + (if n - 1 == j && StrLess(ms[j].id, ms[i].id) then 1 else 0)
    ensures Count(EdgesOf(ms[..n], ms), SpouseBetween(ms[i].id, ms[j].id)) == PairEdgesUpTo(ms, i, j, n)
  {
    var q := SpouseBetween(ms[i].id, ms[j].id);
    assert Count(EdgesOf(ms[..n], ms), q) == Count(EdgesOf(ms[..n - 1], ms), q) + Count(MemberEdges(ms[n - 1], ms), q) by {
      PrefixCountStep(ms, n - 1, q);
      assert n - 1 + 1 == n;
    }
    PairEdgesStep(ms, i, j, n, StrLess(ms[i].id, ms[j].id), StrLess(ms[j].id, ms[i].id));
  }

  /** Moving the bound past member `k` adds that member's share of the pair's edges. */
  lemma PairEdgesStep(ms: seq<Member>, i: int, j: int, n: int, lessIJ: bool, lessJI: bool)
    requires 0 <= i < |ms| && 0 <= j < |ms| && 0 < n
    requires lessIJ == StrLess(ms[i].id, ms[j].id) && lessJI == StrLess(ms[j].id, ms[i].id)
    ensures PairEdgesUpTo(ms, i, j, n) == PairEdgesUpTo(ms, i, j, n - 1)
      + (if n - 1 == i && lessIJ then 1 else 0) + (if n - 1 == j && lessJI then 1 else 0)
  {
  }

  lemma {:induction false} MutualPrefix(ms: seq<Member>, i: int, j: int, n: int)
    requires 0 <= i < |ms| && 0 <= j < |ms| && MutualPair(ms, i, j)
    requires 0 <= n <= |ms|
    ensures Count(EdgesOf(ms[..n], ms), SpouseBetween(ms[i].id, ms[j].id)) == PairEdgesUpTo(ms, i, j, n)
    decreases n
  {
    if n > 0 {
      MutualPrefix(ms, i, j, n - 1);
      MemberBetweenCount(ms, i, j, n - 1);
      MutualPrefixStep(ms, i, j, n);
    } else {
      assert ms[..0] == [];
    }
  }

  lemma MemberBetweenCount(ms: seq<Member>, i: int, j: int, k: int)
    requires 0 <= i < |ms| && 0 <= j < |ms| && 0 <= k < |ms| && MutualPair(ms, i, j)
    ensures Count(MemberEdges(ms[k], ms), SpouseBetween(ms[i].id, ms[j].id))
      == (if k == i && StrLess(ms[i].id, ms[j].id) then 1 else 0)
       + (if k == j && StrLess(ms[j].id, ms[i].id) then 1 else 0)
  {
    var q := SpouseBetween(ms[i].id, ms[j].id);
    MemberEdgesCount(ms[k], ms, q);
    if k == i {
      SpouseEdgeToPartner(ms, i, j, q);
    } else if k == j {
      SpouseEdgeToPartner(ms, j, i, q);
    } else {
      assert ms[k].id != ms[i].id && ms[k].id != ms[j].id;
      SpouseEdgeElsewhere(ms[k], ms, ms[i].id, ms[j].id);
    }
  }

  /** Two members who name each other as spouse, with names no other member shares,
      are joined by exactly one spouse connection, whichever order they appear in. */
  lemma MutualSpousesOneEdge(ms: seq<Member>, i: int, j: int)
    requires 0 <= i < |ms| && 0 <= j < |ms| && MutualPair(ms, i, j)
    ensures Count(ConnectionsOf(ms), SpouseBetween(ms[i].id, ms[j].id)) == 1
  {
    MutualPrefix(ms, i, j, |ms|);
    assert ms[..|ms|] == ms;
    if i < j {
      assert ms[i].id != ms[j].id;
    } else {
      assert ms[j].id != ms[i].id;
    }
    StrLessTotal(ms[i].id, ms[j].id);
    StrLessAsymmetric(ms[i].id, ms[j].id);
  }
}
