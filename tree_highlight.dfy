/** The hover highlight of the family tree: the set of ids related to the hovered
    member, and which connections and nodes that set (and the search term) emphasise. */
module TreeHighlight {
  import opened Members
  import opened Text
  import opened TreeConnections
  import opened TreeSearch

  function Elements(s: seq<string>): set<string> {
    set x | x in s
  }

  /** The id of the first member named by `m`'s spouse field, if it names one. */
  function SpouseIdOf(m: Member, ms: seq<Member>): set<string> {
    if Present(m.spouse) && FindByName(ms, m.spouse.value).Some? then {FindByName(ms, m.spouse.value).value.id} else {}
  }

  /** The ids related to the hovered id: nothing when no id is hovered; otherwise the
      hovered id itself and, when it names a member, that member's child ids, its
      parent ids (neither checked against the members) and its spouse's id. */
  function RelatedIds(ms: seq<Member>, hovered: Option<string>): set<string> {
    if !Present(hovered) then {}
    else
      {hovered.value} +
      match FindById(ms, hovered.value)
      case None => {}
      case Some(m) => Elements(m.children) + Elements(m.parentIds) + SpouseIdOf(m, ms)
  }

  lemma ElementsStep(s: seq<string>, j: int)
    requires 0 <= j < |s|
    ensures Elements(s[..j + 1]) == Elements(s[..j]) + {s[j]}
  {
    assert s[..j + 1] == s[..j] + [s[j]];
  }

  /** Adds every id of `ids` to `related`, one at a time. */
  method AddAll(related: set<string>, ids: seq<string>) returns (out: set<string>)
    ensures out == related + Elements(ids)
  {
    out := related;
    var j := 0;
    while j < |ids|
      invariant 0 <= j <= |ids|
      invariant out == related + Elements(ids[..j])
    {
      ElementsStep(ids, j);
      out := out + {ids[j]};
      j := j + 1;
    }
    assert ids[..|ids|] == ids;
  }

  /** The `highlightedConnections` memo: start from the hovered id and add the child
      ids, the parent ids and the spouse's id of the member it names. */
  method CollectRelated(members: seq<Member>, hoveredMember: Option<string>) returns (related: set<string>)
    ensures related == RelatedIds(members, hoveredMember)
  {
    if hoveredMember.None? || hoveredMember.value == "" {
      return {};
    }
    related := {hoveredMember.value};
    var member := FindById(members, hoveredMember.value);
    if member.Some? {
      var m := member.value;
      related := AddAll(related, m.children);
      related := AddAll(related, m.parentIds);
      if m.spouse.Some? && m.spouse.value != "" {
        var spouse := FindByName(members, m.spouse.value);
        if spouse.Some? {
          related := related + {spouse.value.id};
        }
      }
    }
  }

  /** A connection is drawn highlighted when one of its ids is related. */
  predicate ConnectionHighlighted(c: Connection, related: set<string>) {
    exists i :: 0 <= i < |c.memberIds| && c.memberIds[i] in related
  }

  /** The term matches the node's name case-insensitively or its Hebrew name as given. */
  predicate NameMatches(m: Member, term: string) {
    Contains(Lower(m.name), Lower(term)) || (Present(m.hebrewName) && Contains(m.hebrewName.value, term))
  }

  /** A node is drawn highlighted when its id is related, or when the term is not
      empty and matches its name or Hebrew name. */
  predicate NodeHighlighted(m: Member, related: set<string>, term: string) {
    m.id in related || (term != "" && NameMatches(m, term))
  }

  /** With nothing hovered (or an empty id) the set is empty and no connection is
      highlighted. */
  lemma NothingHovered(ms: seq<Member>, cs: seq<Connection>, hovered: Option<string>)
    requires !Present(hovered)
    ensures RelatedIds(ms, hovered) == {}
    ensures forall c :: c in cs ==> !ConnectionHighlighted(c, RelatedIds(ms, hovered))
  {
  }

  /** The hovered id is always related to itself, and when it names no member it is
      the only related id. */
  lemma HoveredIsRelated(ms: seq<Member>, h: string)
    requires h != ""
    ensures h in RelatedIds(ms, Some(h))
    ensures (forall k :: 0 <= k < |ms| ==> ms[k].id != h) ==> RelatedIds(ms, Some(h)) == {h}
  {
  }

  /** For a hovered member, the related ids are exactly itself, its child and parent id
      lists, and the id of the first member its spouse field names. */
  lemma RelatedOfMember(ms: seq<Member>, k: int)
    requires 0 <= k < |ms| && ms[k].id != ""
    requires forall j :: 0 <= j < k ==> ms[j].id != ms[k].id
    ensures forall x :: x in RelatedIds(ms, Some(ms[k].id)) <==>
      (x == ms[k].id || x in ms[k].children || x in ms[k].parentIds ||
       (Present(ms[k].spouse) && exists s :: FirstNamed(ms, ms[k].spouse.value, s) && ms[s].id == x))
  {
    var h := ms[k].id;
    assert FindById(ms, h) == Some(ms[k]) by {
      FindByIdFirst(ms, h, k);
    }
    if Present(ms[k].spouse) {
      var name := ms[k].spouse.value;
      forall x
        ensures x in SpouseIdOf(ms[k], ms) <==> exists s :: FirstNamed(ms, name, s) && ms[s].id == x
      {
        if exists s :: FirstNamed(ms, name, s) && ms[s].id == x {
          var s :| FirstNamed(ms, name, s) && ms[s].id == x;
          FindByNameFirst(ms, name, s);
        }
      }
    }
  }

  /** `s` is the index of the first member called `name`. */
  predicate FirstNamed(ms: seq<Member>, name: string, s: int) {
    0 <= s < |ms| && ms[s].name == name && forall j :: 0 <= j < s ==> ms[j].name != name
  }

  lemma FindByIdFirst(ms: seq<Member>, id: string, k: int)
    requires 0 <= k < |ms| && ms[k].id == id
    requires forall j :: 0 <= j < k ==> ms[j].id != id
    ensures FindById(ms, id) == Some(ms[k])
  {
  }

  lemma FindByNameFirst(ms: seq<Member>, name: string, k: int)
    requires 0 <= k < |ms| && ms[k].name == name
    requires forall j :: 0 <= j < k ==> ms[j].name != name
    ensures FindByName(ms, name) == Some(ms[k])
  {
  }

  /** Every connection touching the hovered id is highlighted. */
  lemma IncidentConnectionsHighlighted(ms: seq<Member>, cs: seq<Connection>, h: string)
    requires h != ""
    ensures forall c :: c in cs && h in c.memberIds ==> ConnectionHighlighted(c, RelatedIds(ms, Some(h)))
  {
    forall c | c in cs && h in c.memberIds
      ensures ConnectionHighlighted(c, RelatedIds(ms, Some(h)))
    {
      var i :| 0 <= i < |c.memberIds| && c.memberIds[i] == h;
    }
  }

  /** With unique ids, both ends of every connection the hovered member emits (to its
      children and to its spouse) are related ids. */
  lemma EmittedEdgesFullyRelated(ms: seq<Member>, k: int)
    requires UniqueIds(ms) && 0 <= k < |ms| && ms[k].id != ""
    ensures forall c :: c in ConnectionsOf(ms) && |c.memberIds| == 2 && c.memberIds[0] == ms[k].id ==>
      c.memberIds[0] in RelatedIds(ms, Some(ms[k].id)) && c.memberIds[1] in RelatedIds(ms, Some(ms[k].id))
  {
    var h := ms[k].id;
    FindByIdFirst(ms, h, k);
    forall c | c in ConnectionsOf(ms) && |c.memberIds| == 2 && c.memberIds[0] == h
      ensures c.memberIds[1] in RelatedIds(ms, Some(h))
    {
      var e :| 0 <= e < |ms| && EmittedBy(c, ms[e], ms) by {
        ConnectionsExact(ms);
      }
      EmittedByRelated(c, ms, k, e);
    }
  }

  /** An edge that member `e` emits and that starts at member `k` is `k`'s own, so its
      other end is related to `k`. */
  lemma EmittedByRelated(c: Connection, ms: seq<Member>, k: int, e: int)
    requires UniqueIds(ms) && 0 <= k < |ms| && 0 <= e < |ms| && ms[k].id != ""
    requires FindById(ms, ms[k].id) == Some(ms[k])
    requires EmittedBy(c, ms[e], ms) && |c.memberIds| == 2 && c.memberIds[0] == ms[k].id
    ensures c.memberIds[1] in RelatedIds(ms, Some(ms[k].id))
  {
    assert ms[e].id == ms[k].id;
    assert e == k;
  }

  /** With an empty term, a node is highlighted exactly when its id is related. */
  lemma NodeHighlightNoTerm(m: Member, related: set<string>)
    ensures NodeHighlighted(m, related, "") <==> m.id in related
  {
  }

  /** A node highlighted without being related is one that the search term matches,
      and so one the filter keeps. */
  lemma SearchHighlightMatches(m: Member, related: set<string>, term: string)
    requires NodeHighlighted(m, related, term) && m.id !in related
    ensures term != "" && Matches(m, term)
  {
  }
}
