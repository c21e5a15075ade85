/** The first two generations of the bundled sample family, and what the tree
    derives from them: the mutual spouse pair drawn once, the spouse name that
    names nobody, the generation count and a life-span line. */
module SampleFixture {
  import opened Members
  import opened Text
  import opened TreeConnections
  import opened TreeHighlight
  import opened FamilyMuseum
  import opened MemberCard

  const GreatGrandfather: Member := Member(
    "gg1", "משה כהן", Some("משה בן אברהם"), Some(1885), Some(1962), "סבא רבא",
    None, None, Some("רחל כהן"), ["g1", "g2"],
    ["ייסד בית כנסת ברובע היהודי", "חבר מועצת הקהילה", "מורה לתלמוד"],
    ["תלמוד", "קבלה", "חזנות"], 0, Point(300.0, 150.0), [])

  const GreatGrandmother: Member := Member(
    "gg2", "רחל כהן", Some("רחל בת יצחק"), Some(1890), Some(1968), "סבתא רבא",
    None, None, Some("משה כהן"), ["g1", "g2"],
    ["הקימה חדר לבנות", "פעילה בארגון נשים", "ידועה בבישול מסורתי"],
    ["בישול יהודי", "תפילה", "חינוך"], 0, Point(600.0, 150.0), [])

  const Grandfather: Member := Member(
    "g1", "אברהם כהן", Some("אברהם בן משה"), Some(1915), Some(1995), "סבא",
    None, None, Some("שרה כהן"), ["p1", "p2", "p3"],
    ["וותיק מלחמת העצמאות", "בעל עסק מצליח", "פעיל קהילתי"],
    ["ציונות", "עברית", "מסחר"], 1, Point(200.0, 350.0), ["gg1", "gg2"])

  const GreatUncle: Member := Member(
    "g2", "יעקב כהן", Some("יעקב בן משה"), Some(1918), Some(1998), "דוד גדול",
    None, None, Some("מרים כהן"), ["p4"],
    ["רופא מוערך", "חבר הכנסת", "כותב ספרי רפואה"],
    ["רפואה", "מדע", "פוליטיקה"], 1, Point(700.0, 350.0), ["gg1", "gg2"])

  const Grandmother: Member := Member(
    "g3", "שרה כהן", Some("שרה בת דוד"), Some(1920), Some(2000), "סבתא",
    None, None, Some("אברהם כהן"), ["p1", "p2", "p3"],
    ["מורה לעברית", "מתנדבת בבית חולים", "משוררת מקומית"],
    ["שירה", "חינוך", "התנדבות"], 1, Point(450.0, 350.0), [])

  const Sample: seq<Member> := [GreatGrandfather, GreatGrandmother, Grandfather, GreatUncle, Grandmother]

  /** The two great-grandparents name each other as spouses, and the line between
      them is drawn once. */
  lemma SampleSpousesDrawnOnce()
    ensures Count(ConnectionsOf(Sample), SpouseBetween("gg1", "gg2")) == 1
  {
    assert MutualPair(Sample, 0, 1);
    MutualSpousesOneEdge(Sample, 0, 1);
  }

  /** The connections of the sample, in order: the great-grandfather's two child
      lines and his spouse line, the great-grandmother's two child lines, and the
      grandfather's spouse line; the grandchildren are not in the sample, and the
      great-uncle's spouse names nobody in it. */
  lemma SampleConnections()
    ensures ConnectionsOf(Sample) == [
      Connection(Point(300.0, 150.0), Point(200.0, 350.0), ParentChild, ["gg1", "g1"]),
      Connection(Point(300.0, 150.0), Point(700.0, 350.0), ParentChild, ["gg1", "g2"]),
      Connection(Point(300.0, 150.0), Point(600.0, 150.0), Spouse, ["gg1", "gg2"]),
      Connection(Point(600.0, 150.0), Point(200.0, 350.0), ParentChild, ["gg2", "g1"]),
      Connection(Point(600.0, 150.0), Point(700.0, 350.0), ParentChild, ["gg2", "g2"]),
      Connection(Point(200.0, 350.0), Point(450.0, 350.0), Spouse, ["g1", "g3"])]
  {
    GreatGrandfatherEdges();
    GreatGrandmotherEdges();
    GrandparentEdges();
    FiveMembersEdges(Sample, Sample);
    assert Sample[0] == GreatGrandfather && Sample[1] == GreatGrandmother && Sample[2] == Grandfather;
    assert Sample[3] == GreatUncle && Sample[4] == Grandmother;
    assert ConnectionsOf(Sample) == MemberEdges(GreatGrandfather, Sample) + MemberEdges(GreatGrandmother, Sample) +
      MemberEdges(Grandfather, Sample) + MemberEdges(GreatUncle, Sample) + MemberEdges(Grandmother, Sample);
    Concat(
      Connection(Point(300.0, 150.0), Point(200.0, 350.0), ParentChild, ["gg1", "g1"]),
      Connection(Point(300.0, 150.0), Point(700.0, 350.0), ParentChild, ["gg1", "g2"]),
      Connection(Point(300.0, 150.0), Point(600.0, 150.0), Spouse, ["gg1", "gg2"]),
      Connection(Point(600.0, 150.0), Point(200.0, 350.0), ParentChild, ["gg2", "g1"]),
      Connection(Point(600.0, 150.0), Point(700.0, 350.0), ParentChild, ["gg2", "g2"]),
      Connection(Point(200.0, 350.0), Point(450.0, 350.0), Spouse, ["g1", "g3"]));
  }

  lemma Concat(a: Connection, b: Connection, c: Connection, d: Connection, e: Connection, f: Connection)
    ensures [a, b, c] + [d, e] + [f] + [] + [] == [a, b, c, d, e, f]
  {
  }

  /** The edges of five members are theirs in member order. */
  lemma FiveMembersEdges(ps: seq<Member>, ms: seq<Member>)
    requires |ps| == 5
    ensures EdgesOf(ps, ms) == MemberEdges(ps[0], ms) + MemberEdges(ps[1], ms) +
      MemberEdges(ps[2], ms) + MemberEdges(ps[3], ms) + MemberEdges(ps[4], ms)
  {
    var e0, e1, e2, e3, e4 := MemberEdges(ps[0], ms), MemberEdges(ps[1], ms),
      MemberEdges(ps[2], ms), MemberEdges(ps[3], ms), MemberEdges(ps[4], ms);
    assert EdgesOf(ps[..1], ms) == e0 by {
      EdgesStep(ps, 0, ms);
      assert ps[..0] == [];
    }
    assert EdgesOf(ps[..2], ms) == e0 + e1 by {
      EdgesStep(ps, 1, ms);
    }
    assert EdgesOf(ps[..3], ms) == e0 + e1 + e2 by {
      EdgesStep(ps, 2, ms);
    }
    assert EdgesOf(ps[..4], ms) == e0 + e1 + e2 + e3 by {
      EdgesStep(ps, 3, ms);
    }
    EdgesStep(ps, 4, ms);
    assert ps[..5] == ps;
  }

  /** The great-grandfather draws a line to both children and, his id sorting
      first, the spouse line. */
  lemma GreatGrandfatherEdges()
    ensures MemberEdges(GreatGrandfather, Sample) == [
      Connection(Point(300.0, 150.0), Point(200.0, 350.0), ParentChild, ["gg1", "g1"]),
      Connection(Point(300.0, 150.0), Point(700.0, 350.0), ParentChild, ["gg1", "g2"]),
      Connection(Point(300.0, 150.0), Point(600.0, 150.0), Spouse, ["gg1", "gg2"])]
  {
    assert ChildEdges(GreatGrandfather, ["g1", "g2"], Sample) == [
      Connection(Point(300.0, 150.0), Point(200.0, 350.0), ParentChild, ["gg1", "g1"]),
      Connection(Point(300.0, 150.0), Point(700.0, 350.0), ParentChild, ["gg1", "g2"])] by {
      ChildrenFound();
      TwoChildEdges(GreatGrandfather, "g1", "g2", Sample, Grandfather, GreatUncle);
    }
    assert SpouseEdges(GreatGrandfather, Sample) == [
      Connection(Point(300.0, 150.0), Point(600.0, 150.0), Spouse, ["gg1", "gg2"])] by {
      SpousesFound();
      SpouseEdgeTo(GreatGrandfather, Sample, GreatGrandmother);
      assert StrLess("gg1", "gg2");
    }
  }

  /** The great-grandmother draws a line to both children, and no spouse line: her
      id sorts second. */
  lemma GreatGrandmotherEdges()
    ensures MemberEdges(GreatGrandmother, Sample) == [
      Connection(Point(600.0, 150.0), Point(200.0, 350.0), ParentChild, ["gg2", "g1"]),
      Connection(Point(600.0, 150.0), Point(700.0, 350.0), ParentChild, ["gg2", "g2"])]
  {
    assert ChildEdges(GreatGrandmother, ["g1", "g2"], Sample) == [
      Connection(Point(600.0, 150.0), Point(200.0, 350.0), ParentChild, ["gg2", "g1"]),
      Connection(Point(600.0, 150.0), Point(700.0, 350.0), ParentChild, ["gg2", "g2"])] by {
      ChildrenFound();
      TwoChildEdges(GreatGrandmother, "g1", "g2", Sample, Grandfather, GreatUncle);
    }
    assert SpouseEdges(GreatGrandmother, Sample) == [] by {
      SpousesFound();
      SpouseEdgeTo(GreatGrandmother, Sample, GreatGrandfather);
      assert !StrLess("gg2", "gg1");
    }
  }

  /** Of the grandparents only the grandfather draws a line: to the grandmother. */
  lemma GrandparentEdges()
    ensures MemberEdges(Grandfather, Sample) == [
      Connection(Point(200.0, 350.0), Point(450.0, 350.0), Spouse, ["g1", "g3"])]
    ensures MemberEdges(GreatUncle, Sample) == []
    ensures MemberEdges(Grandmother, Sample) == []
  {
    assert MemberEdges(Grandfather, Sample) == [
      Connection(Point(200.0, 350.0), Point(450.0, 350.0), Spouse, ["g1", "g3"])] by {
      GrandchildrenAbsent();
      SpousesFound();
      AbsentChildren(Grandfather, "p1", "p2", "p3", Sample);
      SpouseEdgeTo(Grandfather, Sample, Grandmother);
      assert StrLess("g1", "g3");
    }
    assert MemberEdges(GreatUncle, Sample) == [] by {
      GrandchildrenAbsent();
      GreatUncleSpouseAbsent();
      AbsentChildren(GreatUncle, "p4", "p2", "p3", Sample);
    }
    assert MemberEdges(Grandmother, Sample) == [] by {
      GrandchildrenAbsent();
      SpousesFound();
      AbsentChildren(Grandmother, "p1", "p2", "p3", Sample);
      SpouseEdgeTo(Grandmother, Sample, Grandfather);
      assert !StrLess("g3", "g1");
    }
  }

  /** Two child ids that both name members give two lines, in their order. */
  lemma TwoChildEdges(p: Member, a: string, b: string, ms: seq<Member>, ca: Member, cb: Member)
    requires FindById(ms, a) == Some(ca) && FindById(ms, b) == Some(cb)
    ensures ChildEdges(p, [a, b], ms) ==
      [Connection(p.position, ca.position, ParentChild, [p.id, ca.id]),
       Connection(p.position, cb.position, ParentChild, [p.id, cb.id])]
  {
    assert [a, b][..1] == [a];
    assert [a][..0] == [];
    assert ChildEdges(p, [a], ms) == ChildEdge(p, a, ms);
  }

  /** Child ids that name nobody give no lines. */
  lemma AbsentChildren(p: Member, a: string, b: string, c: string, ms: seq<Member>)
    requires FindById(ms, a) == None && FindById(ms, b) == None && FindById(ms, c) == None
    ensures ChildEdges(p, [a], ms) == [] && ChildEdges(p, [a, b, c], ms) == []
  {
    assert [a, b, c][..2] == [a, b];
    assert [a, b][..1] == [a];
    assert [a][..0] == [];
  }

  /** A spouse field naming `s` gives the line to `s` exactly when the id sorts first. */
  lemma SpouseEdgeTo(m: Member, ms: seq<Member>, s: Member)
    requires Present(m.spouse) && FindByName(ms, m.spouse.value) == Some(s)
    ensures SpouseEdges(m, ms) == if StrLess(m.id, s.id) then [Connection(m.position, s.position, Spouse, [m.id, s.id])] else []
  {
  }

  /** The ids of the next generation are not in the sample. */
  lemma GrandchildrenAbsent()
    ensures FindById(Sample, "p1") == None && FindById(Sample, "p2") == None
    ensures FindById(Sample, "p3") == None && FindById(Sample, "p4") == None
  {
  }

  /** The great-uncle's spouse names nobody in the sample. */
  lemma GreatUncleSpouseAbsent()
    ensures FindByName(Sample, "מרים כהן") == None
  {
  }

  lemma ChildrenFound()
    ensures FindById(Sample, "g1") == Some(Grandfather) && FindById(Sample, "g2") == Some(GreatUncle)
  {
    assert FindById(Sample, "g1") == Some(Grandfather) by {
      assert FindById(Sample, "g1") == FindById(Sample[1..], "g1") == FindById(Sample[2..], "g1");
      assert Sample[2..][0] == Grandfather;
    }
    assert FindById(Sample, "g2") == FindById(Sample[1..], "g2") == FindById(Sample[2..], "g2");
    assert FindById(Sample[2..], "g2") == FindById(Sample[3..], "g2");
    assert Sample[3..][0] == GreatUncle;
  }

  lemma SpousesFound()
    ensures FindByName(Sample, "משה כהן") == Some(GreatGrandfather)
    ensures FindByName(Sample, "רחל כהן") == Some(GreatGrandmother)
    ensures FindByName(Sample, "שרה כהן") == Some(Grandmother)
    ensures FindByName(Sample, "אברהם כהן") == Some(Grandfather)
  {
    assert FindByName(Sample, "רחל כהן") == Some(GreatGrandmother) by {
      assert FindByName(Sample, "רחל כהן") == FindByName(Sample[1..], "רחל כהן");
      assert Sample[1..][0] == GreatGrandmother;
    }
    assert FindByName(Sample, "שרה כהן") == Some(Grandmother) by {
      assert FindByName(Sample, "שרה כהן") == FindByName(Sample[1..], "שרה כהן") == FindByName(Sample[2..], "שרה כהן");
      assert FindByName(Sample[2..], "שרה כהן") == FindByName(Sample[3..], "שרה כהן") == FindByName(Sample[4..], "שרה כהן");
      assert Sample[4..][0] == Grandmother;
    }
    assert FindByName(Sample, "אברהם כהן") == FindByName(Sample[1..], "אברהם כהן") == FindByName(Sample[2..], "אברהם כהן");
    assert Sample[2..][0] == Grandfather;
  }

  /** Hovering the great-uncle relates himself, his child, his parents and no spouse. */
  lemma SampleHoverGreatUncle()
    ensures RelatedIds(Sample, Some("g2")) == {"g2", "p4", "gg1", "gg2"}
  {
    assert SpouseIdOf(GreatUncle, Sample) == {} by {
      GreatUncleSpouseAbsent();
    }
    assert Elements(GreatUncle.children) == {"p4"};
    assert Elements(GreatUncle.parentIds) == {"gg1", "gg2"};
    ChildrenFound();
    RelatedOfFound(Sample, "g2", GreatUncle);
    SetUnion("g2", "p4", "gg1", "gg2");
  }

  lemma SetUnion(a: string, b: string, c: string, d: string)
    ensures {a} + {b} + {c, d} + {} == {a, b, c, d}
  {
  }

  /** The related ids of an id that names member `m`. */
  lemma RelatedOfFound(ms: seq<Member>, h: string, m: Member)
    requires h != "" && FindById(ms, h) == Some(m)
    ensures RelatedIds(ms, Some(h)) == {h} + Elements(m.children) + Elements(m.parentIds) + SpouseIdOf(m, ms)
  {
  }

  /** The sample spans two generations. */
  lemma SampleGenerationCount()
    ensures GenerationCount(Sample) == 2
  {
    assert GenerationSet(Sample) == {0, 1} by {
      assert Sample[0].generation == 0 && Sample[2].generation == 1;
    }
  }

  /** The great-grandfather's card reads "1885 - 1962". */
  lemma SampleLifeSpan()
    ensures LifeSpan(GreatGrandfather.birthYear, GreatGrandfather.deathYear) == "1885 - 1962"
  {
  }
}
