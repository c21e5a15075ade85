/** The member card: its life-span line, the truncated achievement and cultural
    lists, the children-count condition and the hover callbacks. */
module MemberCard {
  import opened Members
  import opened Text
  import opened TreeConnections
  import opened TreeHighlight

  /** JavaScript truthiness of an optional year: absent and 0 are both false. */
  predicate Truthy(year: Option<int>) {
    year.Some? && year.value != 0
  }

  /** The word the card shows for a member who is still living ("today"). */
  const NowWord: string := "כיום"

  /** The life-span line: empty without a (truthy) birth year; otherwise the birth
      year, " - ", and the death year or the word for "present". */
  function LifeSpan(birthYear: Option<int>, deathYear: Option<int>): string {
    if Truthy(birthYear) then
      IntToString(birthYear.value) + (if Truthy(deathYear) then " - " + IntToString(deathYear.value) else " - " + NowWord)
    else ""
  }

  /** The index of the first space of `s`, or its length when it has none. */
  function FirstSpace(s: string): (i: nat)
    ensures i <= |s|
    ensures forall j :: 0 <= j < i ==> s[j] != ' '
    ensures i < |s| ==> s[i] == ' '
  {
    if s == [] then 0 else if s[0] == ' ' then 0 else 1 + FirstSpace(s[1..])
  }

  /** The year a life-span line starts with: the text before its first space. */
  function BirthPart(s: string): string {
    s[..FirstSpace(s)]
  }

  /** What follows the first " - " of a life-span line. */
  function EndPart(s: string): string {
    var i := FirstSpace(s);
    if i + 3 <= |s| then s[i + 3..] else ""
  }

  /** A space-free prefix followed by a space puts the first space right after it. */
  lemma {:induction false} FirstSpaceAfter(a: string, b: string)
    requires forall j :: 0 <= j < |a| ==> a[j] != ' '
    requires |b| > 0 && b[0] == ' '
    ensures FirstSpace(a + b) == |a|
    decreases |a|
  {
    if a != [] {
      assert (a + b)[1..] == a[1..] + b;
      FirstSpaceAfter(a[1..], b);
    }
  }

  /** The line is empty exactly when there is no truthy birth year. */
  lemma LifeSpanEmptyIff(birthYear: Option<int>, deathYear: Option<int>)
    ensures LifeSpan(birthYear, deathYear) == "" <==> !Truthy(birthYear)
  {
    if Truthy(birthYear) {
      assert |IntToString(birthYear.value)| > 0;
    }
  }

  /** A non-empty line reads back: it starts with the decimal text of the birth year,
      and after the " - " comes the decimal text of the death year when there is a
      truthy one, and the word for "present" otherwise. */
  lemma LifeSpanReadsBack(birthYear: Option<int>, deathYear: Option<int>)
    requires Truthy(birthYear)
    ensures var s := LifeSpan(birthYear, deathYear);
      IsPrefix(IntToString(birthYear.value), s) &&
      ParseInt(BirthPart(s)) == birthYear.value &&
      FirstSpace(s) + 3 <= |s| && s[FirstSpace(s)..FirstSpace(s) + 3] == " - " &&
      (Truthy(deathYear) ==> ParseInt(EndPart(s)) == deathYear.value) &&
      (!Truthy(deathYear) ==> EndPart(s) == NowWord)
  {
    var b := IntToString(birthYear.value);
    var rest := if Truthy(deathYear) then IntToString(deathYear.value) else NowWord;
    assert LifeSpan(birthYear, deathYear) == b + (" - " + rest);
    SplitAtFirstSpace(b, " - " + rest);
    assert (" - " + rest)[3..] == rest;
    IntToStringRoundTrip(birthYear.value);
    if Truthy(deathYear) {
      IntToStringRoundTrip(deathYear.value);
    }
  }

  /** A space-free head followed by " - " splits back into the head and what follows
      the separator. */
  lemma SplitAtFirstSpace(head: string, tail: string)
    requires forall j :: 0 <= j < |head| ==> head[j] != ' '
    requires |tail| >= 3 && tail[..3] == " - "
    ensures IsPrefix(head, head + tail)
    ensures FirstSpace(head + tail) == |head| && BirthPart(head + tail) == head
    ensures (head + tail)[|head|..|head| + 3] == " - " && EndPart(head + tail) == tail[3..]
  {
    FirstSpaceAfter(head, tail);
    assert (head + tail)[..|head|] == head;
    assert (head + tail)[|head|..|head| + 3] == tail[..3];
    assert (head + tail)[|head| + 3..] == tail[3..];
  }

  /** `s.slice(0, n)`: the first `n` entries, or all of them when there are fewer. */
  function Take(s: seq<string>, n: nat): (r: seq<string>)
    ensures |r| <= n && |r| <= |s|
    ensures |r| == n || r == s
    ensures r == s[..|r|]
  {
    if |s| <= n then s else s[..n]
  }

  /** The achievements the card lists: at most the first two, in order. */
  function ShownAchievements(m: Member): seq<string> {
    Take(m.achievements, 2)
  }

  /** The cultural tags the card lists: at most the first three, in order. */
  function ShownCultural(m: Member): seq<string> {
    Take(m.cultural, 3)
  }

  /** The children count is shown only for a non-empty children list. */
  predicate ShowsChildrenCount(m: Member) {
    |m.children| > 0
  }

  /** The children count on the card bounds the parent-child lines the tree draws
      from the member: there are never more lines than listed children, exactly as
      many when every child id names a member, and none when the count is hidden. */
  lemma ChildrenCountBoundsLines(m: Member, ms: seq<Member>)
    ensures |ChildEdges(m, m.children, ms)| <= |m.children|
    ensures (forall k :: 0 <= k < |m.children| ==> FindById(ms, m.children[k]).Some?) ==>
      |ChildEdges(m, m.children, ms)| == |m.children|
    ensures !ShowsChildrenCount(m) ==> ChildEdges(m, m.children, ms) == []
  {
    ChildEdgesLength(m, m.children, ms);
  }

  lemma {:induction false} ChildEdgesLength(m: Member, cs: seq<string>, ms: seq<Member>)
    ensures |ChildEdges(m, cs, ms)| <= |cs|
    ensures (forall k :: 0 <= k < |cs| ==> FindById(ms, cs[k]).Some?) ==> |ChildEdges(m, cs, ms)| == |cs|
    decreases |cs|
  {
    if cs != [] {
      ChildEdgesLength(m, cs[..|cs| - 1], ms);
    }
  }

  /** The card lists every achievement when there are at most two, and otherwise
      exactly the first two, in their order. */
  lemma AchievementsShown(m: Member)
    ensures |m.achievements| <= 2 ==> ShownAchievements(m) == m.achievements
    ensures |m.achievements| > 2 ==>
      (|ShownAchievements(m)| == 2 &&
       ShownAchievements(m)[0] == m.achievements[0] && ShownAchievements(m)[1] == m.achievements[1])
  {
  }

  /** The card lists every cultural tag when there are at most three, and otherwise
      exactly the first three, in their order. */
  lemma CulturalShown(m: Member)
    ensures |m.cultural| <= 3 ==> ShownCultural(m) == m.cultural
    ensures |m.cultural| > 3 ==>
      (|ShownCultural(m)| == 3 && forall k :: 0 <= k < 3 ==> ShownCultural(m)[k] == m.cultural[k])
  {
  }

  /** Mouse-enter reports the member's own id. */
  function OnMouseEnter(m: Member): Option<string> {
    Some(m.id)
  }

  /** Mouse-leave reports that nothing is hovered. */
  function OnMouseLeave(): Option<string> {
    None
  }

  /** Entering a card relates at least its own member; leaving it clears the set. */
  lemma HoverCycle(ms: seq<Member>, m: Member)
    requires m.id != ""
    ensures m.id in RelatedIds(ms, OnMouseEnter(m))
    ensures RelatedIds(ms, OnMouseLeave()) == {}
  {
  }
}
