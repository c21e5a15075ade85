# Family museum tree — a Dafny model

The family museum is a single-page React application. It shows a family tree in
Hebrew: one card per family member, arranged in rows by generation, joined by
parent-child and spouse lines. Hovering a card highlights the member's relatives.
A search box filters the tree, and the page header reports how many members matched.

This project models the logic behind that page, together with proofs about it:

- **Layout.** Members are grouped by generation in first-seen order. The generation
  keys are sorted, and each member is placed on its generation's row: rows are 200
  apart starting at 150, slots are 280 wide, and each row is centred in the tree's
  width.
- **Connections.** Each child id that names a positioned member gives one
  parent-child line. A spouse name that finds a member gives one spouse line, but
  only when the member's id sorts below the spouse's id. This is how the tree avoids
  drawing duplicate spouse lines.
- **Search.** The tree and the page share one search predicate.
- **Highlighted ids.** Hovering a member relates the hovered id, the member's child
  and parent ids, and its spouse's id. The model states which connections and nodes
  this highlights.
- **View size.** On a resize the tree takes the window size less a margin, clamped
  to a minimum.
- **Generation labels** and the **"no results" state**.
- **The page.** Its search results, the header's generation count, the members it
  hands to the tree, the "searching" indicator, and the two floating messages.
- **The member card.** The life-span line, the truncated achievement and cultural
  lists, the children count, and the hover callbacks.
- **One connection's drawing.** The style table, the three strokes of an L-shaped
  parent-child line, the thickness of a straight line, and the decoration at the
  midpoint.

## Modelling choices

- Coordinates are `real`. Every value the layout produces is an integer or a half
  integer, so the model's arithmetic is exact, as the browser's doubles are.
- Optional list fields (children, parent ids, achievements, cultural tags) are
  sequences, with an absent list written `[]`. Every use in the source treats an
  absent list and an empty one alike.
- Optional strings and years are `Option`s. JavaScript truthiness is written out:
  `Present` means a non-empty string, and `MemberCard.Truthy` means a non-zero year.
- Two JavaScript behaviours are modelled only in part:
  - `toLowerCase` is modelled on ASCII letters only.
  - String `<` compares code points; JavaScript compares UTF-16 units.
- The `Map` of generation buckets is a map plus its key insertion order.
- Loops that push onto arrays are methods. Each one is proved equal to a
  specification function: `Layout`, `GroupByGeneration`, `PushRow`, `Connect`,
  `PushChildEdges`, `PushSpouseEdge`, `CollectRelated` and `AddAll`.
- Clocks and timers become explicit state: the pending search timer is a field of
  `FamilyMuseum.SearchIndicator`, and its firing is the method `TimerFires`.
- The page's own filter repeats the tree's filter predicate character for character,
  so the model defines it once: `FamilyMuseum.SearchResults` is `TreeSearch.Filter`
  over the whole data set.
- `sample_fixture.dfy` holds the first two generations of the bundled sample data
  and what the model derives from them. Its connections are computed over the
  members with the data's own positions, not over the positions the layout assigns,
  so their endpoints are not the ones the tree draws. Their ids, kinds and order do
  not depend on positions. The fixture leaves out the lower generations.

## Model

| member | source | states |
|---|---|---|
| TreeLayout.GroupByGeneration | src/components/InteractiveFamilyTree.tsx:49-55 | the map's keys, in insertion order, are the distinct generations in order of first occurrence, and each key's bucket is exactly the members of that generation in input order |
| TreeLayout.PushRow | src/components/InteractiveFamilyTree.tsx:69-78 | appends the bucket's members, in order, each with its row's y and its slot's centred x |
| TreeLayout.Layout | src/components/InteractiveFamilyTree.tsx:39-79 | the positioned members are the rows of the generations in ascending key order, measured from the least generation |
| TreeLayout.SortAscending | src/components/InteractiveFamilyTree.tsx:66-67 | the sorted keys are a permutation of the keys, in ascending order |
| TreeLayout.SeqMin | src/components/InteractiveFamilyTree.tsx:61 | the minimum of a non-empty list is one of its elements and no larger than any of them |
| TreeLayout.LayoutIsPermutation | src/components/InteractiveFamilyTree.tsx:63-79 | the layout neither loses, adds nor duplicates a member: once positions are ignored it is a permutation of the input |
| TreeLayout.LayoutSortedByGeneration | src/components/InteractiveFamilyTree.tsx:66-68 | members come out in ascending generation order |
| TreeLayout.LayoutKeepsOrderWithinGeneration | src/components/InteractiveFamilyTree.tsx:49-55 | within each generation the members keep their input order |
| TreeLayout.LayoutRow | src/components/InteractiveFamilyTree.tsx:68-78 | the members of generation g in the layout are exactly g's bucket, placed on g's row |
| TreeLayout.RowSpacing | src/components/InteractiveFamilyTree.tsx:69-73 | all members of a row share the row's y; neighbouring slots are exactly 280 apart, so no two members of a row share an x |
| TreeLayout.RowCentred | src/components/InteractiveFamilyTree.tsx:70-73 | the mean x of a row is half the tree's width |
| TreeLayout.LayoutHeights | src/components/InteractiveFamilyTree.tsx:69 | each member's y is 200 per generation above the least, plus 150, and never less than 150 |
| TreeLayout.LayoutFromInput | src/components/InteractiveFamilyTree.tsx:74-77 | every positioned member is an input member with only its position replaced |
| TreeLayout.LayoutCoversInput | src/components/InteractiveFamilyTree.tsx:72-77 | every input member has a positioned copy |
| TreeLayout.LayoutGenerations | src/components/InteractiveFamilyTree.tsx:66-79 | the positioned members have exactly the input's generations |
| Members.DistinctGenerationsCount | src/components/InteractiveFamilyTree.tsx:51-53 | the key list holds each generation of the members exactly once |
| Members.BucketMembers | src/components/InteractiveFamilyTree.tsx:54 | a bucket holds members of its generation only, each as many times as in the input |
| TreeConnections.FindFirst | src/components/InteractiveFamilyTree.tsx:86 | the lookup by id (line 86) and by name (lines 100 and 152): finds nothing exactly when no member's field equals the value; otherwise the first member whose field does |
| TreeConnections.PushChildEdges | src/components/InteractiveFamilyTree.tsx:84-96 | appends one parent-child connection per child id that finds a positioned member, in children order |
| TreeConnections.PushSpouseEdge | src/components/InteractiveFamilyTree.tsx:99-109 | appends the member's spouse connection exactly when its spouse name finds a member whose id sorts after its own, and nothing otherwise |
| TreeConnections.Connect | src/components/InteractiveFamilyTree.tsx:82-110 | the connection list is, member by member, the child edges and then the spouse edge |
| TreeConnections.ConnectionsExact | src/components/InteractiveFamilyTree.tsx:82-110 | a connection is produced if and only if some member emits it, as a child edge to a found child or as a spouse edge to a found spouse with a larger id |
| TreeConnections.ConnectionShapes | src/components/InteractiveFamilyTree.tsx:88-107 | no sibling connection is ever produced; every connection joins two ids; a spouse connection's ids strictly ascend, so it never joins a member to itself |
| TreeConnections.ParentChildConnections | src/components/InteractiveFamilyTree.tsx:84-96 | the id pairs of the parent-child connections are, in order, the pairs (member, child id) whose child id names a member |
| TreeConnections.AtMostOneSpouseEdge | src/components/InteractiveFamilyTree.tsx:99-109 | with unique ids, at most one spouse connection starts at any id |
| TreeConnections.SpouseEdgesPerMember | src/components/InteractiveFamilyTree.tsx:99-109 | with unique ids, at most one spouse connection starts at an id, and none starts at an id no member has |
| TreeConnections.MutualSpousesOneEdge | src/components/InteractiveFamilyTree.tsx:101 | two members that name each other as spouses, with names nobody else has, are joined by exactly one spouse line |
| TreeSearch.Select | src/components/InteractiveFamilyTree.tsx:119-129 | the filter keeps no more members than it is given, and only matching ones |
| TreeSearch.SelectCounts | src/components/InteractiveFamilyTree.tsx:119-129 | every matching member is kept as many times as it occurs, every other member is dropped |
| TreeSearch.SelectMembers | src/components/InteractiveFamilyTree.tsx:119-129 | a member is kept if and only if it is given and matches |
| TreeSearch.SelectIsSubsequence | src/components/InteractiveFamilyTree.tsx:119 | the kept members keep their relative order |
| TreeSearch.SelectAllMatching | src/components/InteractiveFamilyTree.tsx:119-129 | when every member matches, nothing is dropped |
| TreeSearch.FilterIdempotent | src/components/InteractiveFamilyTree.tsx:116-130 | filtering twice by the same term is filtering once |
| TreeSearch.FilterEmptyTerm | src/components/InteractiveFamilyTree.tsx:117 | an empty term keeps every member |
| TreeSearch.MatchesIgnoresPosition | src/components/InteractiveFamilyTree.tsx:119-129 | matching never looks at a member's position |
| Text.Lower | src/components/InteractiveFamilyTree.tsx:120 | lower-casing keeps the length, lowers each ASCII capital and leaves every other character alone |
| Text.LowerIdempotent | src/components/InteractiveFamilyTree.tsx:120 | lowering twice is lowering once |
| Text.ContainsIffOccurs | src/components/InteractiveFamilyTree.tsx:120-127 | `includes` holds exactly when the term occurs at some index |
| Text.ContainsEmpty | src/components/InteractiveFamilyTree.tsx:120-127 | every string includes the empty term |
| Text.StrLessIrreflexive | src/components/InteractiveFamilyTree.tsx:101 | no id sorts below itself |
| Text.StrLessAsymmetric | src/components/InteractiveFamilyTree.tsx:101 | of two ids at most one sorts below the other |
| Text.StrLessTotal | src/components/InteractiveFamilyTree.tsx:101 | of two different ids exactly one sorts below the other |
| Text.IntToString | src/components/FamilyMemberCard.tsx:44 | a number's decimal text is non-empty, has no space, and starts with '-' exactly for negative numbers |
| Text.IntToStringRoundTrip | src/components/FamilyMemberCard.tsx:44 | reading a number's decimal text back gives the number |
| TreeHighlight.AddAll | src/components/InteractiveFamilyTree.tsx:142 | the set grows by exactly the given ids |
| TreeHighlight.CollectRelated | src/components/InteractiveFamilyTree.tsx:133-158 | the memo's set equals the related-ids specification |
| TreeHighlight.NothingHovered | src/components/InteractiveFamilyTree.tsx:134 | with nothing hovered the set is empty, and no connection is highlighted |
| TreeHighlight.HoveredIsRelated | src/components/InteractiveFamilyTree.tsx:136-139 | the hovered id is always in the set, and is all of it when no member has that id |
| TreeHighlight.RelatedOfMember | src/components/InteractiveFamilyTree.tsx:136-155 | for a hovered member (the first with its id), an id is related exactly when it is the member's own id, one of its child or parent ids, or the id of the first member its spouse field names |
| TreeHighlight.IncidentConnectionsHighlighted | src/components/InteractiveFamilyTree.tsx:224-226 | every connection touching the hovered id is highlighted |
| TreeHighlight.EmittedEdgesFullyRelated | src/components/InteractiveFamilyTree.tsx:133-158 | with unique ids, both ids of every connection that starts at the hovered member's id are related ids |
| TreeHighlight.NodeHighlightNoTerm | src/components/InteractiveFamilyTree.tsx:245-251 | with an empty term a node is highlighted exactly when its id is related |
| TreeHighlight.SearchHighlightMatches | src/components/InteractiveFamilyTree.tsx:245-251 | a node highlighted without being related is one the term matches, so one the filter keeps |
| TreeView.Resize | src/components/InteractiveFamilyTree.tsx:162-165 | the tree's size is at least 1200 by 800, at least the window less 100 by 200, and equal to one of the two in each dimension |
| TreeView.ResizeKeepsInitial | src/components/InteractiveFamilyTree.tsx:36 | a resize leaves the initial 1200 by 800 exactly when the window is at most 1300 by 1000 |
| TreeView.ResizeMonotone | src/components/InteractiveFamilyTree.tsx:162-165 | a larger window never gives a smaller tree, in either dimension |
| TreeView.Generations | src/components/InteractiveFamilyTree.tsx:260 | the generation list reads off each member's generation, in order |
| TreeView.LabelsPerGeneration | src/components/InteractiveFamilyTree.tsx:259-273 | there is one label per distinct generation, in strictly ascending order, and no other |
| TreeView.LabelNumber | src/components/InteractiveFamilyTree.tsx:270 | a label reads "דור " followed by the one-based generation number |
| TreeView.LabelAboveRow | src/components/InteractiveFamilyTree.tsx:267 | each label's computed `top` is 50 less than the y of its generation's row |
| TreeView.NoResultsIff | src/components/InteractiveFamilyTree.tsx:181 | the "no results" state shows exactly when the term is not empty and no member given to the tree matches it |
| FamilyMuseum.SearchResults | src/pages/FamilyMuseum.tsx:72-84 | the results are all members for an empty term; otherwise only matching members, never more than there are |
| FamilyMuseum.TreeMembersAreResults | src/pages/FamilyMuseum.tsx:117 | the members handed to the tree are always the search results |
| FamilyMuseum.ResultCountBounded | src/pages/FamilyMuseum.tsx:97 | the reported result count never exceeds the member count |
| FamilyMuseum.GenerationCountBounds | src/pages/FamilyMuseum.tsx:86 | the generation count is the number of distinct generations: at most the number of members, and zero exactly when there are none |
| FamilyMuseum.MessagesExclusive | src/pages/FamilyMuseum.tsx:124-141 | the "no results" alert and the "found" banner never show together |
| FamilyMuseum.TreeRefilterUnchanged | src/pages/FamilyMuseum.tsx:116-120 | the tree's own filter keeps every member the page hands it |
| FamilyMuseum.TreeEmptyStateAgrees | src/pages/FamilyMuseum.tsx:116-124 | with a term, the tree shows "no results" exactly when the page found nothing |
| FamilyMuseum.SearchIndicator.constructor | src/pages/FamilyMuseum.tsx:9-10 | the page starts with an empty term, an idle indicator and no timer |
| FamilyMuseum.SearchIndicator.ChangeTerm | src/pages/FamilyMuseum.tsx:39-51 | a new non-empty term turns the indicator on and schedules the timer; an empty one turns it off and cancels the timer; setting the same term again changes nothing |
| FamilyMuseum.SearchIndicator.TimerFires | src/pages/FamilyMuseum.tsx:46-48 | the timer turns the indicator off and leaves the term alone |
| MemberCard.LifeSpanEmptyIff | src/components/FamilyMemberCard.tsx:43-45 | the life-span line is empty exactly when there is no truthy birth year |
| MemberCard.LifeSpanReadsBack | src/components/FamilyMemberCard.tsx:43-45 | a non-empty line reads back as the birth year, " - ", and then the death year or the word for "present" |
| MemberCard.Take | src/components/FamilyMemberCard.tsx:140 | a slice is a prefix of the list, of the requested length or the whole list |
| MemberCard.AchievementsShown | src/components/FamilyMemberCard.tsx:133-146 | the card lists every achievement when there are at most two, otherwise exactly the first two in order |
| MemberCard.CulturalShown | src/components/FamilyMemberCard.tsx:152-163 | the card lists every cultural tag when there are at most three, otherwise exactly the first three in order |
| MemberCard.ChildrenCountBoundsLines | src/components/FamilyMemberCard.tsx:125-130 | the children count the card shows bounds the parent-child lines the tree draws from the member: never more, exactly as many when every child id names a member, and none when the count is hidden |
| MemberCard.HoverCycle | src/components/FamilyMemberCard.tsx:52-53 | entering a card relates at least its own member; leaving it clears the highlighted set |
| ConnectionView.HighlightStandsOut | src/components/FamilyTreeConnection.tsx:24-45 | for every type, highlighting raises the opacity, adds a glow and keeps the colour, with opacities within (0, 1] |
| ConnectionView.VerticalStrokes | src/components/FamilyTreeConnection.tsx:59-97 | the turn is half way down; the two vertical strokes are equally tall, together span the vertical distance, start at the parent and at the turn, and are centred on their x |
| ConnectionView.HorizontalStroke | src/components/FamilyTreeConnection.tsx:76-85 | the horizontal stroke spans exactly from the smaller x to the larger, centred on the turn |
| ConnectionView.RenderedStrokes | src/components/FamilyTreeConnection.tsx:57-115 | a line is L-shaped exactly for parent-child, with three strokes 2 wide; the others are one straight line starting at the first member's point, 3 thick exactly for spouses and 2 exactly for siblings, so a spouse line is thicker than any other straight line |
| ConnectionView.DecorationPlacement | src/components/FamilyTreeConnection.tsx:123-147 | only spouse lines get the dot, centred on the midpoint; only parent-child lines get the arrow |
| ConnectionView.TreeConnectionsDecorated | src/components/FamilyTreeConnection.tsx:102-147 | every connection the tree produces gets one decoration, and every spouse connection is a straight line 3 thick |
| SampleFixture.SampleConnections | src/data/familyData.ts:20-117 | with the data's own positions, the first two generations give exactly six connections: both great-grandparents' child lines, one great-grandparents' spouse line, and the grandparents' spouse line |
| SampleFixture.SampleSpousesDrawnOnce | src/data/familyData.ts:21-58 | the mutual great-grandparents are joined by exactly one spouse line |
| SampleFixture.SampleHoverGreatUncle | src/data/familyData.ts:80-98 | a member whose spouse field names nobody relates only himself, his child and his parents |
| SampleFixture.SampleGenerationCount | src/data/familyData.ts:20-117 | the first two generations count as two |
| SampleFixture.SampleLifeSpan | src/data/familyData.ts:25-26 | the first great-grandfather's card reads "1885 - 1962" |

## Left out

- Rendering is not modelled: JSX markup, CSS classes, animations and the background
  ornaments. Only the values the components compute for it are modelled.
- The resize listener's registration and removal are not modelled. The window's
  inner size is an argument of `TreeView.Resize`.
- The initial loading delay, the welcome toast and message, and the `isLoading`
  spinner are not modelled. They are driven by timers and hold no logic beyond
  showing or hiding.
- The auto-save simulation (`isSaving`, `lastSaved`) is not modelled. It is timers
  and the clock only.
- `highlightText` is not modelled. It builds a regular expression from the raw term
  and injects HTML, and no regular-expression engine is modelled.
- `Math.sqrt` and `Math.atan2` are not modelled, so neither are the length and angle
  of a straight line. They are floating-point functions.
- Floating point in general: coordinates are exact reals.
- `TreeSearch.Matches` lowers ASCII letters only. It does not model
  `toLowerCase` on other letters, because Unicode case tables are not modelled.
  Hebrew letters have no case, so the sample data is unaffected.
- `Text.StrLess` orders strings by code point. JavaScript orders them by UTF-16
  unit. The two agree on every character below U+10000.
- `Text.IntToString` does not model JavaScript's exponent notation from 10^21 on,
  nor NaN or fractional years. Years in the data are small whole numbers.
- The card's photo and its image-loading state are not modelled, and neither are the
  spouse line and role badge it shows as given. These are display only.
- The generation labels' `top` style is computed, but the label has no positioning
  class, so the browser ignores it and stacks the labels by spacing instead. The
  model states the computed value only.
- `maxGeneration` is not modelled: it is computed but never read.
- `Math.min` over no generations would give Infinity, but no row or label reads it
  then. The model uses 0 for that case.
- `getConnectionStyle`'s `default` branch is not modelled. The type is one of three
  literals, so that branch cannot be reached.
- The tree node component, the header component and the feedback components are not
  part of this model. Only the values the core passes to them are modelled.
- The model assumes no concurrency: each React render is one evaluation of the
  functions over one state.
