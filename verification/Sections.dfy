/** Result sections (public/static/src/script.js): the section key
    (`getSectionKey`), section membership and member order
    (`createSectionContent`), the rarity flags (`createSection`), the hide
    rule (`updateVisibility`) and the section comparator (`compareSections`). */
module Sections {
  import opened Sequences
  import opened Ordering
  import opened Maybe

  /** A recruitable operator as cached by id in `cachedOperators`. */
  datatype Operator = Operator(id: string, name: string, rarity: int, tags: seq<int>)

  /** The argument of `createSection`: the title (the tag name of a single
      tag, the sorted tag names of a combination), the tag ids a member must
      carry, and whether rarity-6 operators may appear. */
  datatype SectionSpec = SectionSpec(title: seq<string>, tagIds: seq<int>, allowRarity6: bool)

  /** A rendered section: its `data-section-key`, its title and tag ids and
      its members in display order. The two rarity flags `createSection`
      stores on the element are functions of the members (`RarityCommon`,
      `OnlyRarityRobot`), which never change once the section exists. */
  datatype Section = Section(key: string, title: seq<string>, tagIds: seq<int>, members: seq<Operator>)

  // Section keys

  /** `parts.join('-')`. */
  function Join(parts: seq<string>): string {
    if |parts| == 0 then ""
    else if |parts| == 1 then parts[0]
    else parts[0] + "-" + Join(parts[1..])
  }

  /** `getSectionKey(names)`: the names sorted by code point, joined by `-`. */
  function Key(names: seq<string>): string {
    Join(SortBy(LexLe, names))
  }

  /** The key of a one-name title is the name itself, which is also what
      `getSectionKey` returns for a scalar. */
  lemma KeyOfSingle(name: string)
    ensures Key([name]) == name
  {
  }

  /** Any ordering of the same names gives the same key. */
  lemma KeyPermutationInvariant(a: seq<string>, b: seq<string>)
    requires multiset(a) == multiset(b)
    ensures Key(a) == Key(b)
  {
    LexLeIsTotalOrder();
    SortByPermutationInvariant(LexLe, a, b);
  }

  /** A title that is already sorted is its own key's list of parts. */
  lemma KeyOfSorted(names: seq<string>)
    requires SortedBy(LexLe, names)
    ensures Key(names) == Join(names)
  {
    SortByOfSorted(LexLe, names);
  }

  predicate DashFree(parts: seq<string>) {
    forall i :: 0 <= i < |parts| ==> '-' !in parts[i]
  }

  /** The first dash of a join of several names ends its first name. */
  lemma JoinHead(parts: seq<string>)
    requires |parts| >= 2 && DashFree(parts)
    ensures |parts[0]| < |Join(parts)| && Join(parts)[|parts[0]|] == '-'
    ensures Join(parts)[..|parts[0]|] == parts[0]
    ensures forall i :: 0 <= i < |parts[0]| ==> Join(parts)[i] != '-'
  {
    assert forall i :: 0 <= i < |parts[0]| ==> Join(parts)[i] == parts[0][i];
  }

  lemma {:induction false} JoinNoDash(parts: seq<string>)
    requires DashFree(parts) && |parts| <= 1
    ensures '-' !in Join(parts)
  {
    if |parts| == 1 {
      assert '-' !in parts[0];
    }
  }

  /** Joining names that contain no dash loses nothing: a non-empty list of
      such names is determined by its join. */
  lemma {:induction false} JoinInjective(a: seq<string>, b: seq<string>)
    requires |a| > 0 && |b| > 0 && DashFree(a) && DashFree(b)
    requires Join(a) == Join(b)
    ensures a == b
    decreases |a|
  {
    if |a| == 1 && |b| == 1 {
    } else if |a| == 1 {
      JoinNoDash(a);
      JoinHead(b);
    } else if |b| == 1 {
      JoinNoDash(b);
      JoinHead(a);
    } else {
      JoinHead(a);
      JoinHead(b);
      var j := Join(a);
      assert a[0] == b[0];
      assert Join(a[1..]) == j[|a[0]| + 1..];
      assert DashFree(a[1..]) && DashFree(b[1..]);
      JoinInjective(a[1..], b[1..]);
      assert a == [a[0]] + a[1..] && b == [b[0]] + b[1..];
    }
  }

  /** For non-empty titles whose names contain no dash, two titles share a
      key exactly when they hold the same names: the key identifies the
      tag combination. */
  lemma KeyIdentifiesNames(a: seq<string>, b: seq<string>)
    requires |a| > 0 && |b| > 0 && DashFree(a) && DashFree(b)
    ensures Key(a) == Key(b) <==> multiset(a) == multiset(b)
  {
    if multiset(a) == multiset(b) {
      KeyPermutationInvariant(a, b);
    }
    if Key(a) == Key(b) {
      var sa, sb := SortBy(LexLe, a), SortBy(LexLe, b);
      forall i | 0 <= i < |sa| ensures '-' !in sa[i] {
        assert sa[i] in multiset(a);
      }
      forall i | 0 <= i < |sb| ensures '-' !in sb[i] {
        assert sb[i] in multiset(b);
      }
      JoinInjective(sa, sb);
    }
  }

  // Membership and member order

  /** `tagIds.every(tagId => op.tags.includes(tagId))`. */
  predicate HasAllTags(op: Operator, tagIds: seq<int>) {
    forall t :: t in tagIds ==> t in op.tags
  }

  /** The filter of `createSectionContent`. */
  predicate InSection(op: Operator, spec: SectionSpec) {
    HasAllTags(op, spec.tagIds) && (spec.allowRarity6 || op.rarity < 6)
  }

  /** `cmp(a, b) <= 0` for `cmp = (a, b) => b.rarity - a.rarity || a.name.localeCompare(b.name)`. */
  predicate MemberLe(a: Operator, b: Operator) {
    a.rarity > b.rarity || (a.rarity == b.rarity && LexLe(a.name, b.name))
  }

  lemma MemberLeIsTotalPreorder()
    ensures TotalPreorder(MemberLe)
  {
    LexLeIsTotalOrder();
  }

  /** The cached operators that belong to the section, in cache order. */
  function Matching(ops: seq<Operator>, spec: SectionSpec): (r: seq<Operator>)
    ensures IsSubsequence(r, ops)
    ensures forall op :: op in r <==> op in ops && InSection(op, spec)
  {
    if |ops| == 0 then []
    else
      var rest := Matching(ops[1..], spec);
      assert ops == [ops[0]] + ops[1..];
      assert forall op :: op in ops <==> op == ops[0] || op in ops[1..];
      if InSection(ops[0], spec) then [ops[0]] + rest else rest
  }

  /** Each qualifying operator occurs in the filtered list as often as in the cache. */
  lemma {:induction false} MatchingCounts(ops: seq<Operator>, spec: SectionSpec)
    ensures forall op :: multiset(Matching(ops, spec))[op] == if InSection(op, spec) then multiset(ops)[op] else 0
  {
    if |ops| > 0 {
      MatchingCounts(ops[1..], spec);
      assert ops == [ops[0]] + ops[1..];
    }
  }

  /** The members of a section, in display order. */
  function Members(ops: seq<Operator>, spec: SectionSpec): seq<Operator> {
    SortBy(MemberLe, Matching(ops, spec))
  }

  /** The members are exactly the cached operators that carry every tag of
      the section (and are allowed by the rarity-6 rule), each once per
      cache entry, ordered by rarity descending and then by name. */
  lemma MembersSpec(ops: seq<Operator>, spec: SectionSpec)
    ensures forall op :: op in Members(ops, spec) <==> op in ops && InSection(op, spec)
    ensures forall op :: multiset(Members(ops, spec))[op] == if InSection(op, spec) then multiset(ops)[op] else 0
    ensures forall i, j :: 0 <= i < j < |Members(ops, spec)| ==>
              Members(ops, spec)[i].rarity > Members(ops, spec)[j].rarity ||
              (Members(ops, spec)[i].rarity == Members(ops, spec)[j].rarity &&
               LexLe(Members(ops, spec)[i].name, Members(ops, spec)[j].name))
  {
    var m := Members(ops, spec);
    assert forall op :: op in m <==> op in multiset(m);
    MatchingCounts(ops, spec);
    MemberLeIsTotalPreorder();
    SortBySorted(MemberLe, Matching(ops, spec));
    forall i, j | 0 <= i < j < |m| ensures MemberLe(m[i], m[j]) {
    }
  }

  /** Rarity 6 is admitted exactly when the section allows it. */
  lemma RarityCapOfSection(ops: seq<Operator>, spec: SectionSpec, op: Operator)
    requires op in Members(ops, spec)
    ensures spec.allowRarity6 || op.rarity < 6
  {
    MembersSpec(ops, spec);
  }

  // Rarity flags

  /** The set of distinct member rarities (`new Set(operators.map(op => op.dataset.rarity))`). */
  function Rarities(members: seq<Operator>): (r: set<int>)
    ensures forall x :: x in r <==> exists i :: 0 <= i < |members| && members[i].rarity == x
  {
    if |members| == 0 then {}
    else
      var rest := Rarities(members[1..]);
      assert forall x :: x in rest <==> exists i :: 1 <= i < |members| && members[i].rarity == x by {
        forall x | x in rest ensures exists i :: 1 <= i < |members| && members[i].rarity == x {
          var k :| 0 <= k < |members[1..]| && members[1..][k].rarity == x;
          assert members[k + 1].rarity == x;
        }
        forall x | exists i :: 1 <= i < |members| && members[i].rarity == x ensures x in rest {
          var k :| 1 <= k < |members| && members[k].rarity == x;
          assert members[1..][k - 1].rarity == x;
        }
      }
      {members[0].rarity} + rest
  }

  /** `RarityCommon`: some member has rarity 2 or 3. */
  function RarityCommon(members: seq<Operator>): (r: bool)
    ensures r <==> exists i :: 0 <= i < |members| && (members[i].rarity == 2 || members[i].rarity == 3)
  {
    2 in Rarities(members) || 3 in Rarities(members)
  }

  /** The distinct rarities are exactly {1} when there are members and all have rarity 1. */
  lemma OnlyRarityOne(members: seq<Operator>)
    ensures (|Rarities(members)| == 1 && 1 in Rarities(members)) <==>
            |members| > 0 && forall i :: 0 <= i < |members| ==> members[i].rarity == 1
  {
    var rs := Rarities(members);
    if |rs| == 1 && 1 in rs {
      assert |rs - {1}| == 0;
      forall i | 0 <= i < |members| ensures members[i].rarity == 1 {
        assert members[i].rarity !in rs - {1};
      }
    }
    if |members| > 0 && forall i :: 0 <= i < |members| ==> members[i].rarity == 1 {
      assert members[0].rarity in rs;
      assert rs == {1};
    }
  }

  /** `OnlyRarityRobot`: the members have exactly one distinct rarity, and it is 1. */
  function OnlyRarityRobot(members: seq<Operator>): (r: bool)
    ensures r <==> |members| > 0 && forall i :: 0 <= i < |members| ==> members[i].rarity == 1
  {
    OnlyRarityOne(members);
    var rs := Rarities(members);
    |rs| == 1 && 1 in rs
  }

  /** A robot-only section never counts as common, and vice versa. */
  lemma FlagsExclusive(members: seq<Operator>)
    ensures !(RarityCommon(members) && OnlyRarityRobot(members))
  {
    if RarityCommon(members) {
      var i :| 0 <= i < |members| && (members[i].rarity == 2 || members[i].rarity == 3);
      assert members[i].rarity != 1;
    }
  }

  // Creating a section

  /** `createSection(spec)` over the cached operators: `null` (None) when no
      operator belongs to it. */
  function CreateSection(spec: SectionSpec, ops: seq<Operator>): (r: Option<Section>)
    ensures r.Some? ==> r.value.key == Key(spec.title) && r.value.title == spec.title && r.value.tagIds == spec.tagIds
  {
    var members := Members(ops, spec);
    if |members| == 0 then None
    else
      Some(Section(Key(spec.title), spec.title, spec.tagIds, members))
  }

  /** `createSection` returns `null` exactly when no operator qualifies;
      otherwise the section lists exactly the qualifying operators, in the
      order of `Members`. */
  lemma CreateSectionSpec(spec: SectionSpec, ops: seq<Operator>)
    ensures var r := CreateSection(spec, ops);
            (r.None? <==> forall op :: op in ops ==> !InSection(op, spec)) &&
            (r.Some? ==> r.value.members == Members(ops, spec) &&
                         forall op :: op in r.value.members <==> op in ops && InSection(op, spec))
  {
    var members := Members(ops, spec);
    assert forall op :: op in members <==> op in Matching(ops, spec) by {
      assert forall op :: op in members <==> op in multiset(members);
    }
    if |members| > 0 {
      assert members[0] in members;
    }
  }

  // Visibility

  /** `updateVisibility`: `display: none` when the common toggle is on and
      some member has rarity 2 or 3, else when the robot toggle is on and
      every member (of at least one) has rarity 1. */
  function Hidden(s: Section, hideCommon: bool, hideRobot: bool): (r: bool)
    ensures r <==> (hideCommon && exists i :: 0 <= i < |s.members| && (s.members[i].rarity == 2 || s.members[i].rarity == 3)) ||
                   (hideRobot && |s.members| > 0 && forall i :: 0 <= i < |s.members| ==> s.members[i].rarity == 1)
  {
    if hideCommon && RarityCommon(s.members) then true
    else if hideRobot && OnlyRarityRobot(s.members) then true
    else false
  }

  /** With both toggles off every section is shown; a section whose members
      all have rarity 4 or more is never hidden. */
  lemma HiddenOnlyByToggles(s: Section, hideCommon: bool, hideRobot: bool)
    ensures !hideCommon && !hideRobot ==> !Hidden(s, hideCommon, hideRobot)
    ensures (forall i :: 0 <= i < |s.members| ==> s.members[i].rarity >= 4) ==> !Hidden(s, hideCommon, hideRobot)
  {
    if |s.members| > 0 && forall i :: 0 <= i < |s.members| ==> s.members[i].rarity >= 4 {
      assert s.members[0].rarity != 1;
    }
  }

  // Ordering

  /** `compareSections`: a negative result puts `a` first. */
  function CompareSections(a: Section, b: Section): int {
    var ra, rb := Rarities(a.members), Rarities(b.members);
    if |ra| == 1 && |rb| > 1 then -1
    else if |rb| == 1 && |ra| > 1 then 1
    else if |ra| == 1 && |rb| == 1 && a.members[0].rarity != b.members[0].rarity then
      b.members[0].rarity - a.members[0].rarity
    else |a.members| - |b.members|
  }

  /** The sort key the comparator realises: sections with no member (never
      rendered) first, then single-rarity sections by rarity, highest first,
      then sections with several rarities; within a group by member count. */
  datatype Rank = Rank(group: int, rarity: int, count: int)

  function RankOf(s: Section): Rank {
    var rs := Rarities(s.members);
    if |rs| == 0 then Rank(-1, 0, |s.members|)
    else if |rs| == 1 then Rank(0, -s.members[0].rarity, |s.members|)
    else Rank(1, 0, |s.members|)
  }

  predicate RankLess(x: Rank, y: Rank) {
    x.group < y.group || (x.group == y.group && (x.rarity < y.rarity || (x.rarity == y.rarity && x.count < y.count)))
  }

  /** The comparator orders sections by their rank: its sign is the
      lexicographic comparison of the ranks. */
  lemma CompareSectionsByRank(a: Section, b: Section)
    ensures CompareSections(a, b) < 0 <==> RankLess(RankOf(a), RankOf(b))
    ensures CompareSections(a, b) == 0 <==> RankOf(a) == RankOf(b)
  {
    var ra, rb := Rarities(a.members), Rarities(b.members);
    if |ra| > 0 {
      assert |a.members| > 0;
    }
    if |rb| > 0 {
      assert |b.members| > 0;
    }
  }

  /** The comparator is antisymmetric in sign. */
  lemma CompareSectionsAntisymmetric(a: Section, b: Section)
    ensures CompareSections(a, b) < 0 <==> CompareSections(b, a) > 0
    ensures CompareSections(a, b) == 0 <==> CompareSections(b, a) == 0
  {
    CompareSectionsByRank(a, b);
    CompareSectionsByRank(b, a);
  }

  /** `SectionLe(a, b)`: `a` may stay before `b` after `sort(compareSections)`. */
  predicate SectionLe(a: Section, b: Section) {
    CompareSections(a, b) <= 0
  }

  /** The comparator is consistent, so sorting by it is meaningful. */
  lemma SectionLeIsTotalPreorder()
    ensures TotalPreorder(SectionLe)
  {
    forall a, b ensures SectionLe(a, b) || SectionLe(b, a) {
      CompareSectionsAntisymmetric(a, b);
    }
    forall a, b, c | SectionLe(a, b) && SectionLe(b, c) ensures SectionLe(a, c) {
      CompareSectionsByRank(a, b);
      CompareSectionsByRank(b, c);
      CompareSectionsByRank(a, c);
    }
  }

  /** In a list sorted with `compareSections`, for any two non-empty
      sections in order: a single-rarity section is never after a section of
      several rarities; two single-rarity sections are by rarity, highest
      first; and sections of the same kind (and, for single-rarity ones, the
      same rarity) are by ascending member count. */
  lemma SortedSectionsOrder(s: seq<Section>, i: int, j: int)
    requires SortedBy(SectionLe, s) && 0 <= i < j < |s|
    requires |s[i].members| > 0 && |s[j].members| > 0
    ensures |Rarities(s[j].members)| == 1 ==> |Rarities(s[i].members)| == 1
    ensures |Rarities(s[i].members)| == 1 && |Rarities(s[j].members)| == 1 ==>
              s[i].members[0].rarity >= s[j].members[0].rarity
    ensures (|Rarities(s[i].members)| > 1 && |Rarities(s[j].members)| > 1) ||
            (|Rarities(s[i].members)| == 1 && |Rarities(s[j].members)| == 1 &&
             s[i].members[0].rarity == s[j].members[0].rarity)
            ==> |s[i].members| <= |s[j].members|
  {
    assert SectionLe(s[i], s[j]);
    CompareSectionsByRank(s[i], s[j]);
    assert s[i].members[0].rarity in Rarities(s[i].members);
    assert s[j].members[0].rarity in Rarities(s[j].members);
  }
}
