/** The tag catalogue and its categorisation (`TAG_CATEGORIES` and the
    categorising loop of `populateTags`, public/static/src/script.js). */
module TagCatalog {
  import opened Sequences
  import opened Maybe

  /** A recruitment tag. Single-tag sections are titled by `tagName`
      (`tag.tag_name`), combination sections by `name` (`tag.name`). */
  datatype Tag = Tag(id: int, tagName: string, name: string)

  datatype Category = Qualification | Position | Class | Specialization

  /** The two tags (female and male) that are never shown. */
  predicate IsGenderTag(id: int) {
    id == 1012 || id == 1013
  }

  /** `TAG_CATEGORIES`, in declaration order. */
  const TagCategories: seq<(Category, seq<int>)> := [
    (Qualification, [28, 17, 14, 11]),
    (Position, [9, 10]),
    (Class, [8, 1, 3, 2, 6, 4, 5, 7]),
    (Specialization, [])
  ]

  /** The first category, from position `from` of `TagCategories` on, whose id list holds `id`. */
  function FirstListing(id: int, from: nat): Option<Category>
    decreases |TagCategories| - from
  {
    if from >= |TagCategories| then None
    else if id in TagCategories[from].1 then Some(TagCategories[from].0)
    else FirstListing(id, from + 1)
  }

  /** The category a (non-gender) tag is shown under: the first listing, else Specialization. */
  function CategoryOf(id: int): Category {
    match FirstListing(id, 0)
    case Some(c) => c
    case None => Specialization
  }

  /** The tags shown under category `c`, in catalogue order. */
  function Bucket(tags: seq<Tag>, c: Category): (r: seq<Tag>)
    ensures IsSubsequence(r, tags)
    ensures forall t :: t in r <==> t in tags && !IsGenderTag(t.id) && CategoryOf(t.id) == c
  {
    if |tags| == 0 then []
    else
      var last := tags[|tags| - 1];
      var front := Bucket(tags[..|tags| - 1], c);
      assert tags == tags[..|tags| - 1] + [last];
      SubsequenceSnoc(front, tags[..|tags| - 1], last);
      if !IsGenderTag(last.id) && CategoryOf(last.id) == c then front + [last] else front
  }

  /** The tags that are shown at all, in catalogue order. */
  function Shown(tags: seq<Tag>): seq<Tag> {
    if |tags| == 0 then []
    else
      var last := tags[|tags| - 1];
      Shown(tags[..|tags| - 1]) + (if IsGenderTag(last.id) then [] else [last])
  }

  /** `categorizedTags[c].push(t)`. */
  function Push(categorized: map<Category, seq<Tag>>, c: Category, t: Tag): map<Category, seq<Tag>> {
    if c in categorized then categorized[c := categorized[c] + [t]] else categorized
  }

  const AllCategories: set<Category> := {Qualification, Position, Class, Specialization}

  /** The categorising part of `populateTags`: each tag that is not a gender
      tag is pushed onto the list of the first category whose id list holds
      it, or onto Specialization when none does. */
  method Categorize(tags: seq<Tag>) returns (categorized: map<Category, seq<Tag>>)
    ensures categorized.Keys == AllCategories
    ensures forall c :: c in categorized ==> categorized[c] == Bucket(tags, c)
  {
    categorized := map[Qualification := [], Position := [], Class := [], Specialization := []];
    for i := 0 to |tags|
      invariant Buckets(categorized, tags[..i])
    {
      var tag := tags[i];
      assert tags[..i + 1] == tags[..i] + [tag];
      PushBucket(categorized, tags[..i], tag);
      if IsGenderTag(tag.id) {
        continue;
      }
      var found;
      categorized, found := PushListed(categorized, tag);
      if !found {
        categorized := Push(categorized, Specialization, tag);
      }
    }
    assert tags[..|tags|] == tags;
  }

  /** The `for (const category in TAG_CATEGORIES)` loop: the tag is pushed
      onto the first category whose id list holds it, if any. */
  method PushListed(categorized: map<Category, seq<Tag>>, tag: Tag) returns (r: map<Category, seq<Tag>>, found: bool)
    ensures found <==> FirstListing(tag.id, 0).Some?
    ensures found ==> r == Push(categorized, CategoryOf(tag.id), tag)
    ensures !found ==> r == categorized
  {
    r, found := categorized, false;
    var j := 0;
    while j < |TagCategories|
      invariant 0 <= j <= |TagCategories|
      invariant !found && r == categorized && FirstListing(tag.id, 0) == FirstListing(tag.id, j)
    {
      var (category, ids) := TagCategories[j];
      if tag.id in ids {
        r := Push(r, category, tag);
        found := true;
        break;
      }
      j := j + 1;
    }
  }

  /** `categorized` holds one list per category, the bucket of `prefix`. */
  predicate Buckets(categorized: map<Category, seq<Tag>>, prefix: seq<Tag>) {
    categorized.Keys == AllCategories && forall c :: c in categorized ==> categorized[c] == Bucket(prefix, c)
  }

  /** One more tag: a gender tag leaves the buckets as they are, any other
      tag is pushed onto the bucket of its category. */
  lemma PushBucket(categorized: map<Category, seq<Tag>>, prefix: seq<Tag>, tag: Tag)
    requires Buckets(categorized, prefix)
    ensures IsGenderTag(tag.id) ==> Buckets(categorized, prefix + [tag])
    ensures !IsGenderTag(tag.id) ==> Buckets(Push(categorized, CategoryOf(tag.id), tag), prefix + [tag])
  {
    assert (prefix + [tag])[..|prefix|] == prefix;
  }

  /** Reference description of `CategoryOf`: a tag belongs to the category
      whose id list holds it, and to Specialization when no list does. */
  lemma CategoryOfListed(id: int)
    ensures CategoryOf(id) == Qualification <==> id in [28, 17, 14, 11]
    ensures CategoryOf(id) == Position <==> id in [9, 10]
    ensures CategoryOf(id) == Class <==> id in [8, 1, 3, 2, 6, 4, 5, 7]
    ensures CategoryOf(id) == Specialization <==> id !in [28, 17, 14, 11] + [9, 10] + [8, 1, 3, 2, 6, 4, 5, 7]
  {
  }

  /** The four buckets split the shown tags: every shown tag lands in
      exactly one bucket, gender tags in none, and the buckets together
      hold each shown tag as often as the catalogue does. */
  lemma {:induction false} BucketsPartition(tags: seq<Tag>)
    ensures multiset(Bucket(tags, Qualification)) + multiset(Bucket(tags, Position))
          + multiset(Bucket(tags, Class)) + multiset(Bucket(tags, Specialization)) == multiset(Shown(tags))
  {
    if |tags| > 0 {
      BucketsPartition(tags[..|tags| - 1]);
    }
  }
}
