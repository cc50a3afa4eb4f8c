/** What `displayResults` (public/static/src/script.js) computes, as
    functions: the sections a selection requires, how the section cache
    `currentSections` is filled, and how the container's children are
    reconciled with the required sections and sorted. */
module Reconciliation {
  import opened Sequences
  import opened Ordering
  import opened Maybe
  import opened TagCatalog
  import opened Combinations
  import opened Sections

  /** A section `displayResults` asks for: its key in `currentSections` and
      the argument `createSection` would get. */
  datatype Entry = Entry(key: string, spec: SectionSpec)

  /** `currentSections`: a key maps to a created section or to `null`. */
  type Cache = map<string, Option<Section>>

  predicate HasTag(allTags: seq<Tag>, id: int) {
    exists t :: t in allTags && t.id == id
  }

  /** Every selected id is the id of a loaded tag (each checkbox was built from one). */
  predicate AllKnown(ids: seq<int>, allTags: seq<Tag>) {
    forall id :: id in ids ==> HasTag(allTags, id)
  }

  /** The index of the first tag with that id. */
  function FirstIndex(allTags: seq<Tag>, id: int): (i: nat)
    requires HasTag(allTags, id)
    ensures i < |allTags| && allTags[i].id == id
    ensures forall j :: 0 <= j < i ==> allTags[j].id != id
  {
    if allTags[0].id == id then 0
    else
      assert allTags == [allTags[0]] + allTags[1..];
      1 + FirstIndex(allTags[1..], id)
  }

  /** `allTags.find(t => t.id === id)`: the first tag with that id. */
  function FindTag(allTags: seq<Tag>, id: int): (t: Tag)
    requires HasTag(allTags, id)
    ensures t in allTags && t.id == id
  {
    allTags[FirstIndex(allTags, id)]
  }

  /** The section of one selected tag: keyed and titled by `tag_name`, with
      rarity 6 allowed only for tag 11. */
  function SingleEntry(t: Tag): Entry {
    Entry(t.tagName, SectionSpec([t.tagName], [t.id], t.id == 11))
  }

  /** `combination.map(tagId => allTags.find(t => t.id === tagId).name)`. */
  function ComboNames(combo: seq<int>, allTags: seq<Tag>): seq<string>
    requires AllKnown(combo, allTags)
  {
    seq(|combo|, i requires 0 <= i < |combo| => FindTag(allTags, combo[i]).name)
  }

  /** The section of a combination: keyed by `getSectionKey(names)`, whose
      in-place sort leaves the title sorted too; rarity 6 is allowed when
      tag 11 is one of the combination's tags. */
  function ComboEntry(combo: seq<int>, allTags: seq<Tag>): Entry
    requires AllKnown(combo, allTags)
  {
    var names := ComboNames(combo, allTags);
    Entry(Key(names), SectionSpec(SortBy(LexLe, names), combo, 11 in combo))
  }

  function SingleEntries(selected: seq<int>, allTags: seq<Tag>): seq<Entry>
    requires AllKnown(selected, allTags)
  {
    seq(|selected|, i requires 0 <= i < |selected| => SingleEntry(FindTag(allTags, selected[i])))
  }

  function ComboEntries(combos: seq<seq<int>>, allTags: seq<Tag>): seq<Entry>
    requires forall c :: c in combos ==> AllKnown(c, allTags)
  {
    seq(|combos|, i requires 0 <= i < |combos| => ComboEntry(combos[i], allTags))
  }

  lemma CombinationsKnown(selected: seq<int>, allTags: seq<Tag>, lo: nat, hi: nat)
    requires AllKnown(selected, allTags)
    ensures forall c :: c in CombinationsBetween(selected, lo, hi) ==> AllKnown(c, allTags)
  {
    forall c | c in CombinationsBetween(selected, lo, hi) ensures AllKnown(c, allTags) {
      SubsequenceElements(c, selected);
    }
  }

  /** The sections a selection requires, in the order `displayResults` asks
      for them: the single tags in selection order, then the combinations in
      ascending mask order. */
  function Required(selected: seq<int>, allTags: seq<Tag>): seq<Entry>
    requires AllKnown(selected, allTags)
  {
    CombinationsKnown(selected, allTags, 1, Pow2(|selected|));
    SingleEntries(selected, allTags) + ComboEntries(Combinations.Combinations(selected), allTags)
  }

  function Keys(entries: seq<Entry>): seq<string> {
    seq(|entries|, i requires 0 <= i < |entries| => entries[i].key)
  }

  /** An entry's key is the key `createSection` stamps on the section it builds. */
  predicate EntryConsistent(e: Entry) {
    Key(e.spec.title) == e.key
  }

  /** A single tag's key is its `tag_name`, the key of its one-name title. */
  lemma SingleConsistent(t: Tag)
    ensures EntryConsistent(SingleEntry(t))
  {
    KeyOfSingle(t.tagName);
  }

  /** A combination's key is the key of its sorted title. */
  lemma ComboConsistent(combo: seq<int>, allTags: seq<Tag>)
    requires AllKnown(combo, allTags)
    ensures EntryConsistent(ComboEntry(combo, allTags))
  {
    var names := ComboNames(combo, allTags);
    LexLeIsTotalOrder();
    SortBySorted(LexLe, names);
    KeyOfSorted(SortBy(LexLe, names));
  }

  /** Every required entry is consistent. */
  lemma RequiredConsistent(selected: seq<int>, allTags: seq<Tag>)
    requires AllKnown(selected, allTags)
    ensures forall e :: e in Required(selected, allTags) ==> EntryConsistent(e)
  {
    CombinationsKnown(selected, allTags, 1, Pow2(|selected|));
    SinglesConsistent(selected, allTags);
    CombosConsistent(Combinations.Combinations(selected), allTags);
  }

  lemma SinglesConsistent(selected: seq<int>, allTags: seq<Tag>)
    requires AllKnown(selected, allTags)
    ensures forall e :: e in SingleEntries(selected, allTags) ==> EntryConsistent(e)
  {
    var singles := SingleEntries(selected, allTags);
    forall i | 0 <= i < |singles| ensures EntryConsistent(singles[i]) {
      SingleConsistent(FindTag(allTags, selected[i]));
    }
  }

  lemma CombosConsistent(combos: seq<seq<int>>, allTags: seq<Tag>)
    requires forall c :: c in combos ==> AllKnown(c, allTags)
    ensures forall e :: e in ComboEntries(combos, allTags) ==> EntryConsistent(e)
  {
    var entries := ComboEntries(combos, allTags);
    forall i | 0 <= i < |entries| ensures EntryConsistent(entries[i]) {
      ComboConsistent(combos[i], allTags);
    }
  }

  // Filling the section cache

  /** One `if (!currentSections.has(key)) currentSections.set(key, createSection(...))`. */
  function Step(cache: Cache, e: Entry, ops: seq<Operator>): Cache {
    if e.key in cache then cache else cache[e.key := CreateSection(e.spec, ops)]
  }

  /** The cache after asking for every entry in order. */
  function FillCache(cache: Cache, entries: seq<Entry>, ops: seq<Operator>): Cache {
    if |entries| == 0 then cache
    else Step(FillCache(cache, entries[..|entries| - 1], ops), entries[|entries| - 1], ops)
  }

  /** The first entry with a given key. */
  function FirstWithKey(entries: seq<Entry>, key: string): (e: Entry)
    requires key in Keys(entries)
    ensures e in entries && e.key == key
  {
    if entries[0].key == key then entries[0]
    else
      assert Keys(entries)[1..] == Keys(entries[1..]);
      FirstWithKey(entries[1..], key)
  }

  /** Filling the cache adds exactly the keys asked for. */
  lemma FillCacheKeys(cache: Cache, entries: seq<Entry>, ops: seq<Operator>)
    ensures forall k :: k in FillCache(cache, entries, ops) <==> k in cache || k in Keys(entries)
  {
    forall k ensures k in FillCache(cache, entries, ops) <==> k in cache || k in Keys(entries) {
      FillCacheHas(cache, entries, ops, k);
    }
  }

  lemma {:induction false} FillCacheHas(cache: Cache, entries: seq<Entry>, ops: seq<Operator>, k: string)
    ensures k in FillCache(cache, entries, ops) <==> k in cache || k in Keys(entries)
    decreases |entries|
  {
    if |entries| > 0 {
      var front := entries[..|entries| - 1];
      FillCacheHas(cache, front, ops, k);
      StepHas(FillCache(cache, front, ops), entries[|entries| - 1], ops, k);
      KeysSnoc(entries);
    }
  }

  lemma StepHas(cache: Cache, e: Entry, ops: seq<Operator>, k: string)
    ensures k in Step(cache, e, ops) <==> k in cache || k == e.key
  {
  }

  lemma KeysSnoc(entries: seq<Entry>)
    requires |entries| > 0
    ensures Keys(entries) == Keys(entries[..|entries| - 1]) + [entries[|entries| - 1].key]
  {
  }

  /** A key already cached keeps its value, `null` included: it is never rebuilt. */
  lemma {:induction false} FillCacheReuses(cache: Cache, entries: seq<Entry>, ops: seq<Operator>, k: string)
    requires k in cache
    ensures k in FillCache(cache, entries, ops) && FillCache(cache, entries, ops)[k] == cache[k]
    decreases |entries|
  {
    if |entries| > 0 {
      FillCacheReuses(cache, entries[..|entries| - 1], ops, k);
    }
  }

  /** A key not cached before gets the section built for the first entry that asks for it. */
  lemma {:induction false} FillCacheCreates(cache: Cache, entries: seq<Entry>, ops: seq<Operator>, k: string)
    requires k !in cache && k in Keys(entries)
    ensures k in FillCache(cache, entries, ops)
    ensures FillCache(cache, entries, ops)[k] == CreateSection(FirstWithKey(entries, k).spec, ops)
    decreases |entries|
  {
    var front, e := entries[..|entries| - 1], entries[|entries| - 1];
    assert entries == front + [e];
    assert Keys(entries) == Keys(front) + [e.key];
    FirstWithKeyPrefix(front, e, k);
    if k in Keys(front) {
      FillCacheCreates(cache, front, ops, k);
      FillCacheReuses(FillCache(cache, front, ops), [e], ops, k);
    } else {
      FillCacheKeys(cache, front, ops);
    }
  }

  lemma KeysAppend(a: seq<Entry>, b: seq<Entry>)
    ensures Keys(a + b) == Keys(a) + Keys(b)
  {
  }

  lemma {:induction false} FirstWithKeyPrefix(front: seq<Entry>, e: Entry, k: string)
    requires k in Keys(front + [e])
    ensures k in Keys(front) ==> FirstWithKey(front + [e], k) == FirstWithKey(front, k)
    ensures k !in Keys(front) ==> FirstWithKey(front + [e], k) == e
    decreases |front|
  {
    var all := front + [e];
    KeysAppend(front, [e]);
    assert Keys([e]) == [e.key];
    if |front| == 0 {
      assert all == [e];
    } else if front[0].key == k {
      assert all[0] == front[0];
      assert Keys(front)[0] == k;
    } else {
      assert all[0] == front[0];
      assert all[1..] == front[1..] + [e];
      KeysAppend(front[1..], [e]);
      assert Keys(front) == [front[0].key] + Keys(front[1..]);
      assert Keys(all) == [all[0].key] + Keys(all[1..]);
      FirstWithKeyPrefix(front[1..], e, k);
      assert FirstWithKey(all, k) == FirstWithKey(front[1..] + [e], k);
    }
  }

  /** Once every key asked for is cached, asking again changes nothing. */
  lemma {:induction false} FillCacheStable(cache: Cache, entries: seq<Entry>, ops: seq<Operator>)
    requires forall k :: k in Keys(entries) ==> k in cache
    ensures FillCache(cache, entries, ops) == cache
    decreases |entries|
  {
    if |entries| > 0 {
      var front := entries[..|entries| - 1];
      assert Keys(entries) == Keys(front) + [entries[|entries| - 1].key];
      FillCacheStable(cache, front, ops);
    }
  }

  /** Filling twice is filling once. */
  lemma FillCacheIdempotent(cache: Cache, entries: seq<Entry>, ops: seq<Operator>)
    ensures FillCache(FillCache(cache, entries, ops), entries, ops) == FillCache(cache, entries, ops)
  {
    FillCacheKeys(cache, entries, ops);
    FillCacheStable(FillCache(cache, entries, ops), entries, ops);
  }

  /** Every cached section carries its own key. */
  ghost predicate CacheConsistent(cache: Cache) {
    forall k :: k in cache && cache[k].Some? ==> cache[k].value.key == k
  }

  lemma {:induction false} FillCacheConsistent(cache: Cache, entries: seq<Entry>, ops: seq<Operator>)
    requires CacheConsistent(cache)
    requires forall e :: e in entries ==> EntryConsistent(e)
    ensures CacheConsistent(FillCache(cache, entries, ops))
    decreases |entries|
  {
    if |entries| > 0 {
      FillCacheConsistent(cache, entries[..|entries| - 1], ops);
      assert entries[|entries| - 1] in entries;
    }
  }

  // Reconciling the container

  /** `newSections` iterates its keys in first-insertion order. */
  function Dedup(keys: seq<string>): (r: seq<string>)
    ensures NoDuplicates(r)
    ensures forall k :: k in r <==> k in keys
    ensures IsSubsequence(r, keys)
  {
    if |keys| == 0 then []
    else
      var front := Dedup(keys[..|keys| - 1]);
      var last := keys[|keys| - 1];
      assert keys == keys[..|keys| - 1] + [last];
      SubsequenceSnoc(front, keys[..|keys| - 1], last);
      if last in front then front
      else
        NoDuplicatesSnoc(front, last);
        front + [last]
  }

  /** The distinct keys come in the order of their first occurrence. */
  lemma {:induction false} DedupOrder(keys: seq<string>)
    ensures forall i, j :: 0 <= i < j < |Dedup(keys)| ==>
              FirstPosition(keys, Dedup(keys)[i]) < FirstPosition(keys, Dedup(keys)[j])
    decreases |keys|
  {
    if |keys| > 0 {
      var f, last := keys[..|keys| - 1], keys[|keys| - 1];
      assert keys == f + [last];
      DedupOrder(f);
      var d, r := Dedup(f), Dedup(keys);
      forall x | x in d ensures FirstPosition(keys, x) == FirstPosition(f, x) {
        FirstPositionSnoc(f, last, x);
      }
      if last !in d {
        assert FirstPosition(keys, last) == |f|;
        forall i, j | 0 <= i < j < |r|
          ensures FirstPosition(keys, r[i]) < FirstPosition(keys, r[j])
        {
          assert r[i] == d[i] && r[i] in d;
          if j < |d| {
            assert r[j] == d[j] && r[j] in d;
          }
        }
      }
    }
  }

  /** The children whose key `newSections` holds, in their order; the others are removed. */
  function KeepRequired(children: seq<Section>, keys: seq<string>): (r: seq<Section>)
    ensures IsSubsequence(r, children)
    ensures forall s :: s in r <==> s in children && s.key in keys
  {
    if |children| == 0 then []
    else
      var front := KeepRequired(children[..|children| - 1], keys);
      var last := children[|children| - 1];
      assert children == children[..|children| - 1] + [last];
      SubsequenceSnoc(front, children[..|children| - 1], last);
      if last.key in keys then front + [last] else front
  }

  /** Whether a child with that key is in the container. */
  predicate HasKey(children: seq<Section>, key: string) {
    exists s :: s in children && s.key == key
  }

  /** The append loop over `newSections`: a non-null section whose key is not
      in the container yet goes last. */
  function AppendMissing(children: seq<Section>, keys: seq<string>, cache: Cache): seq<Section>
    requires forall k :: k in keys ==> k in cache
  {
    if |keys| == 0 then children
    else
      var front := AppendMissing(children, keys[..|keys| - 1], cache);
      var k := keys[|keys| - 1];
      if !HasKey(front, k) && cache[k].Some? then front + [cache[k].value] else front
  }

  /** The container after `displayResults` for a non-empty selection:
      stale children removed, missing sections appended in `newSections`
      order, everything sorted with `compareSections`. */
  function Reconcile(children: seq<Section>, keys: seq<string>, cache: Cache): seq<Section>
    requires forall k :: k in keys ==> k in cache
  {
    SortBy(SectionLe, AppendMissing(KeepRequired(children, keys), Dedup(keys), cache))
  }

  /** The non-null cached sections of the given keys. */
  function Displayed(cache: Cache, keys: seq<string>): set<Section> {
    set k | k in keys && k in cache && cache[k].Some? :: cache[k].value
  }

  /** Every child is the cached section of its key. */
  ghost predicate FromCache(children: seq<Section>, cache: Cache) {
    forall s :: s in children ==> s.key in cache && cache[s.key] == Some(s)
  }

  lemma {:induction false} AppendMissingSpec(children: seq<Section>, keys: seq<string>, cache: Cache)
    requires forall k :: k in keys ==> k in cache
    requires CacheConsistent(cache) && FromCache(children, cache) && NoDuplicates(children)
    ensures FromCache(AppendMissing(children, keys, cache), cache)
    ensures NoDuplicates(AppendMissing(children, keys, cache))
    ensures forall s :: s in AppendMissing(children, keys, cache) <==>
              s in children || s in Displayed(cache, keys)
    decreases |keys|
  {
    if |keys| > 0 {
      var front := AppendMissing(children, keys[..|keys| - 1], cache);
      var k := keys[|keys| - 1];
      AppendMissingSpec(children, keys[..|keys| - 1], cache);
      assert keys == keys[..|keys| - 1] + [k];
      assert forall j :: j in keys <==> j in keys[..|keys| - 1] || j == k;
      assert Displayed(cache, keys) == Displayed(cache, keys[..|keys| - 1]) +
             (if cache[k].Some? then {cache[k].value} else {});
      if !HasKey(front, k) && cache[k].Some? {
        NoDuplicatesSnoc(front, cache[k].value);
      } else if cache[k].Some? {
        var s :| s in front && s.key == k;
      }
    }
  }

  /** The container after reconciling shows exactly the non-null sections of
      the required keys, each once and each the cached section of its key,
      sorted with `compareSections`; a child whose key is no longer
      required is gone, and one that still is was kept, not rebuilt. */
  lemma ReconcileSpec(children: seq<Section>, keys: seq<string>, cache: Cache)
    requires forall k :: k in keys ==> k in cache
    requires CacheConsistent(cache) && FromCache(children, cache) && NoDuplicates(children)
    ensures forall s :: s in Reconcile(children, keys, cache) <==> s in Displayed(cache, keys)
    ensures forall s :: s in Reconcile(children, keys, cache) ==> s.key in keys
    ensures forall s :: s in children && s.key in keys ==> s in Reconcile(children, keys, cache)
    ensures NoDuplicates(Reconcile(children, keys, cache))
    ensures FromCache(Reconcile(children, keys, cache), cache)
    ensures SortedBy(SectionLe, Reconcile(children, keys, cache))
  {
    var kept := KeepRequired(children, keys);
    SubsequenceNoDuplicates(kept, children);
    AppendMissingSpec(kept, Dedup(keys), cache);
    var all := AppendMissing(kept, Dedup(keys), cache);
    assert Displayed(cache, Dedup(keys)) == Displayed(cache, keys);
    var r := Reconcile(children, keys, cache);
    assert forall s :: s in r <==> s in all by {
      assert forall s :: s in r <==> s in multiset(r);
      assert forall s :: s in all <==> s in multiset(all);
    }
    PermutationNoDuplicates(all, r);
    SectionLeIsTotalPreorder();
    SortBySorted(SectionLe, all);
  }

  /** Reconciling a container that is already reconciled changes nothing. */
  lemma ReconcileIdempotent(children: seq<Section>, keys: seq<string>, cache: Cache)
    requires forall k :: k in keys ==> k in cache
    requires CacheConsistent(cache) && FromCache(children, cache) && NoDuplicates(children)
    ensures Reconcile(Reconcile(children, keys, cache), keys, cache) == Reconcile(children, keys, cache)
  {
    var r := Reconcile(children, keys, cache);
    ReconcileSpec(children, keys, cache);
    KeepAll(r, keys);
    AppendNothing(r, Dedup(keys), cache);
    SortByOfSorted(SectionLe, r);
  }

  lemma {:induction false} KeepAll(children: seq<Section>, keys: seq<string>)
    requires forall s :: s in children ==> s.key in keys
    ensures KeepRequired(children, keys) == children
    decreases |children|
  {
    if |children| > 0 {
      var front, last := children[..|children| - 1], children[|children| - 1];
      assert children == front + [last];
      assert last.key in keys by { assert last in children; }
      assert forall s :: s in front ==> s in children;
      KeepAll(front, keys);
    }
  }

  lemma {:induction false} AppendNothing(children: seq<Section>, keys: seq<string>, cache: Cache)
    requires forall k :: k in keys ==> k in cache
    requires forall k :: k in keys && cache[k].Some? ==> HasKey(children, k)
    ensures AppendMissing(children, keys, cache) == children
    decreases |keys|
  {
    if |keys| > 0 {
      AppendNothing(children, keys[..|keys| - 1], cache);
    }
  }

  /** The container shows exactly the non-null cached sections of the
      given keys, each of those keys being cached, sorted with `compareSections`. */
  ghost predicate Shows(keys: seq<string>, cache: Cache, children: seq<Section>) {
    (forall k :: k in keys ==> k in cache) &&
    (forall s :: s in children <==> s in Displayed(cache, keys)) &&
    SortedBy(SectionLe, children)
  }

  /** The empty selection requires no section. */
  lemma RequiredEmpty(allTags: seq<Tag>)
    ensures Required([], allTags) == []
  {
    assert Combinations.Combinations<int>([]) == [];
  }

  /** The cache holds each section under its own key and the container
      holds cached sections, each once. */
  ghost predicate Coherent(cache: Cache, children: seq<Section>) {
    CacheConsistent(cache) && FromCache(children, cache) && NoDuplicates(children)
  }

  /** `currentSections` and the container after `displayResults`: an empty
      selection empties the container and leaves the cache alone; otherwise
      the cache is filled with the required entries and the container
      reconciled with their keys. */
  function Display(selected: seq<int>, allTags: seq<Tag>, cache: Cache, children: seq<Section>, ops: seq<Operator>): (Cache, seq<Section>)
    requires AllKnown(selected, allTags)
  {
    if |selected| == 0 then (cache, [])
    else
      var req := Required(selected, allTags);
      FillCacheKeys(cache, req, ops);
      var cache' := FillCache(cache, req, ops);
      (cache', Reconcile(children, Keys(req), cache'))
  }

  /** What a run of `displayResults` guarantees, for the required keys
      `keys`: the new cache and container are coherent and show exactly the
      required sections; no cached entry is evicted or rebuilt, the only new
      keys are required ones, and a child still required stays. */
  ghost predicate Refreshed(keys: seq<string>, cache: Cache, children: seq<Section>, cache': Cache, children': seq<Section>) {
    Coherent(cache', children') && Shows(keys, cache', children') &&
    (forall k :: k in cache ==> k in cache' && cache'[k] == cache[k]) &&
    (forall k :: k in cache' ==> k in cache || k in keys) &&
    (forall s :: s in children && s.key in keys ==> s in children')
  }

  /** One run of `displayResults`, from a coherent state, refreshes the
      cache and the container for the sections the selection requires. */
  lemma DisplayShows(selected: seq<int>, allTags: seq<Tag>, cache: Cache, children: seq<Section>, ops: seq<Operator>,
                     cache': Cache, children': seq<Section>)
    requires AllKnown(selected, allTags)
    requires Coherent(cache, children)
    requires (cache', children') == Display(selected, allTags, cache, children, ops)
    ensures Refreshed(Keys(Required(selected, allTags)), cache, children, cache', children')
  {
    var req := Required(selected, allTags);
    if |selected| == 0 {
      RequiredEmpty(allTags);
    } else {
      RequiredConsistent(selected, allTags);
      FillShows(req, cache, children, ops);
      FillCacheKeys(cache, req, ops);
      forall k | k in cache ensures k in cache' && cache'[k] == cache[k] {
        FillCacheReuses(cache, req, ops, k);
      }
      FillKeepsChildren(cache, req, children, ops);
      ReconcileSpec(children, Keys(req), cache');
    }
  }

  /** Filling the cache with consistent entries and reconciling shows exactly
      the non-null sections of their keys. */
  lemma FillShows(entries: seq<Entry>, cache: Cache, children: seq<Section>, ops: seq<Operator>)
    requires forall e :: e in entries ==> EntryConsistent(e)
    requires CacheConsistent(cache) && FromCache(children, cache) && NoDuplicates(children)
    ensures var cache' := FillCache(cache, entries, ops);
            (forall k :: k in Keys(entries) ==> k in cache') &&
            var children' := Reconcile(children, Keys(entries), cache');
            CacheConsistent(cache') && FromCache(children', cache') && NoDuplicates(children') &&
            Shows(Keys(entries), cache', children')
  {
    var cache' := FillCache(cache, entries, ops);
    var keys := Keys(entries);
    FillCacheConsistent(cache, entries, ops);
    FillCacheKeys(cache, entries, ops);
    assert forall k :: k in keys ==> k in cache';
    FillKeepsChildren(cache, entries, children, ops);
    ReconcileSpec(children, keys, cache');
    var children' := Reconcile(children, keys, cache');
    assert Shows(keys, cache', children');
  }

  /** Filling keeps every child the cached section of its key. */
  lemma FillKeepsChildren(cache: Cache, entries: seq<Entry>, children: seq<Section>, ops: seq<Operator>)
    requires FromCache(children, cache)
    ensures FromCache(children, FillCache(cache, entries, ops))
  {
    forall s | s in children ensures s.key in FillCache(cache, entries, ops) && FillCache(cache, entries, ops)[s.key] == Some(s) {
      FillCacheReuses(cache, entries, ops, s.key);
    }
  }
}
