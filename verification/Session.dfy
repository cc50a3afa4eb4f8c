/** The page state of the recruitment calculator (public/static/src/script.js)
    and the handlers that change it: the checkbox change handler, the
    operator fetch of `updateOperators` and the reconciliation of
    `displayResults`. The loops of those handlers are the methods before
    the class, each proved against the function that specifies it. */
module Session {
  import opened Sequences
  import opened Ordering
  import opened Maybe
  import opened TagCatalog
  import opened Combinations
  import opened Sections
  import opened Selection
  import opened Fetching
  import opened Reconciliation

  // The loops of updateOperators

  /** The loop collecting `missingTags`. */
  method CollectMissing(selected: seq<int>, fetched: set<int>) returns (missing: seq<int>)
    ensures missing == Missing(selected, fetched)
  {
    missing := [];
    for i := 0 to |selected|
      invariant missing == Missing(selected[..i], fetched)
    {
      assert selected[..i + 1][..i] == selected[..i];
      if selected[i] !in fetched {
        missing := missing + [selected[i]];
      }
    }
    assert selected[..|selected|] == selected;
  }

  /** The rollback loop: `selectedTags.delete(tagId)` for every missing tag. */
  method RollBack(selected: seq<int>, missing: seq<int>) returns (remaining: seq<int>)
    ensures remaining == RemoveAll(selected, missing)
  {
    remaining := selected;
    RemoveNone(selected, []);
    for i := 0 to |missing|
      invariant remaining == RemoveAll(selected, missing[..i])
    {
      RemoveOneMore(selected, missing, i);
      remaining := Delete(remaining, missing[i]);
    }
    assert missing[..|missing|] == missing;
  }

  /** `fetchedOperators.forEach(op => cachedOperators.set(op.id, op))`. */
  method StoreOperators(cache: seq<Operator>, fetched: seq<Operator>) returns (stored: seq<Operator>)
    requires UniqueIds(cache)
    ensures stored == StoreAll(cache, fetched)
  {
    stored := cache;
    for i := 0 to |fetched|
      invariant UniqueIds(stored)
      invariant stored == StoreAll(cache, fetched[..i])
    {
      assert fetched[..i + 1][..i] == fetched[..i];
      stored := Upsert(stored, fetched[i]);
    }
    assert fetched[..|fetched|] == fetched;
  }

  /** `missingTags.forEach(tagId => fetchedTags.add(tagId))`. */
  method MarkFetched(fetched: set<int>, missing: seq<int>) returns (marked: set<int>)
    ensures marked == fetched + set t | t in missing
  {
    marked := fetched;
    for i := 0 to |missing|
      invariant marked == fetched + set t | t in missing[..i]
    {
      assert missing[..i + 1] == missing[..i] + [missing[i]];
      marked := marked + {missing[i]};
    }
    assert missing[..|missing|] == missing;
  }

  /** `updateOperators` up to `displayResults`, with the outcome of the request. */
  method SendRequest(selected: seq<int>, fetched: set<int>, ops: seq<Operator>, outcome: FetchOutcome) returns (r: Request)
    requires UniqueIds(ops)
    ensures r == AfterRequest(selected, fetched, ops, outcome)
  {
    var missing := CollectMissing(selected, fetched);
    if |missing| == 0 {
      return Request(selected, fetched, ops, true);
    }
    match outcome
    case FetchFailed =>
      var remaining := RollBack(selected, missing);
      r := Request(remaining, fetched, ops, false);
    case Fetched(response) =>
      var stored := StoreOperators(ops, response);
      var marked := MarkFetched(fetched, missing);
      r := Request(selected, marked, stored, true);
  }

  // The loops of displayResults

  /** The first loop of `displayResults`: the single-tag sections, in
      selection order. Returns the filled cache, the keys asked for and, in
      `order`, the keys of `newSections` in insertion order. */
  method FillSingles(selected: seq<int>, allTags: seq<Tag>, cache: Cache, ops: seq<Operator>)
    returns (filled: Cache, ghost keys: seq<string>, order: seq<string>)
    requires AllKnown(selected, allTags)
    ensures keys == Keys(SingleEntries(selected, allTags)) && order == Dedup(keys)
    ensures filled == FillCache(cache, SingleEntries(selected, allTags), ops)
  {
    ghost var singles := SingleEntries(selected, allTags);
    filled, keys, order := cache, [], [];
    for i := 0 to |selected|
      invariant keys == Keys(singles[..i]) && order == Dedup(keys)
      invariant filled == FillCache(cache, singles[..i], ops)
    {
      var tag := FindTag(allTags, selected[i]);
      var key := tag.tagName;
      SingleStep(selected, allTags, cache, ops, i);
      if key !in filled {
        filled := filled[key := CreateSection(SectionSpec([tag.tagName], [tag.id], tag.id == 11), ops)];
      }
      DedupSnoc(keys, key);
      keys := keys + [key];
      if key !in order {
        order := order + [key];
      }
    }
    assert singles[..|selected|] == singles;
  }

  /** One tag of the single-tag loop extends the entries asked for by its entry. */
  lemma SingleStep(selected: seq<int>, allTags: seq<Tag>, cache: Cache, ops: seq<Operator>, i: nat)
    requires AllKnown(selected, allTags) && i < |selected|
    ensures var singles := SingleEntries(selected, allTags);
            var e := SingleEntry(FindTag(allTags, selected[i]));
            Keys(singles[..i + 1]) == Keys(singles[..i]) + [e.key] &&
            FillCache(cache, singles[..i + 1], ops) == Step(FillCache(cache, singles[..i], ops), e, ops)
  {
    var singles := SingleEntries(selected, allTags);
    assert singles[..i + 1] == singles[..i] + [singles[i]];
    KeysAppend(singles[..i], [singles[i]]);
  }

  /** The mask loop of `displayResults`: the sections of the combinations of
      two tags or more, in ascending mask order, after the single tags. */
  method FillCombinations(selected: seq<int>, allTags: seq<Tag>, ghost cache: Cache, ops: seq<Operator>,
                          filled0: Cache, ghost keys0: seq<string>, order0: seq<string>)
    returns (filled: Cache, ghost keys: seq<string>, order: seq<string>)
    requires AllKnown(selected, allTags)
    requires keys0 == Keys(SingleEntries(selected, allTags)) && order0 == Dedup(keys0)
    requires filled0 == FillCache(cache, SingleEntries(selected, allTags), ops)
    ensures keys == Keys(Required(selected, allTags)) && order == Dedup(keys)
    ensures filled == FillCache(cache, Required(selected, allTags), ops)
  {
    filled, keys, order := filled0, keys0, order0;
    var mask := 1;
    AskedFirst(selected, allTags);
    while mask < Pow2(|selected|)
      invariant 1 <= mask <= Pow2(|selected|)
      invariant keys == Keys(Asked(selected, allTags, mask)) && order == Dedup(keys)
      invariant filled == FillCache(cache, Asked(selected, allTags, mask), ops)
      decreases Pow2(|selected|) - mask
    {
      var combination := Pick(selected, mask);
      if |combination| >= 2 {
        ComboStep(selected, allTags, cache, ops, mask);
        var names := ComboNames(combination, allTags);
        var key := Key(names);
        if key !in filled {
          filled := filled[key := CreateSection(SectionSpec(SortBy(LexLe, names), combination, 11 in combination), ops)];
        }
        DedupSnoc(keys, key);
        keys := keys + [key];
        if key !in order {
          order := order + [key];
        }
      } else {
        SkipStep(selected, allTags, mask);
      }
      mask := mask + 1;
    }
  }

  /** The entries asked for once the masks below `mask` are done. */
  ghost function Asked(selected: seq<int>, allTags: seq<Tag>, mask: nat): seq<Entry>
    requires AllKnown(selected, allTags)
  {
    CombinationsKnown(selected, allTags, 1, mask);
    SingleEntries(selected, allTags) + ComboEntries(CombinationsBetween(selected, 1, mask), allTags)
  }

  lemma AskedFirst(selected: seq<int>, allTags: seq<Tag>)
    requires AllKnown(selected, allTags)
    ensures Asked(selected, allTags, 1) == SingleEntries(selected, allTags)
    ensures Asked(selected, allTags, Pow2(|selected|)) == Required(selected, allTags)
  {
    assert SingleEntries(selected, allTags) + ComboEntries([], allTags) == SingleEntries(selected, allTags);
  }

  /** A mask picking fewer than two tags asks for nothing. */
  lemma SkipStep(selected: seq<int>, allTags: seq<Tag>, mask: nat)
    requires AllKnown(selected, allTags) && 1 <= mask && |Pick(selected, mask)| < 2
    ensures Asked(selected, allTags, mask + 1) == Asked(selected, allTags, mask)
  {
  }

  /** A mask picking two tags or more asks for the entry of its combination. */
  lemma ComboStep(selected: seq<int>, allTags: seq<Tag>, cache: Cache, ops: seq<Operator>, mask: nat)
    requires AllKnown(selected, allTags) && 1 <= mask && |Pick(selected, mask)| >= 2
    ensures AllKnown(Pick(selected, mask), allTags)
    ensures var e := ComboEntry(Pick(selected, mask), allTags);
            Asked(selected, allTags, mask + 1) == Asked(selected, allTags, mask) + [e] &&
            Keys(Asked(selected, allTags, mask + 1)) == Keys(Asked(selected, allTags, mask)) + [e.key] &&
            FillCache(cache, Asked(selected, allTags, mask + 1), ops) ==
              Step(FillCache(cache, Asked(selected, allTags, mask), ops), e, ops)
  {
    CombinationsKnown(selected, allTags, 1, mask + 1);
    var c := Pick(selected, mask);
    SubsequenceElements(c, selected);
    var before := Asked(selected, allTags, mask);
    var e := ComboEntry(c, allTags);
    ComboEntriesSnoc(CombinationsBetween(selected, 1, mask), c, allTags);
    var after := before + [e];
    assert after[..|before|] == before;
    KeysAppend(before, [e]);
  }

  /** The removal loop of `displayResults`: the children whose key is in
      `newSections` stay, in document order. */
  method RemoveStale(children: seq<Section>, order: seq<string>, ghost keys: seq<string>) returns (kept: seq<Section>)
    requires forall k :: k in order <==> k in keys
    ensures kept == KeepRequired(children, keys)
  {
    kept := [];
    for i := 0 to |children|
      invariant kept == KeepRequired(children[..i], keys)
    {
      assert children[..i + 1][..i] == children[..i];
      if children[i].key in order {
        kept := kept + [children[i]];
      }
    }
    assert children[..|children|] == children;
  }

  /** The append loop of `displayResults`: each non-null section of
      `newSections` without a child of its key goes last. */
  method AppendSections(kept: seq<Section>, order: seq<string>, cache: Cache) returns (container: seq<Section>)
    requires forall k :: k in order ==> k in cache
    ensures container == AppendMissing(kept, order, cache)
  {
    container := kept;
    for j := 0 to |order|
      invariant container == AppendMissing(kept, order[..j], cache)
    {
      assert order[..j + 1][..j] == order[..j];
      var key := order[j];
      if !HasKey(container, key) && cache[key].Some? {
        container := container + [cache[key].value];
      }
    }
    assert order[..|order|] == order;
  }

  /** The body of `displayResults` on the cache and the container's children. */
  method Redisplay(selected: seq<int>, allTags: seq<Tag>, cache: Cache, children: seq<Section>, ops: seq<Operator>)
    returns (cache': Cache, children': seq<Section>)
    requires AllKnown(selected, allTags)
    ensures (cache', children') == Display(selected, allTags, cache, children, ops)
  {
    if |selected| == 0 {
      return cache, [];
    }
    var filled: Cache;
    ghost var keys: seq<string>;
    var order: seq<string>;
    filled, keys, order := FillSingles(selected, allTags, cache, ops);
    filled, keys, order := FillCombinations(selected, allTags, cache, ops, filled, keys, order);
    FillCacheKeys(cache, Required(selected, allTags), ops);
    var kept := RemoveStale(children, order, keys);
    var container := AppendSections(kept, order, filled);
    cache', children' := filled, SortBy(SectionLe, container);
  }

  /** A run of `displayResults` from a coherent state refreshes the cache
      and the container for the sections the selection requires. */
  method Refresh(selected: seq<int>, allTags: seq<Tag>, cache: Cache, children: seq<Section>, ops: seq<Operator>)
    returns (cache': Cache, children': seq<Section>)
    requires AllKnown(selected, allTags) && Coherent(cache, children)
    ensures (cache', children') == Display(selected, allTags, cache, children, ops)
    ensures Refreshed(Keys(Required(selected, allTags)), cache, children, cache', children')
  {
    cache', children' := Redisplay(selected, allTags, cache, children, ops);
    DisplayShows(selected, allTags, cache, children, ops, cache', children');
  }

  class RecruitmentSession {
    /** `allTags`, as loaded by `populateTags`. */
    const allTags: seq<Tag>
    /** `selectedTags`, in insertion order. */
    var selectedTags: seq<int>
    /** `fetchedTags`. */
    var fetchedTags: set<int>
    /** `cachedOperators`, in key insertion order. */
    var cachedOperators: seq<Operator>
    /** `currentSections`. */
    var currentSections: Cache
    /** The children of the results container, in document order. */
    var rendered: seq<Section>
    /** `hideRarityCommonSections` and `hideOnlyRarityRobotSections`. */
    var hideCommon: bool
    var hideRobot: bool

    /** The state every handler relies on and keeps. */
    ghost predicate Consistent()
      reads this
    {
      NoDuplicates(selectedTags) && |selectedTags| <= MaxTags && AllKnown(selectedTags, allTags) &&
      UniqueIds(cachedOperators) && Coherent(currentSections, rendered)
    }

    /** The container shows exactly the non-null sections the selection
        requires, each once, sorted with `compareSections`. */
    ghost predicate ShowsSelection()
      reads this
      requires AllKnown(selectedTags, allTags)
    {
      Shows(Keys(Required(selectedTags, allTags)), currentSections, rendered)
    }

    /** The state between two events: consistent, every selected tag
        fetched, and the container showing the selection. */
    ghost predicate Valid()
      reads this
    {
      Consistent() && (forall t :: t in selectedTags ==> t in fetchedTags) && ShowsSelection()
    }

    /** The state after `populateTags(tags)`, with the two toggles read from storage. */
    constructor (tags: seq<Tag>, hideCommonStored: bool, hideRobotStored: bool)
      ensures Valid()
      ensures allTags == tags && selectedTags == [] && fetchedTags == {} && cachedOperators == []
      ensures currentSections == map[] && rendered == []
      ensures hideCommon == hideCommonStored && hideRobot == hideRobotStored
    {
      allTags := tags;
      selectedTags := [];
      fetchedTags := {};
      cachedOperators := [];
      currentSections := map[];
      rendered := [];
      hideCommon := hideCommonStored;
      hideRobot := hideRobotStored;
      new;
      RequiredEmpty(tags);
    }

    /** `aria-disabled` of a tag after `updateTagsState`. */
    function TagDisabled(id: int): (r: bool)
      reads this
      ensures r <==> id !in selectedTags && |selectedTags| >= MaxTags
    {
      Selection.TagDisabled(selectedTags, id)
    }

    /** Whether `updateVisibility` hides a rendered section. */
    function IsHidden(s: Section): (r: bool)
      reads this
      ensures !hideCommon && !hideRobot ==> !r
      ensures r ==> |s.members| > 0
    {
      Hidden(s, hideCommon, hideRobot)
    }

    /** The change listener of `#toggle-rarity-common`. */
    method SetHideCommon(value: bool)
      modifies this
      ensures hideCommon == value && hideRobot == old(hideRobot)
      ensures selectedTags == old(selectedTags) && fetchedTags == old(fetchedTags)
      ensures cachedOperators == old(cachedOperators) && currentSections == old(currentSections)
      ensures rendered == old(rendered)
    {
      hideCommon := value;
    }

    /** The change listener of `#toggle-rarity-robot`. */
    method SetHideRobot(value: bool)
      modifies this
      ensures hideRobot == value && hideCommon == old(hideCommon)
      ensures selectedTags == old(selectedTags) && fetchedTags == old(fetchedTags)
      ensures cachedOperators == old(cachedOperators) && currentSections == old(currentSections)
      ensures rendered == old(rendered)
    {
      hideRobot := value;
    }

    /** `displayResults`: with no tag selected the container is emptied;
        otherwise every required section is looked up in `currentSections`
        (and created there only when its key is new), children whose key is
        not required are removed, missing non-null sections are appended
        and the children are sorted with `compareSections`. */
    method DisplayResults()
      requires Consistent()
      modifies this
      ensures selectedTags == old(selectedTags) && fetchedTags == old(fetchedTags)
      ensures cachedOperators == old(cachedOperators)
      ensures hideCommon == old(hideCommon) && hideRobot == old(hideRobot)
      ensures Consistent() && ShowsSelection()
      ensures (currentSections, rendered) == Display(selectedTags, allTags, old(currentSections), old(rendered), cachedOperators)
      ensures Refreshed(Keys(Required(selectedTags, allTags)), old(currentSections), old(rendered), currentSections, rendered)
    {
      currentSections, rendered := Refresh(selectedTags, allTags, currentSections, rendered, cachedOperators);
    }

    /** `updateOperators`: requests the operators of the selected tags not
        fetched yet. On failure those tags leave the selection and nothing
        is rendered; otherwise the response is stored by id, the tags become
        fetched, and `displayResults` runs. */
    method UpdateOperators(outcome: FetchOutcome)
      requires Consistent()
      modifies this
      ensures hideCommon == old(hideCommon) && hideRobot == old(hideRobot)
      ensures Consistent()
      ensures var r := AfterRequest(old(selectedTags), old(fetchedTags), old(cachedOperators), outcome);
              selectedTags == r.selected && fetchedTags == r.fetched && cachedOperators == r.ops &&
              (r.display ==>
                 (currentSections, rendered) == Display(r.selected, allTags, old(currentSections), old(rendered), r.ops) &&
                 ShowsSelection() &&
                 Refreshed(Keys(Required(selectedTags, allTags)), old(currentSections), old(rendered), currentSections, rendered)) &&
              (!r.display ==> currentSections == old(currentSections) && rendered == old(rendered))
    {
      var r := SendRequest(selectedTags, fetchedTags, cachedOperators, outcome);
      SubsequenceNoDuplicates(r.selected, selectedTags);
      SubsequenceElements(r.selected, selectedTags);
      selectedTags, fetchedTags, cachedOperators := r.selected, r.fetched, r.ops;
      if r.display {
        DisplayResults();
      }
    }

    /** The change handler of a tag checkbox (`checked` is its new state),
        followed by `updateOperators` with the given outcome of the request. */
    method OnChange(id: int, checked: bool, outcome: FetchOutcome) returns (accepted: bool)
      requires Valid() && HasTag(allTags, id)
      modifies this
      ensures hideCommon == old(hideCommon) && hideRobot == old(hideRobot)
      ensures Valid()
      ensures accepted <==> !checked || |old(selectedTags)| < MaxTags
      ensures !accepted || (checked && id !in old(fetchedTags) && outcome.FetchFailed?) ==>
                selectedTags == old(selectedTags) && fetchedTags == old(fetchedTags) &&
                cachedOperators == old(cachedOperators) && currentSections == old(currentSections) &&
                rendered == old(rendered)
      ensures checked && id !in old(selectedTags) ==> (accepted <==> !old(TagDisabled(id)))
      ensures accepted && !checked ==>
                selectedTags == Delete(old(selectedTags), id) && fetchedTags == old(fetchedTags) &&
                cachedOperators == old(cachedOperators)
      ensures accepted && checked && id in old(fetchedTags) ==>
                selectedTags == Add(old(selectedTags), id) && fetchedTags == old(fetchedTags) &&
                cachedOperators == old(cachedOperators)
      ensures accepted && checked && id !in old(fetchedTags) && outcome.Fetched? ==>
                selectedTags == Add(old(selectedTags), id) && fetchedTags == old(fetchedTags) + {id} &&
                cachedOperators == StoreAll(old(cachedOperators), outcome.ops)
      ensures accepted && (!checked || id in old(fetchedTags) || outcome.Fetched?) ==>
                (currentSections, rendered) ==
                  Display(selectedTags, allTags, old(currentSections), old(rendered), cachedOperators)
    {
      if checked {
        accepted := Check(id, outcome);
      } else {
        Uncheck(id, outcome);
        accepted := true;
      }
    }

    /** A tag checked: refused while `maxTags` tags are selected; otherwise
        added. A failed request for a tag never fetched leaves everything as
        it was before the click. */
    method Check(id: int, outcome: FetchOutcome) returns (accepted: bool)
      requires Valid() && HasTag(allTags, id)
      modifies this
      ensures hideCommon == old(hideCommon) && hideRobot == old(hideRobot)
      ensures Valid()
      ensures accepted <==> |old(selectedTags)| < MaxTags
      ensures !accepted || (id !in old(fetchedTags) && outcome.FetchFailed?) ==>
                selectedTags == old(selectedTags) && fetchedTags == old(fetchedTags) &&
                cachedOperators == old(cachedOperators) && currentSections == old(currentSections) &&
                rendered == old(rendered)
      ensures id !in old(selectedTags) ==> (accepted <==> !old(TagDisabled(id)))
      ensures accepted && id in old(fetchedTags) ==>
                selectedTags == Add(old(selectedTags), id) && fetchedTags == old(fetchedTags) &&
                cachedOperators == old(cachedOperators)
      ensures accepted && id !in old(fetchedTags) && outcome.Fetched? ==>
                selectedTags == Add(old(selectedTags), id) && fetchedTags == old(fetchedTags) + {id} &&
                cachedOperators == StoreAll(old(cachedOperators), outcome.ops)
      ensures accepted && (id in old(fetchedTags) || outcome.Fetched?) ==>
                (currentSections, rendered) ==
                  Display(selectedTags, allTags, old(currentSections), old(rendered), cachedOperators)
    {
      if |selectedTags| >= MaxTags {
        return false;
      }
      accepted := true;
      if id in fetchedTags {
        AddFetched(id, outcome);
      } else {
        AddUnfetched(id, outcome);
      }
    }

    /** Checking a tag whose operators are cached: no request, the sections
        are redrawn. */
    method AddFetched(id: int, outcome: FetchOutcome)
      requires Valid() && HasTag(allTags, id) && |selectedTags| < MaxTags && id in fetchedTags
      modifies this
      ensures hideCommon == old(hideCommon) && hideRobot == old(hideRobot)
      ensures Valid()
      ensures selectedTags == Add(old(selectedTags), id) && fetchedTags == old(fetchedTags)
      ensures cachedOperators == old(cachedOperators)
      ensures (currentSections, rendered) == Display(selectedTags, allTags, old(currentSections), old(rendered), cachedOperators)
    {
      selectedTags := Add(selectedTags, id);
      NoRequest(selectedTags, fetchedTags, cachedOperators, outcome);
      UpdateOperators(outcome);
    }

    /** Checking a tag never fetched: its operators are requested; on failure
        the click is undone, otherwise the response is cached and the
        sections are redrawn. */
    method AddUnfetched(id: int, outcome: FetchOutcome)
      requires Valid() && HasTag(allTags, id) && |selectedTags| < MaxTags && id !in fetchedTags
      modifies this
      ensures hideCommon == old(hideCommon) && hideRobot == old(hideRobot)
      ensures Valid()
      ensures outcome.FetchFailed? ==>
                selectedTags == old(selectedTags) && fetchedTags == old(fetchedTags) &&
                cachedOperators == old(cachedOperators) && currentSections == old(currentSections) &&
                rendered == old(rendered)
      ensures outcome.Fetched? ==>
                selectedTags == Add(old(selectedTags), id) && fetchedTags == old(fetchedTags) + {id} &&
                cachedOperators == StoreAll(old(cachedOperators), outcome.ops) &&
                (currentSections, rendered) ==
                  Display(selectedTags, allTags, old(currentSections), old(rendered), cachedOperators)
    {
      ghost var selected0 := selectedTags;
      selectedTags := Add(selectedTags, id);
      assert selectedTags == selected0 + [id];
      match outcome {
        case FetchFailed => FailedRequestRestores(selected0, fetchedTags, cachedOperators, id);
        case Fetched(response) => SuccessfulRequestStores(selected0, fetchedTags, cachedOperators, id, response);
      }
      UpdateOperators(outcome);
    }

    /** A tag unchecked: removed from the selection; every remaining tag is
        fetched already, so no request is made and the sections are redrawn. */
    method Uncheck(id: int, outcome: FetchOutcome)
      requires Valid()
      modifies this
      ensures hideCommon == old(hideCommon) && hideRobot == old(hideRobot)
      ensures Valid()
      ensures selectedTags == Delete(old(selectedTags), id) && fetchedTags == old(fetchedTags)
      ensures cachedOperators == old(cachedOperators)
      ensures (currentSections, rendered) == Display(selectedTags, allTags, old(currentSections), old(rendered), cachedOperators)
    {
      ghost var selected0 := selectedTags;
      selectedTags := Delete(selectedTags, id);
      SubsequenceNoDuplicates(selectedTags, selected0);
      SubsequenceElements(selectedTags, selected0);
      NoRequest(selectedTags, fetchedTags, cachedOperators, outcome);
      UpdateOperators(outcome);
    }
  }

  lemma RemoveOneMore(selected: seq<int>, missing: seq<int>, i: nat)
    requires i < |missing|
    ensures RemoveAll(selected, missing[..i + 1]) == Delete(RemoveAll(selected, missing[..i]), missing[i])
  {
    assert missing[..i + 1] == missing[..i] + [missing[i]];
    RemoveAllDelete(selected, missing[..i], missing[i]);
  }

  /** Removing one more tag from what is left is deleting it. */
  lemma {:induction false} RemoveAllDelete(selected: seq<int>, gone: seq<int>, x: int)
    ensures RemoveAll(selected, gone + [x]) == Delete(RemoveAll(selected, gone), x)
    decreases |selected|
  {
    if |selected| > 0 {
      var front, last := selected[..|selected| - 1], selected[|selected| - 1];
      RemoveAllDelete(front, gone, x);
      DeleteSnoc(RemoveAll(front, gone), last, x);
    }
  }

  lemma {:induction false} DeleteSnoc(s: seq<int>, y: int, x: int)
    ensures Delete(s + [y], x) == Delete(s, x) + (if y == x then [] else [y])
    decreases |s|
  {
    if |s| == 0 {
      assert Delete([y], x) == (if y == x then [] else [y]) + Delete([], x);
    } else {
      assert (s + [y])[1..] == s[1..] + [y];
      DeleteSnoc(s[1..], y, x);
    }
  }

  lemma DedupSnoc(keys: seq<string>, k: string)
    ensures Dedup(keys + [k]) == if k in Dedup(keys) then Dedup(keys) else Dedup(keys) + [k]
  {
    assert (keys + [k])[..|keys|] == keys;
  }

  lemma ComboEntriesSnoc(combos: seq<seq<int>>, c: seq<int>, allTags: seq<Tag>)
    requires forall x :: x in combos + [c] ==> AllKnown(x, allTags)
    ensures ComboEntries(combos + [c], allTags) == ComboEntries(combos, allTags) + [ComboEntry(c, allTags)]
  {
  }
}
