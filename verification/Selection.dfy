/** The tag selection (public/static/src/script.js): a JavaScript `Set` of
    tag ids, kept in insertion order, capped at `maxTags`, and the
    disabled state `updateTagsState` gives each tag. */
module Selection {
  import opened Sequences

  /** `maxTags`. */
  const MaxTags: nat := 5

  /** `set.add(id)`: appended unless already present. */
  function Add(s: seq<int>, id: int): (r: seq<int>)
    ensures NoDuplicates(s) ==> NoDuplicates(r)
    ensures forall t :: t in r <==> t in s || t == id
    ensures IsSubsequence(s, r)
  {
    SubsequenceReflexive(s);
    if id in s then s
    else
      SubsequenceSnoc(s, s, id);
      if NoDuplicates(s) then NoDuplicatesSnoc(s, id); s + [id] else s + [id]
  }

  /** `set.delete(id)`: the others keep their order. */
  function Delete(s: seq<int>, id: int): (r: seq<int>)
    ensures IsSubsequence(r, s)
    ensures forall t :: t in r <==> t in s && t != id
  {
    if |s| == 0 then []
    else
      var rest := Delete(s[1..], id);
      assert s == [s[0]] + s[1..];
      assert forall t :: t in s <==> t == s[0] || t in s[1..];
      if s[0] == id then rest else [s[0]] + rest
  }

  /** Deleting a tag that was just added restores the selection. */
  lemma DeleteUndoesAdd(s: seq<int>, id: int)
    requires id !in s
    ensures Delete(Add(s, id), id) == s
  {
    DeleteAbsent(s, id);
    DeleteLast(s, id);
  }

  lemma {:induction false} DeleteAbsent(s: seq<int>, id: int)
    requires id !in s
    ensures Delete(s, id) == s
  {
    if |s| > 0 {
      DeleteAbsent(s[1..], id);
      assert s == [s[0]] + s[1..];
    }
  }

  lemma {:induction false} DeleteLast(s: seq<int>, id: int)
    ensures Delete(s + [id], id) == Delete(s, id)
  {
    if |s| > 0 {
      assert (s + [id])[1..] == s[1..] + [id];
      DeleteLast(s[1..], id);
    }
  }

  /** `reachedMax`: the selection holds `maxTags` tags or more. */
  predicate LimitReached(s: seq<int>) {
    |s| >= MaxTags
  }

  /** `aria-disabled` of a tag after `updateTagsState`: unchecked tags are
      disabled exactly when the limit is reached, checked ones never. */
  function TagDisabled(s: seq<int>, id: int): (r: bool)
    ensures r ==> id !in s
    ensures id !in s ==> (r <==> |s| >= MaxTags)
  {
    if id in s then false else LimitReached(s)
  }

  /** An unchecked tag is shown enabled exactly when checking it keeps the
      selection within `maxTags`: the change handler accepts the tags
      `updateTagsState` leaves enabled and refuses the disabled ones. */
  lemma EnabledIffFits(s: seq<int>, id: int)
    requires |s| <= MaxTags && id !in s
    ensures !TagDisabled(s, id) <==> |Add(s, id)| <= MaxTags
  {
    assert Add(s, id) == s + [id];
  }

  /** Checking the tag that fills the last free place disables every tag
      left unchecked. */
  lemma LastPlaceDisablesRest(s: seq<int>, id: int, other: int)
    requires |s| == MaxTags - 1 && id !in s && other !in Add(s, id)
    ensures TagDisabled(Add(s, id), other)
  {
    assert Add(s, id) == s + [id];
  }

  /** Unchecking a selected tag re-enables every tag. */
  lemma UncheckEnablesAll(s: seq<int>, id: int, other: int)
    requires NoDuplicates(s) && |s| <= MaxTags && id in s
    ensures !TagDisabled(Delete(s, id), other)
  {
    DeleteLength(s, id);
  }

  /** Deleting a tag that occurs once shortens the selection by one. */
  lemma {:induction false} DeleteLength(s: seq<int>, id: int)
    requires NoDuplicates(s) && id in s
    ensures |Delete(s, id)| == |s| - 1
  {
    assert s == [s[0]] + s[1..];
    if s[0] == id {
      assert id !in s[1..];
      DeleteAbsent(s[1..], id);
    } else {
      DeleteLength(s[1..], id);
    }
  }
}
