/** The fetch gap of `updateOperators` (public/static/src/script.js): which
    selected tags still need a request, the operator cache keyed by id, and
    the selection left after a failed request. */
module Fetching {
  import opened Sequences
  import opened Maybe
  import opened Sections

  /** The outcome of `fetchRecruitableOperators(missingTags)`: the operators
      returned, or a thrown error. */
  datatype FetchOutcome = Fetched(ops: seq<Operator>) | FetchFailed

  /** `missingTags`: the selected tags not fetched yet, in selection order. */
  function Missing(selected: seq<int>, fetched: set<int>): (r: seq<int>)
    ensures IsSubsequence(r, selected)
    ensures forall t :: t in r <==> t in selected && t !in fetched
  {
    if |selected| == 0 then []
    else
      var last := selected[|selected| - 1];
      var front := Missing(selected[..|selected| - 1], fetched);
      assert selected == selected[..|selected| - 1] + [last];
      SubsequenceSnoc(front, selected[..|selected| - 1], last);
      if last in fetched then front else front + [last]
  }

  /** The selection after `selectedTags.delete` of every tag in `gone`. */
  function RemoveAll(selected: seq<int>, gone: seq<int>): (r: seq<int>)
    ensures IsSubsequence(r, selected)
    ensures forall t :: t in r <==> t in selected && t !in gone
  {
    if |selected| == 0 then []
    else
      var last := selected[|selected| - 1];
      var front := RemoveAll(selected[..|selected| - 1], gone);
      assert selected == selected[..|selected| - 1] + [last];
      SubsequenceSnoc(front, selected[..|selected| - 1], last);
      if last in gone then front else front + [last]
  }

  /** After a failed request the selection holds only fetched tags. */
  lemma RollbackLeavesFetched(selected: seq<int>, fetched: set<int>)
    ensures forall t :: t in RemoveAll(selected, Missing(selected, fetched)) <==> t in selected && t in fetched
  {
  }

  /** Removing nothing changes nothing. */
  lemma {:induction false} RemoveNone(selected: seq<int>, gone: seq<int>)
    requires forall t :: t in selected ==> t !in gone
    ensures RemoveAll(selected, gone) == selected
  {
    if |selected| > 0 {
      RemoveNone(selected[..|selected| - 1], gone);
      assert selected == selected[..|selected| - 1] + [selected[|selected| - 1]];
    }
  }

  /** A fully fetched selection needs no request. */
  lemma {:induction false} NothingMissing(selected: seq<int>, fetched: set<int>)
    requires forall t :: t in selected ==> t in fetched
    ensures Missing(selected, fetched) == []
  {
    if |selected| > 0 {
      NothingMissing(selected[..|selected| - 1], fetched);
    }
  }

  /** If the selection was fully fetched before one new tag was added, a
      failed request for it restores the earlier selection exactly. */
  lemma RollbackRestores(selected: seq<int>, fetched: set<int>, id: int)
    requires forall t :: t in selected ==> t in fetched
    requires id !in fetched
    ensures Missing(selected + [id], fetched) == [id]
    ensures RemoveAll(selected + [id], [id]) == selected
  {
    var s := selected + [id];
    assert s[..|s| - 1] == selected;
    NothingMissing(selected, fetched);
    assert id !in selected;
    RemoveNone(selected, [id]);
  }

  /** Distinct operator ids, as the keys of a `Map`. */
  predicate UniqueIds(ops: seq<Operator>) {
    forall i, j :: 0 <= i < j < |ops| ==> ops[i].id != ops[j].id
  }

  /** `map.get(id)`. */
  function Lookup(ops: seq<Operator>, id: string): (r: Option<Operator>)
    ensures r.Some? ==> r.value in ops && r.value.id == id
    ensures r.None? <==> forall op :: op in ops ==> op.id != id
  {
    if |ops| == 0 then None
    else if ops[0].id == id then Some(ops[0])
    else
      assert forall op :: op in ops <==> op == ops[0] || op in ops[1..] by {
        assert ops == [ops[0]] + ops[1..];
      }
      Lookup(ops[1..], id)
  }

  /** `cachedOperators.set(op.id, op)`: an existing entry is replaced in
      place, a new one goes last. */
  function Upsert(ops: seq<Operator>, op: Operator): (r: seq<Operator>)
    requires UniqueIds(ops)
    ensures UniqueIds(r)
    ensures forall x :: x in r ==> x == op || (x in ops && x.id != op.id)
    ensures forall x :: x in ops && x.id != op.id ==> x in r
    ensures op in r
  {
    if |ops| == 0 then [op]
    else if ops[0].id == op.id then
      assert forall x :: x in ops <==> x == ops[0] || x in ops[1..] by {
        assert ops == [ops[0]] + ops[1..];
      }
      [op] + ops[1..]
    else
      assert UniqueIds(ops[1..]);
      var rest := Upsert(ops[1..], op);
      assert forall x :: x in ops <==> x == ops[0] || x in ops[1..] by {
        assert ops == [ops[0]] + ops[1..];
      }
      [ops[0]] + rest
  }

  /** After `set`, `get` returns the new record for its id and the old
      entry for every other id. */
  lemma UpsertLookup(ops: seq<Operator>, op: Operator, id: string)
    requires UniqueIds(ops)
    ensures Lookup(Upsert(ops, op), id) == if id == op.id then Some(op) else Lookup(ops, id)
  {
    var r := Upsert(ops, op);
    assert UniqueIds(r);
    UniqueLookup(r, op);
    if id != op.id {
      match Lookup(ops, id)
      case Some(x) =>
        UniqueLookup(ops, x);
        UniqueLookup(r, x);
      case None =>
    }
  }

  /** With unique ids, looking up the id of an entry finds that entry. */
  lemma UniqueLookup(ops: seq<Operator>, x: Operator)
    requires UniqueIds(ops) && x in ops
    ensures Lookup(ops, x.id) == Some(x)
  {
    if ops[0] != x {
      assert x in ops[1..] by { assert ops == [ops[0]] + ops[1..]; }
      var k :| 0 <= k < |ops[1..]| && ops[1..][k] == x;
      assert ops[0].id != ops[k + 1].id;
      UniqueLookup(ops[1..], x);
    }
  }

  /** `fetchedOperators.forEach(op => cachedOperators.set(op.id, op))`. */
  function StoreAll(ops: seq<Operator>, fetched: seq<Operator>): (r: seq<Operator>)
    requires UniqueIds(ops)
    ensures UniqueIds(r)
  {
    if |fetched| == 0 then ops
    else Upsert(StoreAll(ops, fetched[..|fetched| - 1]), fetched[|fetched| - 1])
  }

  /** The last record with the given id in a response. */
  function LastWithId(fetched: seq<Operator>, id: string): (r: Option<Operator>)
    ensures r.Some? ==> r.value in fetched && r.value.id == id
    ensures r.None? <==> forall op :: op in fetched ==> op.id != id
  {
    if |fetched| == 0 then None
    else if fetched[|fetched| - 1].id == id then Some(fetched[|fetched| - 1])
    else
      assert forall x :: x in fetched <==> x in fetched[..|fetched| - 1] || x == fetched[|fetched| - 1] by {
        assert fetched == fetched[..|fetched| - 1] + [fetched[|fetched| - 1]];
      }
      LastWithId(fetched[..|fetched| - 1], id)
  }

  /** After storing a response, an id carried by the response maps to its
      last record there (a later record overwrites an earlier one), and
      every other id keeps its cached record. */
  lemma {:induction false} StoreAllLookup(ops: seq<Operator>, fetched: seq<Operator>, id: string)
    requires UniqueIds(ops)
    ensures Lookup(StoreAll(ops, fetched), id) ==
            if LastWithId(fetched, id).Some? then LastWithId(fetched, id) else Lookup(ops, id)
  {
    if |fetched| > 0 {
      var front := fetched[..|fetched| - 1];
      StoreAllLookup(ops, front, id);
      UpsertLookup(StoreAll(ops, front), fetched[|fetched| - 1], id);
    }
  }

  /** The state `updateOperators` leaves before it renders: the selection,
      the fetched tags, the operator cache, and whether `displayResults` runs. */
  datatype Request = Request(selected: seq<int>, fetched: set<int>, ops: seq<Operator>, display: bool)

  /** `updateOperators` up to `displayResults`: nothing to request, a failed
      request (the missing tags leave the selection), or a response stored
      by id with the missing tags marked fetched. */
  function AfterRequest(selected: seq<int>, fetched: set<int>, ops: seq<Operator>, outcome: FetchOutcome): (r: Request)
    requires UniqueIds(ops)
    ensures UniqueIds(r.ops)
    ensures IsSubsequence(r.selected, selected)
    ensures forall t :: t in r.selected ==> t in r.fetched
    ensures r.display <==> Missing(selected, fetched) == [] || outcome.Fetched?
    ensures r.display ==> r.selected == selected && fetched <= r.fetched
    ensures !r.display ==> r.fetched == fetched && r.ops == ops && forall t :: t in selected && t in fetched ==> t in r.selected
  {
    var missing := Missing(selected, fetched);
    SubsequenceReflexive(selected);
    if |missing| == 0 then Request(selected, fetched, ops, true)
    else
      match outcome
      case FetchFailed => Request(RemoveAll(selected, missing), fetched, ops, false)
      case Fetched(response) => Request(selected, fetched + (set t | t in missing), StoreAll(ops, response), true)
  }

  /** With every selected tag fetched, `updateOperators` makes no request and renders. */
  lemma NoRequest(selected: seq<int>, fetched: set<int>, ops: seq<Operator>, outcome: FetchOutcome)
    requires UniqueIds(ops)
    requires forall t :: t in selected ==> t in fetched
    ensures AfterRequest(selected, fetched, ops, outcome) == Request(selected, fetched, ops, true)
  {
    NothingMissing(selected, fetched);
    assert (set t | t in Missing(selected, fetched)) == {};
  }

  /** A failed request for one tag added to a fully fetched selection
      restores the selection and renders nothing. */
  lemma FailedRequestRestores(selected: seq<int>, fetched: set<int>, ops: seq<Operator>, id: int)
    requires UniqueIds(ops)
    requires forall t :: t in selected ==> t in fetched
    requires id !in fetched
    ensures AfterRequest(selected + [id], fetched, ops, FetchFailed) == Request(selected, fetched, ops, false)
  {
    RollbackRestores(selected, fetched, id);
  }

  /** A successful request for one tag added to a fully fetched selection
      caches the response and marks that tag fetched. */
  lemma SuccessfulRequestStores(selected: seq<int>, fetched: set<int>, ops: seq<Operator>, id: int, response: seq<Operator>)
    requires UniqueIds(ops)
    requires forall t :: t in selected ==> t in fetched
    requires id !in fetched
    ensures AfterRequest(selected + [id], fetched, ops, Fetched(response)) ==
            Request(selected + [id], fetched + {id}, StoreAll(ops, response), true)
  {
    RollbackRestores(selected, fetched, id);
    assert (set t | t in [id]) == {id};
  }
}
