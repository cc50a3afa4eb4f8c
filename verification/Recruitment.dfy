/** `filterOperators` (public/static/src/recruitment.js): selects the operator
    records that pass the recruitment gate, every condition of the `all`
    block and, when it is not empty, at least one condition of the `any`
    block. The input is never changed; the result keeps the input order.
    A condition on `tagList` or `powers` calls `includes` on the record's
    field: an array is searched for the value, a string for the value's
    text, and a number or a boolean has no `includes`, so the call throws a
    `TypeError` that ends the whole call. */
module Recruitment {
  import opened Sequences

  /** A JavaScript scalar as it occurs in operator records and filters
      (numbers are integers here). */
  datatype Value = Str(s: string) | Num(n: int) | Bool(b: bool) | Null | Undefined

  /** A record field or a filter value: a scalar or an array of scalars. */
  datatype Field = Scalar(v: Value) | List(items: seq<Value>)

  /** An operator record: its own enumerable properties. */
  type Record = map<string, Field>

  /** The entries of a filter block in the order `for ... in` and
      `Object.entries` visit them. */
  type Block = seq<(string, Field)>

  /** `filters.all` and `filters.any`; an absent block is the empty one (`filters.all || {}`). */
  datatype Filters = Filters(all: Block, any: Block)

  /** What evaluating a condition, or the whole predicate, comes to: it
      holds, it does not, or it throws a `TypeError`. */
  datatype Test = Pass | Fail | TypeError

  /** The value of `data.filter(...)`, or the `TypeError` it threw. */
  datatype Filtered = Selected(records: seq<Record>) | Threw

  /** `char[key]`: a missing property reads as `undefined`. */
  function Get(r: Record, key: string): Field {
    if key in r then r[key] else Scalar(Undefined)
  }

  /** The two keys whose conditions call `includes` on the record's field. */
  predicate IsListKey(key: string) {
    key == "tagList" || key == "powers"
  }

  /** `needle` occurs in `hay` as a contiguous piece. */
  predicate Contains(hay: string, needle: string)
    decreases |hay|
  {
    needle <= hay || (|hay| > 0 && Contains(hay[1..], needle))
  }

  function DigitChar(d: nat): char
    requires d < 10
  {
    (48 + d) as char
  }

  /** The decimal digits of a natural number. */
  function NatText(n: nat): string
    decreases n
  {
    if n < 10 then [DigitChar(n)] else NatText(n / 10) + [DigitChar(n % 10)]
  }

  /** `String(v)`, the text `String.prototype.includes` searches for. */
  function Text(v: Value): string {
    match v
    case Str(s) => s
    case Num(n) => if n < 0 then "-" + NatText(-n) else NatText(n)
    case Bool(b) => if b then "true" else "false"
    case Null => "null"
    case Undefined => "undefined"
  }

  /** The record's field under `key` is a number or a boolean, which has no `includes`. */
  predicate NoIncludes(r: Record, key: string) {
    Get(r, key).Scalar? && (Get(r, key).v.Num? || Get(r, key).v.Bool?)
  }

  /** `char[key]?.includes(v)`: `undefined` (falsy) for `null` or `undefined`,
      membership for an array, a substring test for a string, and a
      `TypeError` otherwise. */
  function Includes(r: Record, key: string, v: Value): (t: Test)
    ensures t == TypeError <==> NoIncludes(r, key)
  {
    match Get(r, key)
    case List(items) => if v in items then Pass else Fail
    case Scalar(x) =>
      match x
      case Str(s) => if Contains(s, Text(v)) then Pass else Fail
      case Null => Fail
      case Undefined => Fail
      case Num(_) => TypeError
      case Bool(_) => TypeError
  }

  /** `vs.every(v => char[key]?.includes(v))`, stopping at the first value
      that is not found or throws. */
  function Every(r: Record, key: string, vs: seq<Value>): (t: Test)
    ensures t == TypeError <==> |vs| > 0 && NoIncludes(r, key)
    ensures t == Pass <==> forall v :: v in vs ==> Includes(r, key, v) == Pass
  {
    if |vs| == 0 then Pass
    else
      assert forall v :: v in vs <==> v == vs[0] || v in vs[1..] by {
        assert vs == [vs[0]] + vs[1..];
      }
      var t := Includes(r, key, vs[0]);
      if t == Pass then Every(r, key, vs[1..]) else t
  }

  /** `vs.some(v => char[key]?.includes(v))`, stopping at the first value
      that is found or throws. */
  function SomeOf(r: Record, key: string, vs: seq<Value>): (t: Test)
    ensures t == TypeError <==> |vs| > 0 && NoIncludes(r, key)
    ensures t == Pass <==> exists v :: v in vs && Includes(r, key, v) == Pass
  {
    if |vs| == 0 then Fail
    else
      assert forall v :: v in vs <==> v == vs[0] || v in vs[1..] by {
        assert vs == [vs[0]] + vs[1..];
      }
      var t := Includes(r, key, vs[0]);
      if t == Fail then SomeOf(r, key, vs[1..]) else t
  }

  /** `list.includes(char[key])`: the record's scalar field is one of `list`
      (an array-valued field is never found: arrays compare by identity). */
  predicate FieldIn(r: Record, key: string, list: seq<Value>) {
    Get(r, key).Scalar? && Get(r, key).v in list
  }

  /** The recruitment gate: with `recruitmentStatus`, `recruitment === null` excludes the record. */
  predicate PassesGate(r: Record, recruitmentStatus: bool) {
    !(recruitmentStatus && Get(r, "recruitment") == Scalar(Null))
  }

  /** One entry of the `all` block. */
  function AllCondition(r: Record, key: string, value: Field): Test {
    match value
    case List(vs) =>
      if IsListKey(key) then Every(r, key, vs)
      else if FieldIn(r, key, vs) then Pass else Fail
    case Scalar(v) =>
      if IsListKey(key) then Includes(r, key, v)
      else if Get(r, key) == Scalar(v) then Pass else Fail
  }

  /** One entry of the `any` block; a scalar value is read as a one-element list. */
  function AnyCondition(r: Record, key: string, value: Field): Test {
    var list := if value.List? then value.items else [value.v];
    if IsListKey(key) then SomeOf(r, key, list)
    else if FieldIn(r, key, list) then Pass else Fail
  }

  /** The `for ... in` loop over the `all` block: the first entry that does
      not pass decides. */
  function AllBlock(r: Record, all: Block): (t: Test)
    ensures t == Pass <==> forall e :: e in all ==> AllCondition(r, e.0, e.1) == Pass
    ensures t == TypeError ==> exists e :: e in all && AllCondition(r, e.0, e.1) == TypeError
  {
    if |all| == 0 then Pass
    else
      assert forall e :: e in all <==> e == all[0] || e in all[1..] by {
        assert all == [all[0]] + all[1..];
      }
      var t := AllCondition(r, all[0].0, all[0].1);
      if t == Pass then AllBlock(r, all[1..]) else t
  }

  /** `Object.entries(any).some(...)`: the first entry that does not fail decides. */
  function AnyEntries(r: Record, any: Block): (t: Test)
    ensures t == Fail <==> forall e :: e in any ==> AnyCondition(r, e.0, e.1) == Fail
    ensures t == Pass ==> exists e :: e in any && AnyCondition(r, e.0, e.1) == Pass
    ensures t == TypeError ==> exists e :: e in any && AnyCondition(r, e.0, e.1) == TypeError
  {
    if |any| == 0 then Fail
    else
      assert forall e :: e in any <==> e == any[0] || e in any[1..] by {
        assert any == [any[0]] + any[1..];
      }
      var t := AnyCondition(r, any[0].0, any[0].1);
      if t == Fail then AnyEntries(r, any[1..]) else t
  }

  /** The `any` block: skipped when it has no entries. */
  function AnyBlock(r: Record, any: Block): Test {
    if |any| == 0 then Pass else AnyEntries(r, any)
  }

  /** The predicate handed to `data.filter`, in its order: gate, `all`, `any`. */
  function Eval(r: Record, filters: Filters, recruitmentStatus: bool): Test {
    if !PassesGate(r, recruitmentStatus) then Fail
    else
      var a := AllBlock(r, filters.all);
      if a != Pass then a else AnyBlock(r, filters.any)
  }

  /** `filterOperators(data, filters, recruitmentStatus = true)`. It throws
      exactly when the predicate throws on some record; otherwise the result
      holds the records the predicate accepts, in input order. */
  function FilterOperators(data: seq<Record>, filters: Filters, recruitmentStatus: bool := true): (r: Filtered)
    ensures r.Threw? <==> exists x :: x in data && Eval(x, filters, recruitmentStatus) == TypeError
    ensures r.Selected? ==> IsSubsequence(r.records, data)
    ensures r.Selected? ==> forall x :: x in r.records <==> x in data && Eval(x, filters, recruitmentStatus) == Pass
  {
    if |data| == 0 then Selected([])
    else
      assert data == [data[0]] + data[1..];
      assert forall x :: x in data <==> x == data[0] || x in data[1..];
      var t := Eval(data[0], filters, recruitmentStatus);
      if t == TypeError then Threw
      else
        var rest := FilterOperators(data[1..], filters, recruitmentStatus);
        if rest.Threw? then Threw
        else if t == Pass then Selected([data[0]] + rest.records)
        else Selected(rest.records)
  }

  /** Each accepted record is kept as often as it occurs; no other is kept. */
  lemma {:induction false} FilterOperatorsCounts(data: seq<Record>, filters: Filters, recruitmentStatus: bool)
    ensures var r := FilterOperators(data, filters, recruitmentStatus);
            r.Selected? ==>
              forall x :: multiset(r.records)[x] ==
                          if Eval(x, filters, recruitmentStatus) == Pass then multiset(data)[x] else 0
  {
    if |data| > 0 {
      FilterOperatorsCounts(data[1..], filters, recruitmentStatus);
      assert data == [data[0]] + data[1..];
    }
  }

  /** With the gate off and no filters the input comes back unchanged. */
  lemma {:induction false} NoFiltersIsIdentity(data: seq<Record>)
    ensures FilterOperators(data, Filters([], []), false) == Selected(data)
  {
    if |data| > 0 {
      NoFiltersIsIdentity(data[1..]);
      assert data == [data[0]] + data[1..];
    }
  }

  /** With the gate on, a record whose `recruitment` is `null` is dropped
      before any condition is evaluated; a record without `recruitment` is
      judged as with the gate off. */
  lemma RecruitmentGate(r: Record, filters: Filters)
    ensures Get(r, "recruitment") == Scalar(Null) ==> Eval(r, filters, true) == Fail
    ensures "recruitment" !in r ==> Eval(r, filters, true) == Eval(r, filters, false)
  {
  }

  /** For `tagList` and `powers`, a record without that field fails every
      non-empty condition on it, in either block, without throwing. */
  lemma MissingListFails(r: Record, key: string, value: Field)
    requires IsListKey(key) && key !in r
    requires value.Scalar? || |value.items| > 0
    ensures AllCondition(r, key, value) == Fail
    ensures AnyCondition(r, key, value) == Fail
  {
    if value.List? {
      assert Includes(r, key, value.items[0]) == Fail;
    }
  }

  /** For `tagList` and `powers`, a string field is searched for the text of
      the value: `{tagList: "Melee"}` passes the condition `"Mel"`. */
  lemma StringFieldIsSearched(r: Record, key: string, s: string, v: Value)
    requires IsListKey(key) && Get(r, key) == Scalar(Str(s))
    ensures AllCondition(r, key, Scalar(v)) == (if Contains(s, Text(v)) then Pass else Fail)
    ensures AnyCondition(r, key, Scalar(v)) == AllCondition(r, key, Scalar(v))
    ensures Contains("Melee", "Mel")
  {
    assert "Mel" <= "Melee";
  }

  /** The predicate throws only on a record holding a number or a boolean
      under `tagList` or `powers`. */
  lemma {:induction false} TypeErrorNeedsNoIncludes(r: Record, filters: Filters, recruitmentStatus: bool)
    requires Eval(r, filters, recruitmentStatus) == TypeError
    ensures NoIncludes(r, "tagList") || NoIncludes(r, "powers")
  {
    if AllBlock(r, filters.all) == TypeError {
      var e :| e in filters.all && AllCondition(r, e.0, e.1) == TypeError;
    } else {
      var e :| e in filters.any && AnyCondition(r, e.0, e.1) == TypeError;
    }
  }

  /** ... and it does throw on such a record that passes the gate when the
      first `all` entry is a condition on that field. */
  lemma FirstConditionThrows(r: Record, filters: Filters, recruitmentStatus: bool, key: string, v: Value)
    requires IsListKey(key) && NoIncludes(r, key) && PassesGate(r, recruitmentStatus)
    requires |filters.all| > 0 && filters.all[0] == (key, Scalar(v))
    ensures Eval(r, filters, recruitmentStatus) == TypeError
  {
  }

  /** When no record holds a number or a boolean under `tagList` or
      `powers`, `filterOperators` returns a value. */
  lemma NoIncludesFreeSelects(data: seq<Record>, filters: Filters, recruitmentStatus: bool)
    requires forall x :: x in data ==> !NoIncludes(x, "tagList") && !NoIncludes(x, "powers")
    ensures FilterOperators(data, filters, recruitmentStatus).Selected?
  {
    if FilterOperators(data, filters, recruitmentStatus).Threw? {
      var x :| x in data && Eval(x, filters, recruitmentStatus) == TypeError;
      TypeErrorNeedsNoIncludes(x, filters, recruitmentStatus);
    }
  }

  /** A record the predicate accepts with one more `all` entry, wherever
      that entry is visited, is accepted without it. */
  lemma AddingAllConditionKeeps(r: Record, filters: Filters, recruitmentStatus: bool,
                                i: nat, key: string, value: Field)
    requires i <= |filters.all|
    ensures var narrower := Filters(filters.all[..i] + [(key, value)] + filters.all[i..], filters.any);
            Eval(r, narrower, recruitmentStatus) == Pass ==> Eval(r, filters, recruitmentStatus) == Pass
  {
    var all' := filters.all[..i] + [(key, value)] + filters.all[i..];
    if AllBlock(r, all') == Pass {
      forall e | e in filters.all ensures AllCondition(r, e.0, e.1) == Pass {
        assert filters.all == filters.all[..i] + filters.all[i..];
        assert e in all';
      }
    }
  }

  /** Adding an `all` entry can only remove records from the result, and it
      keeps the order of those that remain. */
  lemma {:induction false} AddingAllConditionNarrows(data: seq<Record>, filters: Filters, recruitmentStatus: bool,
                                                     i: nat, key: string, value: Field)
    requires i <= |filters.all|
    ensures var narrower := Filters(filters.all[..i] + [(key, value)] + filters.all[i..], filters.any);
            var a, b := FilterOperators(data, narrower, recruitmentStatus), FilterOperators(data, filters, recruitmentStatus);
            a.Selected? && b.Selected? ==> IsSubsequence(a.records, b.records)
  {
    var narrower := Filters(filters.all[..i] + [(key, value)] + filters.all[i..], filters.any);
    var a, b := FilterOperators(data, narrower, recruitmentStatus), FilterOperators(data, filters, recruitmentStatus);
    if |data| > 0 && a.Selected? && b.Selected? {
      AddingAllConditionNarrows(data[1..], filters, recruitmentStatus, i, key, value);
      var a', b' := FilterOperators(data[1..], narrower, recruitmentStatus), FilterOperators(data[1..], filters, recruitmentStatus);
      var x := data[0];
      AddingAllConditionKeeps(x, filters, recruitmentStatus, i, key, value);
      if Eval(x, narrower, recruitmentStatus) == Pass {
        assert a.records == [x] + a'.records && b.records == [x] + b'.records;
        assert ([x] + a'.records)[1..] == a'.records && ([x] + b'.records)[1..] == b'.records;
      } else if Eval(x, filters, recruitmentStatus) == Pass {
        assert a.records == a'.records && b.records == [x] + b'.records;
        assert ([x] + b'.records)[1..] == b'.records;
      }
    }
  }
}
