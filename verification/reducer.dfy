/**
 The reduce phase (`MockReduce.Reduce` in src/reduce.js): a run resets the
 reduced data and turns every input item `{_id, value: [...]}` into
 `{_id, value: reduced}`. A value list with more than one element goes to the
 reduce function; a shorter list is passed through as its first element, which
 for an empty list is JavaScript's `undefined` (`None` here). The reduce
 function is a parameter; the calls it receives are returned as a log.
 */
module Reducer {
  import opened Wrappers
  import opened Values
  import opened Grouping
  import opened Mapper

  /** One entry of the reduced data; `None` stands for `undefined`. */
  datatype Reduced = Reduced(id: Val, value: Option<Val>)

  /** `_reducedData` of one `MockReduce.Reduce` instance. */
  datatype ReduceState = ReduceState(reducedData: seq<Reduced>)

  /** The state a fresh instance has, and the one `_resetReducedData` restores. */
  function ResetReducedData(): (st: ReduceState)
    ensures |st.reducedData| == 0
  {
    ReduceState([])
  }

  function GetReducedData(st: ReduceState): seq<Reduced>
  {
    st.reducedData
  }

  /** The reduced entry for one input item. */
  function ReduceItem(g: Group, reduceFn: (Val, seq<Val>) -> Val): (r: Reduced)
    ensures r.id == g.id
    ensures r.value.None? <==> |g.values| == 0
  {
    if |g.values| > 1 then Reduced(g.id, Some(reduceFn(g.id, g.values)))
    else if |g.values| == 1 then Reduced(g.id, Some(g.values[0]))
    else Reduced(g.id, None)
  }

  /** The `(id, values)` arguments of the reduce-function calls a run makes, in order. */
  function CallsOf(input: seq<Group>): (calls: seq<(Val, seq<Val>)>)
    ensures |calls| <= |input|
    ensures forall c :: c in calls <==>
              exists i :: 0 <= i < |input| && |input[i].values| > 1 && c == (input[i].id, input[i].values)
  {
    if |input| == 0 then []
    else
      var g := input[|input| - 1];
      var front := input[..|input| - 1];
      var calls := CallsOf(front) + (if |g.values| > 1 then [(g.id, g.values)] else []);
      assert forall i :: 0 <= i < |front| ==> front[i] == input[i];
      calls
  }

  /**
   `run(testData, reduceFunction)`. Whatever the instance held before, the
   answer has one entry per input item, in input order, with the item's id:
   a list of two or more values is replaced by the reduce function's result,
   a one-value list by its value, an empty list by `undefined`; and
   `getReducedData()` afterwards answers the result. `calls` is a trace: the
   branch that applies the reduce function appends its arguments, so it lists
   the items with two or more values, in order. That the function is really
   applied to them is the clause on `out[i].value`.
   */
  method Run(st: ReduceState, input: seq<Group>, reduceFn: (Val, seq<Val>) -> Val)
    returns (st': ReduceState, out: seq<Reduced>, calls: seq<(Val, seq<Val>)>)
    ensures |out| == |input|
    ensures forall i :: 0 <= i < |out| ==> out[i].id == input[i].id
    ensures forall i :: 0 <= i < |out| && |input[i].values| > 1 ==>
              out[i].value == Some(reduceFn(input[i].id, input[i].values))
    ensures forall i :: 0 <= i < |out| && |input[i].values| == 1 ==>
              out[i].value == Some(input[i].values[0])
    ensures forall i :: 0 <= i < |out| && |input[i].values| == 0 ==> out[i].value.None?
    ensures calls == CallsOf(input)
    ensures GetReducedData(st') == out
  {
    st' := ResetReducedData();
    calls := [];
    var i := 0;
    while i < |input|
      invariant i <= |input|
      invariant |st'.reducedData| == i
      invariant forall k :: 0 <= k < i ==> st'.reducedData[k] == ReduceItem(input[k], reduceFn)
      invariant calls == CallsOf(input[..i])
    {
      var item := input[i];
      var reducedValue: Option<Val>;
      if |item.values| > 1 {
        reducedValue := Some(reduceFn(item.id, item.values));
        calls := calls + [(item.id, item.values)];
      } else if |item.values| == 1 {
        reducedValue := Some(item.values[0]);
      } else {
        reducedValue := None;
      }
      st' := ReduceState(st'.reducedData + [Reduced(item.id, reducedValue)]);
      assert input[..i + 1][..i] == input[..i];
      i := i + 1;
    }
    assert input[..i] == input;
    out := GetReducedData(st');
  }

  /**
   Reducing what a map run answers never meets an empty value list, so no
   reduced value is `undefined`; the reduce function is called exactly for
   the groups holding two or more emitted values.
   */
  lemma {:induction false} MapThenReduceDefined(emits: seq<Emission>, reduceFn: (Val, seq<Val>) -> Val)
    ensures var gs := MappedData(GroupAll(emits));
            forall i :: 0 <= i < |gs| ==> ReduceItem(gs[i], reduceFn).value.Some?
  {
    var t := GroupAll(emits);
    var gs := MappedData(t);
    forall i | 0 <= i < |gs| ensures |gs[i].values| > 0 {
      assert gs[i] in multiset(GroupsOf(t));
      var k :| 0 <= k < |t| && GroupsOf(t)[k] == gs[i];
    }
  }
}
