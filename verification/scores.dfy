/**
 The score table. The source keeps scores in a plain object keyed by name;
 such an object remembers the order in which its keys were first inserted,
 and that order is the order in which its entries are later enumerated. So
 a table is modelled as that key order plus the key-to-score map. Two kinds
 of name behave otherwise in a plain object and are not modelled: names
 that are array indices such as "7" (enumerated first, in numeric order)
 and "__proto__" (assignment sets the prototype and creates no key).
 */
module Scores {
  import opened Items

  datatype ScoreTable = ScoreTable(order: seq<string>, value: map<string, int>)

  /** Every key is listed once in insertion order, and nothing else is. */
  ghost predicate Wf(t: ScoreTable)
  {
    Distinct(t.order) && forall x :: x in t.value <==> x in t.order
  }

  /** The empty object `{}`. */
  const Empty: ScoreTable := ScoreTable([], map[])

  /** `scores[name] = v`: a new key goes to the end of the key order, an existing key keeps its place. */
  function Put(t: ScoreTable, name: string, v: int): (r: ScoreTable)
    requires Wf(t)
    ensures Wf(r)
    ensures r.value == t.value[name := v]
    ensures name in t.value ==> r.order == t.order
    ensures name !in t.value ==> r.order == t.order + [name]
  {
    if name in t.value then ScoreTable(t.order, t.value[name := v])
    else ScoreTable(t.order + [name], t.value[name := v])
  }

  /** `scores[name] += d` on a key that is present; the key order is untouched. */
  function Bump(t: ScoreTable, name: string, d: int): (r: ScoreTable)
    requires name in t.value
    ensures Wf(t) ==> Wf(r)
    ensures r.order == t.order
    ensures r.value.Keys == t.value.Keys
    ensures r.value[name] == t.value[name] + d
    ensures forall x :: x in t.value && x != name ==> r.value[x] == t.value[x]
  {
    ScoreTable(t.order, t.value[name := t.value[name] + d])
  }

  /**
   initScores: start from `{}` and set `scores[item.name] = 0` for each
   selected item in turn. The keys are exactly the selected names, each
   scored 0; with distinct names the key order is the selection order.
   */
  function InitScores(sel: seq<Item>): (t: ScoreTable)
    ensures Wf(t)
    ensures forall x :: x in t.value <==> x in Names(sel)
    ensures forall x :: x in t.value ==> t.value[x] == 0
    ensures DistinctNames(sel) ==> t.order == Names(sel)
    decreases |sel|
  {
    if sel == [] then Empty
    else
      var init := sel[..|sel| - 1];
      var last := sel[|sel| - 1];
      assert Names(sel) == Names(init) + [last.name];
      assert DistinctNames(sel) ==> DistinctNames(init) && last.name !in Names(init) by {
        if DistinctNames(sel) {
          forall a, b | 0 <= a < b < |init|
            ensures Names(init)[a] != Names(init)[b]
          {
            assert Names(init)[a] == Names(sel)[a] && Names(init)[b] == Names(sel)[b];
          }
        }
      }
      Put(InitScores(init), last.name, 0)
  }
}
