/**
 The values the voting engine works on: the characters a user selects, the
 left/right pairs shown on the two buttons, and small sequence predicates
 shared by the other modules.
 */
module Items {

  /** A character record. Only `name` matters to the engine: scores are keyed by it. */
  datatype Item = Item(name: string, gender: string)

  /** One comparison: `left` is shown on the left button, `right` on the right one. */
  datatype Pair = Pair(left: Item, right: Item)

  /** Which of the two buttons (or arrow keys) the user chose. */
  datatype Side = Left | Right

  /** The item on the chosen side of a pair (index 0 or 1 of the JS tuple). */
  function Pick(p: Pair, side: Side): Item
  {
    match side
    case Left => p.left
    case Right => p.right
  }

  /** The same two items, possibly shown the other way round. */
  predicate SameUnordered(p: Pair, q: Pair)
  {
    p == q || (p.left == q.right && p.right == q.left)
  }

  /** The names of a selection, in selection order. */
  function Names(sel: seq<Item>): (ns: seq<string>)
    ensures |ns| == |sel|
    ensures forall k :: 0 <= k < |sel| ==> ns[k] == sel[k].name
  {
    seq(|sel|, k requires 0 <= k < |sel| => sel[k].name)
  }

  /** No value occurs twice. */
  predicate Distinct<T(==)>(s: seq<T>)
  {
    forall a, b :: 0 <= a < b < |s| ==> s[a] != s[b]
  }

  /** Names identify items within one session. */
  predicate DistinctNames(sel: seq<Item>)
  {
    Distinct(Names(sel))
  }
}
