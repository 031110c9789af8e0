/** Filtering, as `Array.prototype.filter` does it. */
module Sequences {
  import opened Text

  /** The wanted items, in their order. */
  function Keep<T>(items: seq<T>, wanted: T -> bool): seq<T> {
    if items == [] then []
    else
      var front, last := items[..|items| - 1], items[|items| - 1];
      Keep(front, wanted) + if wanted(last) then [last] else []
  }

  lemma {:induction false} KeepMembers<T(!new)>(items: seq<T>, wanted: T -> bool)
    ensures forall item :: item in Keep(items, wanted) <==> item in items && wanted(item)
  {
    if items != [] {
      var front, last := items[..|items| - 1], items[|items| - 1];
      KeepMembers(front, wanted);
      assert items == front + [last];
    }
  }

  lemma KeepOneMore<T>(items: seq<T>, i: nat, wanted: T -> bool)
    requires i < |items|
    ensures Keep(items[..i + 1], wanted) == Keep(items[..i], wanted) + if wanted(items[i]) then [items[i]] else []
  {
    assert items[..i + 1][..i] == items[..i];
  }

  /** What is kept stays in order. */
  lemma {:induction false} KeepJoins<T>(front: seq<T>, back: seq<T>, wanted: T -> bool)
    ensures Keep(front + back, wanted) == Keep(front, wanted) + Keep(back, wanted)
    decreases |back|
  {
    if back == [] {
      assert front + back == front;
    } else {
      var rest, last := back[..|back| - 1], back[|back| - 1];
      KeepJoins(front, rest, wanted);
      KeepOneBehind(front + rest, last, wanted);
      KeepOneBehind(rest, last, wanted);
      assert rest + [last] == back;
      ConcatAssociates(front, rest, [last]);
      ConcatAssociates(Keep(front, wanted), Keep(rest, wanted), if wanted(last) then [last] else []);
    }
  }

  lemma KeepOneBehind<T>(items: seq<T>, last: T, wanted: T -> bool)
    ensures Keep(items + [last], wanted) == Keep(items, wanted) + if wanted(last) then [last] else []
  {
    assert (items + [last])[..|items|] == items;
  }

  lemma {:induction false} KeepAll<T>(items: seq<T>, wanted: T -> bool)
    requires forall k :: 0 <= k < |items| ==> wanted(items[k])
    ensures Keep(items, wanted) == items
  {
    if items != [] {
      var front, last := items[..|items| - 1], items[|items| - 1];
      KeepAll(front, wanted);
      assert items == front + [last];
    }
  }
}
