/** The key order of a Python dictionary, kept beside a map: assignment keeps the
    place of a key already there and puts a new key last; removal closes the gap. */
module Dicts {

  predicate NoDup<T(==)>(order: seq<T>) {
    forall i, j :: 0 <= i < j < |order| ==> order[i] != order[j]
  }

  /** `order` lists each key once. */
  ghost predicate Lists<T(!new)>(order: seq<T>, keys: set<T>) {
    NoDup(order) && forall k :: k in order <==> k in keys
  }

  function Touch<T(==)>(order: seq<T>, k: T): seq<T> {
    if k in order then order else order + [k]
  }

  function Drop<T(==)>(order: seq<T>, k: T): seq<T> {
    if order == [] then []
    else if order[0] == k then order[1..]
    else [order[0]] + Drop(order[1..], k)
  }

  lemma TouchLists<T(!new)>(order: seq<T>, keys: set<T>, k: T)
    requires Lists(order, keys)
    ensures Lists(Touch(order, k), keys + {k})
  {
  }

  lemma {:induction false} DropLists<T(!new)>(order: seq<T>, keys: set<T>, k: T)
    requires Lists(order, keys)
    ensures Lists(Drop(order, k), keys - {k})
  {
    if order != [] {
      var first, tail := order[0], order[1..];
      assert order == [first] + tail;
      assert first in order;
      forall x
        ensures x in tail <==> x in keys - {first}
      {
        if x in tail {
          var i :| 0 <= i < |tail| && tail[i] == x;
          assert order[i + 1] == x && order[0] != order[i + 1];
        }
      }
      assert Lists(tail, keys - {first});
      if first != k {
        DropLists(tail, keys - {first}, k);
        var d := Drop(tail, k);
        assert Lists(d, keys - {first} - {k});
        assert forall i :: 0 <= i < |d| ==> d[i] in d;
      }
    }
  }
}
