/** A Kinetic drive as its clients see it: a finite map from keys to values, kept in key order.
    Every RPC succeeds, and its effect takes place when the RPC is issued, so that one drive
    serves its RPCs in the order they were sent. */
module Drives {
  import opened Basics
  import opened KeyOrder

  type Store = map<Key, Bytes>

  /** The bounds of a GetKeyRange (src/oio/blob/kinetic/coro/RPC.cpp:236-281). */
  datatype Range = Range(start: Key, end: Key, includeStart: bool, includeEnd: bool) {
    predicate Contains(k: Key) {
      && (Less(start, k) || (includeStart && k == start))
      && (Less(k, end) || (includeEnd && k == end))
    }
  }

  function KeysIn(store: Store, r: Range): set<Key> {
    set k | k in store && r.Contains(k)
  }

  /** Any answer a drive may give: the first keys of the range in key order, at least one if
      there is any, and never more than asked for. */
  ghost predicate IsPage(keys: seq<Key>, store: Store, r: Range, max: nat) {
    && keys <= Ascending(KeysIn(store, r))
    && |keys| <= max
    && (keys == [] ==> KeysIn(store, r) == {})
  }

  /** A page is strictly ascending, and holds every key of the range up to its last one. */
  lemma PageIsInitial(keys: seq<Key>, store: Store, r: Range, max: nat)
    requires IsPage(keys, store, r, max)
    ensures Sorted(keys)
    ensures forall k :: k in keys ==> k in KeysIn(store, r)
    ensures forall k :: keys != [] && k in KeysIn(store, r) ==>
              (k in keys <==> k == keys[|keys| - 1] || Less(k, keys[|keys| - 1]))
  {
    var all := Ascending(KeysIn(store, r));
    assert forall i :: 0 <= i < |keys| ==> keys[i] == all[i] && all[i] in all;
    forall k | keys != [] && k in KeysIn(store, r)
      ensures k in keys <==> k == keys[|keys| - 1] || Less(k, keys[|keys| - 1])
    {
      var last := keys[|keys| - 1];
      var j :| 0 <= j < |all| && all[j] == k;
      if j < |keys| {
        assert keys[j] == k;
      } else {
        assert Less(all[|keys| - 1], all[j]);
        Irreflexive(k);
        if Less(k, last) {
          Transitive(k, last, k);
        }
        assert forall i :: 0 <= i < |keys| ==> Less(all[i], all[j]);
      }
    }
  }

  class Drive {
    var store: Store

    constructor ()
      ensures store == map[]
    {
      store := map[];
    }

    method Put(k: Key, v: Bytes)
      modifies this
      ensures store == old(store)[k := v]
    {
      store := store[k := v];
    }

    method Get(k: Key) returns (v: Option<Bytes>)
      ensures v == if k in store then Some(store[k]) else None
    {
      v := if k in store then Some(store[k]) else None;
    }

    method Delete(k: Key)
      modifies this
      ensures store == old(store) - {k}
    {
      store := store - {k};
    }

    /** The drive picks the length of its pages, differently on every call if it likes. */
    method GetKeyRange(r: Range, max: nat) returns (keys: seq<Key>)
      requires max > 0
      ensures IsPage(keys, store, r, max)
    {
      var all := Ascending(KeysIn(store, r));
      if all == [] {
        keys := [];
        assert forall k :: k in KeysIn(store, r) ==> k in all;
      } else {
        var n: nat :| 1 <= n <= |all| && n <= max;
        keys := all[..n];
      }
    }
  }

  ghost function Stores(drives: seq<Drive>): (s: seq<Store>)
    reads drives
    ensures |s| == |drives|
    ensures forall i :: 0 <= i < |s| ==> s[i] == drives[i].store
  {
    seq(|drives|, i requires 0 <= i < |drives| reads drives => drives[i].store)
  }
}
