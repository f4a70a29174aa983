/** Listing the keys of a chunk page by page on several drives at once
    (src/oio/blob/kinetic/coro/blob.cpp:222-314). */
module KineticListing {
  import opened Basics
  import opened KeyOrder
  import opened KineticKeys
  import opened Drives

  /** The page limit a GetKeyRange asks for by default. */
  const MAX_RETURNED: nat := 200

  /** One listed key and the index of the drive that holds it. */
  type Item = (nat, Key)

  /** Every key of the interval, on every drive, and nothing else. */
  function Universe(stores: seq<Store>, name: Key): set<Item> {
    set i, k | 0 <= i < |stores| && k in stores[i] && InRange(name, k) :: (i, k)
  }

  /** A complete listing: each key of the interval once for each drive that holds it. */
  ghost predicate ListingOf(items: seq<Item>, stores: seq<Store>, name: Key) {
    && NoDup(items)
    && forall x :: x in items <==> x in Universe(stores, name)
  }

  /** A drive has been listed up to its marker. */
  ghost predicate ListedUpTo(items: seq<Item>, store: Store, i: nat, name: Key, marker: Key) {
    && (marker == Lower(name) || Less(Lower(name), marker))
    && forall k :: (i, k) in items <==> k in store && InRange(name, k) && (k == marker || Less(k, marker))
  }

  function Tagged(i: nat, keys: seq<Key>): (items: seq<Item>)
    ensures |items| == |keys|
    ensures forall j :: 0 <= j < |keys| ==> items[j] == (i, keys[j])
  {
    seq(|keys|, j requires 0 <= j < |keys| => (i, keys[j]))
  }

  function NextRange(name: Key, marker: Key): Range {
    Range(marker, Upper(name), false, false)
  }

  lemma TaggedMembers(i: nat, keys: seq<Key>)
    ensures forall x :: x in Tagged(i, keys) <==> x.0 == i && x.1 in keys
  {
    forall x: Item | x.0 == i && x.1 in keys ensures x in Tagged(i, keys) {
      var j :| 0 <= j < |keys| && keys[j] == x.1;
      assert Tagged(i, keys)[j] == x;
    }
  }

  /** The keys of a page are new, and in the interval. */
  lemma PageIsNew(items: seq<Item>, store: Store, i: nat, name: Key, marker: Key, keys: seq<Key>, max: nat, k: Key)
    requires ListedUpTo(items, store, i, name, marker)
    requires IsPage(keys, store, NextRange(name, marker), max)
    requires k in keys
    ensures (i, k) !in items && k in store && InRange(name, k) && Less(marker, k)
  {
    PageIsInitial(keys, store, NextRange(name, marker), max);
    Irreflexive(k);
    if Less(k, marker) { Transitive(k, marker, k); }
    if marker != Lower(name) { Transitive(Lower(name), marker, k); }
  }

  /** A page leaves no gap: with it the drive is listed up to its last key. */
  lemma PageReaches(items: seq<Item>, store: Store, i: nat, name: Key, marker: Key, keys: seq<Key>, max: nat, k: Key)
    requires ListedUpTo(items, store, i, name, marker)
    requires IsPage(keys, store, NextRange(name, marker), max)
    requires keys != [] && k in store && InRange(name, k)
    ensures (i, k) in items || k in keys <==> k == keys[|keys| - 1] || Less(k, keys[|keys| - 1])
  {
    var r, last := NextRange(name, marker), keys[|keys| - 1];
    PageIsInitial(keys, store, r, max);
    PageIsNew(items, store, i, name, marker, keys, max, last);
    Total(k, marker);
    if k == marker || Less(k, marker) {
      if k != marker { Transitive(k, marker, last); }
    } else {
      assert k in KeysIn(store, r);
      Irreflexive(k);
      if Less(k, marker) { Transitive(k, marker, k); }
    }
  }

  /** Taking in one page advances one drive and touches no other. */
  lemma TakePage(items: seq<Item>, store: Store, i: nat, name: Key, marker: Key, keys: seq<Key>, max: nat)
    requires NoDup(items) && ListedUpTo(items, store, i, name, marker)
    requires IsPage(keys, store, NextRange(name, marker), max)
    requires keys != []
    ensures var items' := items + Tagged(i, keys);
            && NoDup(items')
            && ListedUpTo(items', store, i, name, keys[|keys| - 1])
            && forall x :: x in items' <==> x in items || (x.0 == i && x.1 in keys)
  {
    var last := keys[|keys| - 1];
    TaggedMembers(i, keys);
    PageIsInitial(keys, store, NextRange(name, marker), max);
    KeysDistinct(keys);
    forall k | k in keys ensures (i, k) !in items && k in store && InRange(name, k) {
      PageIsNew(items, store, i, name, marker, keys, max, k);
    }
    forall k | k in store && InRange(name, k) ensures (i, k) in items || k in keys <==> k == last || Less(k, last) {
      PageReaches(items, store, i, name, marker, keys, max, k);
    }
    assert last in keys && Less(Lower(name), last);
  }

  lemma KeysDistinct(keys: seq<Key>)
    requires Sorted(keys)
    ensures NoDup(keys)
  {
    forall i, j | 0 <= i < j < |keys| ensures keys[i] != keys[j] { Irreflexive(keys[i]); }
  }

  /** An empty page means the drive is listed to the end. */
  lemma NothingLeft(items: seq<Item>, store: Store, i: nat, name: Key, marker: Key, max: nat)
    requires ListedUpTo(items, store, i, name, marker)
    requires IsPage([], store, NextRange(name, marker), max)
    ensures Exhausted(items, store, i, name)
  {
    forall k | k in store && InRange(name, k) ensures (i, k) in items {
      Total(k, marker);
      assert NextRange(name, marker).Contains(k) <==> Less(marker, k);
      assert k !in KeysIn(store, NextRange(name, marker));
    }
  }

  ghost predicate Exhausted(items: seq<Item>, store: Store, i: nat, name: Key) {
    forall k :: (i, k) in items <==> k in store && InRange(name, k)
  }

  /** What every round of the listing keeps. */
  ghost predicate Progress(items: seq<Item>, stores: seq<Store>, name: Key, markers: seq<Key>, ready: seq<bool>) {
    && |markers| == |ready| == |stores|
    && NoDup(items)
    && (forall x :: x in items ==> x.0 < |stores|)
    && (forall i {:trigger markers[i]} :: 0 <= i < |stores| ==> ListedUpTo(items, stores[i], i, name, markers[i]))
    && (forall i {:trigger ready[i]} :: 0 <= i < |stores| && !ready[i] ==> Exhausted(items, stores[i], i, name))
  }

  lemma AllExhausted(items: seq<Item>, stores: seq<Store>, name: Key, markers: seq<Key>, ready: seq<bool>)
    requires Progress(items, stores, name, markers, ready)
    requires forall i :: 0 <= i < |ready| ==> !ready[i]
    ensures ListingOf(items, stores, name)
  {
    forall x ensures x in items <==> x in Universe(stores, name) {
      if 0 <= x.0 < |stores| {
        assert !ready[x.0];
        assert x == (x.0, x.1);
      }
    }
  }

  ghost function Remaining(items: seq<Item>, stores: seq<Store>, name: Key): set<Item> {
    Universe(stores, name) - set x | x in items
  }

  ghost function ReadySet(ready: seq<bool>): set<nat> {
    set i: nat | 0 <= i < |ready| && ready[i]
  }

  class KineticListing {
    const clients: seq<Drive>
    const name: Key
    var items: seq<Item>
    var nextItem: nat

    constructor (clients: seq<Drive>, name: Key)
      ensures this.clients == clients && this.name == name && items == [] && nextItem == 0
    {
      this.clients := clients;
      this.name := name;
      items := [];
      nextItem := 0;
    }

    method Prepare() returns (rc: Status)
      modifies this`items
      ensures ListingOf(items, Stores(clients), name)
      ensures rc == if items == [] then NotFound else OK
    {
      items := [];
      var readyv := seq(|clients|, _ => true);
      var markers := seq(|clients|, _ => Lower(name));
      ghost var stores := Stores(clients);
      InitialProgress(stores, name, markers, readyv);

      while true
        invariant Stores(clients) == stores
        invariant Progress(items, stores, name, markers, readyv)
        decreases Remaining(items, stores, name), ReadySet(readyv)
      {
        var any := false;
        for i := 0 to |readyv|
          invariant any <==> exists j :: 0 <= j < i && readyv[j]
        {
          any := any || readyv[i];
        }
        if !any {
          break;
        }
        var ops := RequestPages(readyv, markers);
        ghost var items0, ready0 := items, readyv;
        readyv, markers := TakePages(ops, readyv, markers, stores);
        RoundShrinks(items0, items, stores, name, markers, ready0, readyv);
      }
      AllExhausted(items, stores, name, markers, readyv);
      rc := if items == [] then NotFound else OK;
    }

    /** One GetKeyRange for each drive still ready, past its marker. */
    method RequestPages(readyv: seq<bool>, markers: seq<Key>) returns (ops: seq<seq<Key>>)
      requires |readyv| == |markers| == |clients|
      ensures |ops| == |clients|
      ensures forall i :: 0 <= i < |ops| && readyv[i] ==>
                IsPage(ops[i], clients[i].store, NextRange(name, markers[i]), MAX_RETURNED)
    {
      ops := [];
      for i := 0 to |clients|
        invariant |ops| == i
        invariant forall j :: 0 <= j < i && readyv[j] ==>
                    IsPage(ops[j], clients[j].store, NextRange(name, markers[j]), MAX_RETURNED)
      {
        var keys := [];
        if readyv[i] {
          keys := clients[i].GetKeyRange(NextRange(name, markers[i]), MAX_RETURNED);
        }
        ops := ops + [keys];
      }
    }

    /** Takes in the pages of one round: an empty one retires its drive, any other moves the
        marker of its drive and adds to the items. */
    method TakePages(ops: seq<seq<Key>>, readyv0: seq<bool>, markers0: seq<Key>, ghost stores: seq<Store>)
      returns (readyv: seq<bool>, markers: seq<Key>)
      requires |stores| == |ops| == |clients|
      requires Progress(items, stores, name, markers0, readyv0)
      requires forall i :: 0 <= i < |ops| && readyv0[i] ==>
                 IsPage(ops[i], stores[i], NextRange(name, markers0[i]), MAX_RETURNED)
      modifies this`items
      ensures Progress(items, stores, name, markers, readyv)
      ensures items == old(items) || old(items) < items
      ensures forall i :: 0 <= i < |readyv| && readyv[i] ==> readyv0[i] && old(items) < items
    {
      readyv, markers := readyv0, markers0;
      for i := 0 to |ops|
        invariant Progress(items, stores, name, markers, readyv)
        invariant items == old(items) || old(items) < items
        invariant forall j :: i <= j < |ops| ==> markers[j] == markers0[j] && readyv[j] == readyv0[j]
        invariant forall j :: 0 <= j < i && readyv[j] ==> readyv0[j] && old(items) < items
      {
        if readyv[i] {
          if ops[i] == [] {
            NothingLeft(items, stores[i], i, name, markers[i], MAX_RETURNED);
            readyv := readyv[i := false];
          } else {
            markers := TakeItems(i, ops[i], readyv, markers, stores);
          }
        }
      }
    }

    /** A page with keys in it. */
    method TakeItems(i: nat, keys: seq<Key>, ghost readyv: seq<bool>, markers0: seq<Key>, ghost stores: seq<Store>)
      returns (markers: seq<Key>)
      requires |readyv| == |markers0| == |stores| && i < |stores| && readyv[i] && keys != []
      requires Progress(items, stores, name, markers0, readyv)
      requires IsPage(keys, stores[i], NextRange(name, markers0[i]), MAX_RETURNED)
      modifies this`items
      ensures markers == markers0[i := keys[|keys| - 1]] && items == old(items) + Tagged(i, keys)
      ensures Progress(items, stores, name, markers, readyv)
    {
      TakePage(items, stores[i], i, name, markers0[i], keys, MAX_RETURNED);
      items := items + Tagged(i, keys);
      markers := markers0[i := keys[|keys| - 1]];
      OthersKept(old(items), items, i, keys, stores, name, markers, readyv);
    }

    /** The items come out once each, in the order they were listed. */
    method Next() returns (item: Option<Item>)
      modifies this`nextItem
      ensures item == if old(nextItem) < |items| then Some(items[old(nextItem)]) else None
      ensures nextItem == if old(nextItem) < |items| then old(nextItem) + 1 else old(nextItem)
    {
      if nextItem >= |items| {
        return None;
      }
      item := Some(items[nextItem]);
      nextItem := nextItem + 1;
    }
  }

  lemma InitialProgress(stores: seq<Store>, name: Key, markers: seq<Key>, ready: seq<bool>)
    requires |markers| == |ready| == |stores|
    requires forall i :: 0 <= i < |stores| ==> markers[i] == Lower(name) && ready[i]
    ensures Progress([], stores, name, markers, ready)
  {
    forall k | InRange(name, k) ensures k != Lower(name) && !Less(k, Lower(name)) {
      Irreflexive(k);
      if Less(k, Lower(name)) { Transitive(k, Lower(name), k); }
    }
  }

  lemma OthersKept(before: seq<Item>, items: seq<Item>, i: nat, keys: seq<Key>, stores: seq<Store>, name: Key,
                   markers: seq<Key>, ready: seq<bool>)
    requires |markers| == |ready| == |stores| && i < |stores| && ready[i]
    requires NoDup(items) && ListedUpTo(items, stores[i], i, name, markers[i])
    requires forall x :: x in items <==> x in before || (x.0 == i && x.1 in keys)
    requires forall x :: x in before ==> x.0 < |stores|
    requires forall j :: 0 <= j < |stores| && j != i ==> ListedUpTo(before, stores[j], j, name, markers[j])
    requires forall j :: 0 <= j < |stores| && !ready[j] ==> Exhausted(before, stores[j], j, name)
    ensures Progress(items, stores, name, markers, ready)
  {
    forall j, k | j != i ensures (j, k) in items <==> (j, k) in before {}
  }

  /** The termination measure: a round lists a new key or retires every ready drive. */
  lemma RoundShrinks(items0: seq<Item>, items: seq<Item>, stores: seq<Store>, name: Key, markers: seq<Key>,
                     ready0: seq<bool>, ready: seq<bool>)
    requires Progress(items, stores, name, markers, ready) && |ready0| == |ready|
    requires exists j :: 0 <= j < |ready0| && ready0[j]
    requires items == items0 || items0 < items
    requires forall j :: 0 <= j < |ready| && ready[j] ==> ready0[j] && items0 < items
    ensures var (r0, r) := (Remaining(items0, stores, name), Remaining(items, stores, name));
            r < r0 || (r == r0 && ReadySet(ready) < ReadySet(ready0))
  {
    var r0, r := Remaining(items0, stores, name), Remaining(items, stores, name);
    if items == items0 {
      var j: nat :| j < |ready0| && ready0[j];
      assert j in ReadySet(ready0) && j !in ReadySet(ready);
    } else {
      var x := items[|items0|];
      assert forall i :: 0 <= i < |items0| ==> items0[i] == items[i] != x;
      assert x == (x.0, x.1) && x in items;
      assert ListedUpTo(items, stores[x.0], x.0, name, markers[x.0]);
      assert x in r0 && x !in r;
    }
  }
}
