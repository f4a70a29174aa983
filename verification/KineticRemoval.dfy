/** Deleting a chunk from its drives through a sliding window of requests
    (src/oio/blob/kinetic/coro/blob.cpp:356-449). */
module KineticRemoval {
  import opened Basics
  import opened KeyOrder
  import opened KineticKeys
  import opened Drives
  import opened KineticListing

  /** A key to delete and the index of the drive that holds it. */
  type PendingDelete = (nat, Key)

  const PARALLELISM: nat := 8

  /** One act of the sliding window on the i-th operation. */
  datatype Act = Start(op: nat) | Wait(op: nat)

  /** How many operations a trace has started and waited for; `None` as soon as it starts one
      out of order, waits for one not yet started, or has more than `window` in flight. */
  ghost function Replay(trace: seq<Act>, window: nat): Option<(nat, nat)> {
    if trace == [] then Some((0, 0))
    else
      match Replay(trace[..|trace| - 1], window)
      case None => None
      case Some((started, waited)) =>
        match trace[|trace| - 1]
        case Start(i) => if i == started < waited + window then Some((started + 1, waited)) else None
        case Wait(i) => if i == waited < started then Some((started, waited + 1)) else None
  }

  lemma ReplayAct(trace: seq<Act>, act: Act, window: nat)
    requires Replay(trace, window).Some?
    ensures Replay(trace + [act], window) ==
            var (started, waited) := Replay(trace, window).value;
            match act
            case Start(i) => if i == started < waited + window then Some((started + 1, waited)) else None
            case Wait(i) => if i == waited < started then Some((started, waited + 1)) else None
  {
    assert (trace + [act])[..|trace|] == trace;
  }

  /** What an accepted trace means: the window bounds what is in flight, and the operations
      started and waited for are the first ones. */
  lemma {:induction false} ReplayCounts(trace: seq<Act>, window: nat)
    requires Replay(trace, window).Some?
    ensures var (started, waited) := Replay(trace, window).value;
            && waited <= started <= waited + window
            && (forall i: nat :: Start(i) in trace <==> i < started)
            && (forall i: nat :: Wait(i) in trace <==> i < waited)
  {
    if trace != [] {
      var init, last := trace[..|trace| - 1], trace[|trace| - 1];
      assert trace == init + [last];
      ReplayCounts(init, window);
    }
  }

  /** The same holds at every moment of the trace. */
  lemma {:induction false} ReplayPrefix(trace: seq<Act>, window: nat, x: nat)
    requires Replay(trace, window).Some?
    requires x <= |trace|
    ensures Replay(trace[..x], window).Some?
  {
    if x == |trace| {
      assert trace[..x] == trace;
    } else {
      ReplayPrefix(trace[..|trace| - 1], window, x);
      assert trace[..|trace| - 1][..x] == trace[..x];
    }
  }

  lemma ActIsNew(trace: seq<Act>, window: nat, x: nat)
    requires Replay(trace, window).Some? && x < |trace|
    ensures trace[x] !in trace[..x]
    ensures trace[x].Wait? ==> Start(trace[x].op) in trace[..x]
  {
    var before := trace[..x];
    ReplayPrefix(trace, window, x);
    ReplayPrefix(trace, window, x + 1);
    assert trace[..x + 1] == before + [trace[x]];
    ReplayAct(before, trace[x], window);
    ReplayCounts(before, window);
  }

  /** So each act occurs once, and a wait only comes after its start. */
  lemma ReplayMeans(trace: seq<Act>, window: nat)
    requires Replay(trace, window).Some?
    ensures NoDup(trace)
    ensures forall x :: 0 <= x < |trace| && trace[x].Wait? ==> Start(trace[x].op) in trace[..x]
  {
    forall x | 0 <= x < |trace| ensures trace[x] !in trace[..x] && (trace[x].Wait? ==> Start(trace[x].op) in trace[..x]) {
      ActIsNew(trace, window, x);
    }
    forall x, y | 0 <= x < y < |trace| ensures trace[x] != trace[y] {
      assert trace[..y][x] == trace[x];
    }
  }

  function DeleteOne(stores: seq<Store>, o: PendingDelete): (s: seq<Store>)
    ensures |s| == |stores|
  {
    if o.0 < |stores| then stores[o.0 := stores[o.0] - {o.1}] else stores
  }

  function DeleteAll(stores: seq<Store>, ops: seq<PendingDelete>): (s: seq<Store>)
    ensures |s| == |stores|
  {
    if ops == [] then stores else DeleteOne(DeleteAll(stores, ops[..|ops| - 1]), ops[|ops| - 1])
  }

  function KeysFor(ops: seq<PendingDelete>, drive: nat): set<Key> {
    set o | o in ops && o.0 == drive :: o.1
  }

  /** The order of the deletes does not matter: each drive loses the keys listed for it. */
  lemma {:induction false} DeleteAllIs(stores: seq<Store>, ops: seq<PendingDelete>)
    ensures forall j :: 0 <= j < |stores| ==> DeleteAll(stores, ops)[j] == stores[j] - KeysFor(ops, j)
  {
    if ops != [] {
      var init, o := ops[..|ops| - 1], ops[|ops| - 1];
      assert ops == init + [o];
      DeleteAllIs(stores, init);
      forall j | 0 <= j < |stores| ensures KeysFor(ops, j) == KeysFor(init, j) + if o.0 == j then {o.1} else {} {
        assert o in ops;
      }
    }
  }

  ghost predicate Distinct(clients: seq<Drive>) {
    forall i, j :: 0 <= i < j < |clients| ==> clients[i] != clients[j]
  }

  /** Starts as many operations as the window holds. */
  method StartWindow(parallelism: nat, clients: seq<Drive>, ops: seq<PendingDelete>)
    returns (sync: seq<bool>, started: nat, ghost trace: seq<Act>)
    requires Distinct(clients)
    requires forall o :: o in ops ==> o.0 < |clients|
    modifies clients
    ensures started == if parallelism < |ops| then parallelism else |ops|
    ensures Window(sync, |ops|, started) && Replay(trace, parallelism) == Some((started, 0))
    ensures Stores(clients) == DeleteAll(old(Stores(clients)), ops[..started])
  {
    trace := [];
    ghost var before := Stores(clients);
    sync := seq(|ops|, _ => false);
    started := 0;
    while started < parallelism && started < |ops|
      invariant started <= parallelism && started <= |ops|
      invariant Window(sync, |ops|, started) && Replay(trace, parallelism) == Some((started, 0))
      invariant Stores(clients) == DeleteAll(before, ops[..started])
    {
      sync, trace := StartDelete(parallelism, clients, ops, sync, started, 0, before, trace);
      started := started + 1;
    }
  }

  /** Deletes through a window: start as many operations as it holds, then start one more each
      time the oldest is done. */
  method RollingDelete(parallelism: nat, clients: seq<Drive>, ops: seq<PendingDelete>) returns (ghost trace: seq<Act>)
    requires parallelism >= 1
    requires Distinct(clients)
    requires forall o :: o in ops ==> o.0 < |clients|
    modifies clients
    ensures Stores(clients) == DeleteAll(old(Stores(clients)), ops)
    ensures Replay(trace, parallelism) == Some((|ops|, |ops|))
  {
    ghost var before := Stores(clients);
    var sync, started;
    sync, started, trace := StartWindow(parallelism, clients, ops);
    for i := 0 to |ops|
      invariant started == if i + parallelism < |ops| then i + parallelism else |ops|
      invariant Window(sync, |ops|, started) && Replay(trace, parallelism) == Some((started, i))
      invariant Stores(clients) == DeleteAll(before, ops[..started])
    {
      sync, started, trace := WaitNext(parallelism, clients, ops, sync, i, started, before, trace);
    }
    assert ops[..|ops|] == ops;
  }

  /** Waits for the oldest operation, then starts the next one if there is one left. */
  method WaitNext(parallelism: nat, clients: seq<Drive>, ops: seq<PendingDelete>, sync0: seq<bool>, i: nat, started0: nat,
                  ghost before: seq<Store>, ghost trace0: seq<Act>)
    returns (sync: seq<bool>, started: nat, ghost trace: seq<Act>)
    requires parallelism >= 1 && i < |ops| && Distinct(clients) && |before| == |clients|
    requires forall o :: o in ops ==> o.0 < |clients|
    requires started0 == if i + parallelism < |ops| then i + parallelism else |ops|
    requires Window(sync0, |ops|, started0) && Replay(trace0, parallelism) == Some((started0, i))
    requires Stores(clients) == DeleteAll(before, ops[..started0])
    modifies clients
    ensures started == if i + 1 + parallelism < |ops| then i + 1 + parallelism else |ops|
    ensures Window(sync, |ops|, started) && Replay(trace, parallelism) == Some((started, i + 1))
    ensures Stores(clients) == DeleteAll(before, ops[..started])
  {
    assert sync0[i];
    ReplayAct(trace0, Wait(i), parallelism);
    sync, started, trace := sync0, started0, trace0 + [Wait(i)];
    if i + parallelism < |ops| {
      sync, trace := StartDelete(parallelism, clients, ops, sync, i + parallelism, i + 1, before, trace);
      started := started + 1;
    }
  }

  /** The operations already started are the first ones. */
  ghost predicate Window(sync: seq<bool>, n: nat, started: nat) {
    |sync| == n && forall j :: 0 <= j < n ==> (sync[j] <==> j < started)
  }

  /** PendingDelete::Start, which must find its operation not yet started: the delete goes to
      the drive of the operation. */
  method StartDelete(ghost parallelism: nat, clients: seq<Drive>, ops: seq<PendingDelete>, sync0: seq<bool>, i: nat,
                     ghost waited: nat, ghost before: seq<Store>, ghost trace0: seq<Act>)
    returns (sync: seq<bool>, ghost trace: seq<Act>)
    requires i < |ops| && Distinct(clients) && |before| == |clients|
    requires forall o :: o in ops ==> o.0 < |clients|
    requires Window(sync0, |ops|, i)
    requires Replay(trace0, parallelism) == Some((i, waited)) && i < waited + parallelism
    requires Stores(clients) == DeleteAll(before, ops[..i])
    modifies clients
    ensures Stores(clients) == DeleteAll(before, ops[..i + 1])
    ensures Window(sync, |ops|, i + 1)
    ensures Replay(trace, parallelism) == Some((i + 1, waited))
  {
    assert !sync0[i];
    var (drive, key) := ops[i];
    assert ops[i] in ops;
    clients[drive].Delete(key);
    assert ops[..i + 1][..i] == ops[..i];
    sync := sync0[i := true];
    ReplayAct(trace0, Start(i), parallelism);
    trace := trace0 + [Start(i)];
  }

  class KineticRemoval {
    const clients: seq<Drive>
    const chunkid: Key
    var ops: seq<PendingDelete>
    var step: Step

    ghost predicate Valid()
      reads this
    {
      && Distinct(clients)
      && (step == Init ==> ops == [])
      && forall o :: o in ops ==> o.0 < |clients|
    }

    constructor (clients: seq<Drive>, chunkid: Key)
      requires Distinct(clients)
      ensures Valid() && this.clients == clients && this.chunkid == chunkid && step == Init
    {
      this.clients := clients;
      this.chunkid := chunkid;
      ops := [];
      step := Init;
    }

    method Prepare() returns (rc: Status)
      requires Valid()
      modifies this
      ensures Valid()
      ensures old(step) != Init ==> rc == InternalError && step == old(step) && ops == old(ops)
      ensures old(step) == Init ==>
                if Universe(Stores(clients), chunkid) == {} then rc == NotFound && step == Init
                else rc == OK && step == Prepared && ListingOf(ops, Stores(clients), chunkid)
    {
      if step != Init {
        return InternalError;
      }
      var listing := new KineticListing(clients, chunkid);
      rc := listing.Prepare();
      if rc == OK {
        assert listing.items[0] in Universe(Stores(clients), chunkid);
        ghost var listed := listing.items;
        while listing.nextItem < |listing.items|
          invariant listing.nextItem <= |listing.items|
          invariant listing.items == listed
          invariant ops == listing.items[..listing.nextItem]
          invariant step == Init && Stores(clients) == old(Stores(clients))
        {
          var item := listing.Next();
          ops := ops + [item.value];
        }
        step := Prepared;
        assert forall o :: o in ops ==> o in Universe(Stores(clients), chunkid);
      }
    }

    method Commit() returns (rc: Status)
      requires Valid()
      modifies this, clients
      ensures Valid() && ops == old(ops)
      ensures old(step) != Prepared ==>
                rc == InternalError && step == old(step) && Stores(clients) == old(Stores(clients))
      ensures old(step) == Prepared ==>
                rc == OK && step == Done && Stores(clients) == DeleteAll(old(Stores(clients)), ops)
    {
      if step != Prepared {
        return InternalError;
      }
      ghost var trace := RollingDelete(PARALLELISM, clients, ops);
      step := Done;
      rc := OK;
    }

    method Abort() returns (rc: Status)
      requires Valid()
      modifies this`step
      ensures Valid()
      ensures rc == if old(step) == Prepared then OK else InternalError
      ensures step == if old(step) == Prepared then Done else old(step)
    {
      if step != Prepared {
        return InternalError;
      }
      step := Done;
      rc := OK;
    }
  }

  /** Removal is exact: once a complete listing is deleted, each drive holds what it held before
      minus the interval of the chunk. */
  lemma RemovalExact(stores: seq<Store>, ops: seq<PendingDelete>, name: Key)
    requires ListingOf(ops, stores, name)
    ensures forall j :: 0 <= j < |stores| ==>
              DeleteAll(stores, ops)[j] == map k | k in stores[j] && !InRange(name, k) :: stores[j][k]
  {
    DeleteAllIs(stores, ops);
    forall j, k | 0 <= j < |stores| && k in stores[j] ensures k in KeysFor(ops, j) <==> InRange(name, k) {
      assert (j, k) in ops <==> InRange(name, k);
    }
  }

  /** The whole removal on the drives: not found if and only if they hold nothing of the chunk, and
      otherwise each keeps exactly what lies outside its interval. */
  method RemoveChunk(clients: seq<Drive>, name: Key) returns (rc: Status)
    requires Distinct(clients)
    modifies clients
    ensures rc == if old(Universe(Stores(clients), name)) == {} then NotFound else OK
    ensures forall j :: 0 <= j < |clients| ==>
              clients[j].store == map k | k in old(clients[j].store) && !InRange(name, k) :: old(clients[j].store)[k]
  {
    ghost var stores := Stores(clients);
    var removal := new KineticRemoval(clients, name);
    rc := removal.Prepare();
    if rc == OK {
      RemovalExact(stores, removal.ops, name);
      rc := removal.Commit();
      assert forall j :: 0 <= j < |clients| ==> clients[j].store == Stores(clients)[j] && stores[j] == old(clients[j].store);
    } else {
      forall j, k | 0 <= j < |clients| && k in clients[j].store ensures !InRange(name, k) {
        assert (j, k) !in Universe(stores, name);
        assert k in stores[j];
      }
    }
  }

  /** So between dash-free names a removal takes no key of another chunk. */
  lemma RemovalSparesOthers(stores: seq<Store>, ops: seq<PendingDelete>, name: Key, other: Key, suffix: Bytes, j: nat)
    requires ListingOf(ops, stores, name)
    requires DashFree(name) && DashFree(other) && other != name
    requires j < |stores| && Lower(other) + suffix in stores[j]
    ensures Lower(other) + suffix in DeleteAll(stores, ops)[j]
    ensures DeleteAll(stores, ops)[j][Lower(other) + suffix] == stores[j][Lower(other) + suffix]
  {
    RemovalExact(stores, ops, name);
    IntervalIsolation(name, other, suffix);
  }
}
