/** Cutting an upload into blocks and striping them over the drives
    (src/oio/blob/kinetic/coro/blob.cpp:488-677). */
module KineticUpload {
  import opened Basics
  import opened Digits
  import opened KeyOrder
  import opened KineticKeys
  import opened Drives
  import opened KineticRemoval

  /** The full blocks of a byte string, and what is left behind them. */
  function FullBlocks(s: Bytes, limit: nat): seq<Bytes>
    requires limit > 0
  {
    if |s| < limit then [] else [s[..limit]] + FullBlocks(s[limit..], limit)
  }

  function Rest(s: Bytes, limit: nat): Bytes
    requires limit > 0
  {
    if |s| < limit then s else Rest(s[limit..], limit)
  }

  lemma {:induction false} CutIsExact(s: Bytes, limit: nat)
    requires limit > 0
    ensures Flatten(FullBlocks(s, limit)) + Rest(s, limit) == s
  {
    if |s| >= limit {
      var tail := s[limit..];
      CutIsExact(tail, limit);
      assert FullBlocks(s, limit)[1..] == FullBlocks(tail, limit);
      assert s[..limit] + Flatten(FullBlocks(tail, limit)) + Rest(tail, limit) == s;
    }
  }

  lemma {:induction false} CutSizes(s: Bytes, limit: nat)
    requires limit > 0
    ensures |Rest(s, limit)| < limit
    ensures forall b :: b in FullBlocks(s, limit) ==> |b| == limit
  {
    if |s| >= limit {
      CutSizes(s[limit..], limit);
    }
  }

  /** There is only one way to cut a byte string into blocks of the limit and a shorter rest. */
  lemma {:induction false} CutIsUnique(blocks: seq<Bytes>, rest: Bytes, limit: nat)
    requires limit > 0 && |rest| < limit
    requires forall b :: b in blocks ==> |b| == limit
    ensures FullBlocks(Flatten(blocks) + rest, limit) == blocks
    ensures Rest(Flatten(blocks) + rest, limit) == rest
  {
    if blocks != [] {
      var s := Flatten(blocks) + rest;
      assert blocks[0] in blocks;
      assert s[..limit] == blocks[0];
      assert s[limit..] == Flatten(blocks[1..]) + rest;
      CutIsUnique(blocks[1..], rest, limit);
    } else {
      assert Flatten(blocks) + rest == rest;
    }
  }

  /** Cutting more bytes later is cutting them together: the blocks depend only on the
      concatenated input. */
  lemma {:induction false} CutAppend(s: Bytes, t: Bytes, limit: nat)
    requires limit > 0
    ensures FullBlocks(s + t, limit) == FullBlocks(s, limit) + FullBlocks(Rest(s, limit) + t, limit)
    ensures Rest(s + t, limit) == Rest(Rest(s, limit) + t, limit)
  {
    if |s| >= limit {
      assert (s + t)[..limit] == s[..limit];
      assert (s + t)[limit..] == s[limit..] + t;
      CutAppend(s[limit..], t, limit);
    }
  }

  lemma CutMore(held: Bytes, done: Bytes, taken: Bytes, limit: nat)
    requires limit > 0
    ensures FullBlocks(held + (done + taken), limit) ==
            FullBlocks(held + done, limit) + FullBlocks(Rest(held + done, limit) + taken, limit)
    ensures Rest(held + (done + taken), limit) == Rest(Rest(held + done, limit) + taken, limit)
  {
    CutAppend(held + done, taken, limit);
    Associative(held, done, taken);
  }

  /** What a step of the loop of Write adds to the blocks and to the buffer. */
  lemma CutOn(emitted: seq<Bytes>, held: Bytes, done: Bytes, taken: Bytes, blocks: seq<Bytes>, buffer: Bytes, limit: nat)
    requires limit > 0
    requires blocks == emitted + FullBlocks(held + done, limit) && buffer == Rest(held + done, limit)
    ensures blocks + FullBlocks(buffer + taken, limit) == emitted + FullBlocks(held + (done + taken), limit)
    ensures Rest(buffer + taken, limit) == Rest(held + (done + taken), limit)
  {
    CutMore(held, done, taken, limit);
  }

  lemma Carried(done: Bytes, buf: Bytes, k: nat)
    requires k <= |buf|
    ensures (done + buf[..k]) + buf[k..] == done + buf
  {
    assert buf[..k] + buf[k..] == buf;
  }

  function Place(stores: seq<Store>, n: nat, k: Key, v: Bytes): (s: seq<Store>)
    requires |stores| > 0
    ensures |s| == |stores|
  {
    var j := n % |stores|;
    stores[j := stores[j][k := v]]
  }

  /** The drives once the blocks of a chunk are striped over them. */
  function Stripe(base: seq<Store>, name: Key, blocks: seq<Bytes>): (s: seq<Store>)
    requires |base| > 0
    ensures |s| == |base|
  {
    if blocks == [] then base
    else
      var n, last := |blocks| - 1, blocks[|blocks| - 1];
      Place(Stripe(base, name, blocks[..n]), n, DataKey(name, n, |last|), last)
  }

  /** One PUT issued by an upload: the index of its drive, and its key. */
  type PendingPut = (nat, Key)

  function PutsOf(name: Key, blocks: seq<Bytes>, drives: nat): (puts: seq<PendingPut>)
    requires drives > 0
    ensures |puts| == |blocks|
  {
    seq(|blocks|, i requires 0 <= i < |blocks| => (i % drives, DataKey(name, i, |blocks[i]|)))
  }

  class KineticUpload {
    const clients: seq<Drive>
    const bufferLimit: nat
    const chunkid: Key
    var nextClient: nat
    var ops: seq<PendingPut>
    var buffer: Bytes
    var step: Step
    /** The drives as they were when the upload was built, and the blocks emitted since. */
    ghost const base: seq<Store>
    ghost var blocks: seq<Bytes>

    /** Nothing but the blocks of this upload has changed the drives. */
    ghost predicate Striping()
      reads this, clients
    {
      && |base| == |clients| > 0 && Distinct(clients) && bufferLimit > 0
      && nextClient == |blocks|
      && ops == PutsOf(chunkid, blocks, |clients|)
      && Stores(clients) == Stripe(base, chunkid, blocks)
    }

    ghost predicate Valid()
      reads this, clients
    {
      Striping() && |buffer| < bufferLimit
    }

    constructor (clients: seq<Drive>, chunkid: Key, blockSize: nat)
      requires |clients| > 0 && Distinct(clients)
      requires blockSize > 0
      ensures Valid() && step == Init && blocks == [] && buffer == []
      ensures this.clients == clients && this.chunkid == chunkid && bufferLimit == blockSize
      ensures base == Stores(clients)
    {
      this.clients := clients;
      this.chunkid := chunkid;
      bufferLimit := blockSize;
      nextClient, ops, buffer, step, blocks := 0, [], [], Init, [];
      base := Stores(clients);
    }

    /** Sends the manifest probe to every drive. The index of the request never advances, so
        every RPC carries the first request and the others are never answered. */
    method SendProbes() returns (answers: seq<Option<seq<Key>>>)
      ensures |answers| == |clients|
      ensures forall k :: 1 <= k < |clients| ==> answers[k] == None
      ensures |clients| == 1 ==> answers[0].Some? && (answers[0].value == [] <==> ManifestKey(chunkid) !in clients[0].store)
    {
      var manifest := ManifestKey(chunkid);
      var r := Range(manifest, manifest, true, true);
      answers := seq(|clients|, _ => None);
      var i := 0;
      for c := 0 to |clients|
        invariant |answers| == |clients|
        invariant forall k :: 1 <= k < |clients| ==> answers[k] == None
        invariant c == 0 ==> forall k :: 0 <= k < |clients| ==> answers[k] == None
        invariant c == 1 && |clients| == 1 ==> answers[0].Some? && IsPage(answers[0].value, clients[0].store, r, 1)
      {
        var keys := clients[c].GetKeyRange(r, 1);
        answers := answers[i := Some(match answers[i] case None => keys case Some(earlier) => earlier + keys)];
      }
      if |clients| == 1 {
        PageOfOneKey(answers[0].value, clients[0].store, manifest);
      }
    }

    method Prepare() returns (rc: Status)
      requires Valid()
      modifies this`step
      ensures old(step) != Init ==> rc == InternalError
      ensures old(step) == Init ==>
                rc == if |clients| > 1 then NetworkError
                      else if ManifestKey(chunkid) in clients[0].store then Already
                      else OK
      ensures step == if rc == OK then Prepared else old(step)
      ensures Valid()
    {
      if step != Init {
        return InternalError;
      }
      var answers := SendProbes();
      for k := 0 to |answers|
        invariant |answers| > 1 ==> k <= 1
        invariant forall j :: 0 <= j < k ==> answers[j].Some?
      {
        if answers[k].None? {
          return NetworkError;
        }
      }
      for k := 0 to |answers|
        invariant k == 1 ==> answers[0].value == []
      {
        if answers[k].value != [] {
          return Already;
        }
      }
      step := Prepared;
      rc := OK;
    }

    /** TriggerUpload with a suffix: the buffer leaves for the next drive. */
    method TriggerPut(suffix: Bytes)
      requires |clients| > 0 && Distinct(clients)
      modifies this`nextClient, this`ops, this`buffer, clients
      ensures Stores(clients) ==
              Place(old(Stores(clients)), old(nextClient), Lower(chunkid) + suffix, old(buffer))
      ensures buffer == [] && nextClient == old(nextClient) + 1
      ensures ops == old(ops) + [(old(nextClient) % |clients|, Lower(chunkid) + suffix)]
    {
      var drive := nextClient % |clients|;
      var key := Lower(chunkid) + suffix;
      nextClient := nextClient + 1;
      var value := buffer;
      buffer := [];
      clients[drive].Put(key, value);
      ops := ops + [(drive, key)];
    }

    method TriggerUpload()
      requires Striping()
      modifies this`nextClient, this`ops, this`buffer, this`blocks, clients
      ensures Striping() && buffer == []
      ensures blocks == old(blocks) + [old(buffer)]
    {
      var suffix := Dec(nextClient) + [DASH] + Dec(|buffer|);
      blocks := blocks + [buffer];
      assert blocks[..nextClient] == old(blocks);
      TriggerPut(suffix);
    }

    /** Since a write began with some blocks and a buffer, the bytes done have been cut. */
    ghost predicate Cut(emitted: seq<Bytes>, held: Bytes, done: Bytes)
      requires bufferLimit > 0
      reads this
    {
      && blocks == emitted + FullBlocks(held + done, bufferLimit)
      && buffer == Rest(held + done, bufferLimit)
    }

    /** Moves as many bytes as fit into the buffer, and uploads the buffer once it is full. */
    method Fill(buf: Bytes, ghost emitted: seq<Bytes>, ghost held: Bytes, ghost done0: Bytes)
      returns (rest: Bytes, ghost done: Bytes)
      requires Valid() && buf != []
      requires Cut(emitted, held, done0)
      modifies this`nextClient, this`ops, this`buffer, this`blocks, clients
      ensures Valid() && Cut(emitted, held, done)
      ensures done + rest == done0 + buf && |rest| < |buf|
    {
      ghost var blocks0, buffer0 := blocks, buffer;
      var avail := bufferLimit - |buffer|;
      var local := if avail < |buf| then avail else |buf|;
      buffer := buffer + buf[..local];
      Flush();
      rest, done := buf[local..], done0 + buf[..local];
      Carried(done0, buf, local);
      CutOn(emitted, held, done0, buf[..local], blocks0, buffer0, bufferLimit);
    }

    /** Uploads the buffer once it is full. */
    method Flush()
      requires Striping() && |buffer| <= bufferLimit
      modifies this`nextClient, this`ops, this`buffer, this`blocks, clients
      ensures Valid()
      ensures blocks == old(blocks) + FullBlocks(old(buffer), bufferLimit)
      ensures buffer == Rest(old(buffer), bufferLimit)
    {
      if |buffer| >= bufferLimit {
        assert buffer[..bufferLimit] == buffer && buffer[bufferLimit..] == [];
        TriggerUpload();
      }
    }

    /** Whatever the sizes of the writes, the blocks are the full blocks of what is buffered
        followed by what is written, and the rest stays in the buffer. */
    method Write(data: Bytes)
      requires Valid() && step == Prepared
      modifies this`nextClient, this`ops, this`buffer, this`blocks, clients
      ensures Valid()
      ensures blocks == old(blocks) + FullBlocks(old(buffer) + data, bufferLimit)
      ensures buffer == Rest(old(buffer) + data, bufferLimit)
    {
      var buf := data;
      ghost var held, emitted := buffer, blocks;
      ghost var done: Bytes := [];
      while |buf| > 0
        invariant Valid() && done + buf == data && Cut(emitted, held, done)
        decreases |buf|
      {
        buf, done := Fill(buf, emitted, held, done);
      }
      assert done == data;
    }

    /** Flushes the buffer, then sends the rendered extended attributes as the manifest. The
        attributes go through Write, so a rendering as long as a block spills into data blocks. */
    method Commit(json: Bytes) returns (rc: Status)
      requires Valid()
      modifies this, clients
      ensures old(step) != Prepared ==>
                rc == InternalError && Valid() && step == old(step) && blocks == old(blocks) && buffer == old(buffer)
      ensures old(step) == Prepared ==>
                && rc == OK && step == Done
                && blocks == old(Emitted()) + FullBlocks(json, bufferLimit)
                && Stores(clients) == Committed(base, chunkid, blocks, Rest(json, bufferLimit))
    {
      if step != Prepared {
        return InternalError;
      }
      if |buffer| > 0 {
        TriggerUpload();
      }
      assert buffer + json == json;
      Write(json);
      ghost var manifest := buffer;
      TriggerPut([HASH]);
      step := Done;
      rc := OK;
    }

    /** The blocks of the data, the last of which may be shorter. */
    ghost function Emitted(): seq<Bytes>
      reads this
    {
      if buffer == [] then blocks else blocks + [buffer]
    }

    method Abort() returns (rc: Status)
      requires Valid()
      modifies this`step, clients
      ensures old(step) != Prepared ==>
                rc == InternalError && step == old(step) && Stores(clients) == old(Stores(clients))
      ensures old(step) == Prepared ==>
                && rc == OK && step == Done
                && (Stores(clients) == base <==> FreshKeys(base, chunkid, blocks))
                && Stores(clients) == DeleteAll(Stripe(base, chunkid, blocks), PutsOf(chunkid, blocks, |base|))
    {
      if step != Prepared {
        return InternalError;
      }
      step := Done;
      if ops != [] {
        PutsInRange(chunkid, blocks, |clients|);
        ghost var trace := RollingDelete(8, clients, ops);
      }
      AbortExact(base, chunkid, blocks);
      rc := OK;
    }
  }

  ghost function Committed(base: seq<Store>, name: Key, blocks: seq<Bytes>, manifest: Bytes): (s: seq<Store>)
    requires |base| > 0
    ensures |s| == |base|
  {
    Place(Stripe(base, name, blocks), |blocks|, ManifestKey(name), manifest)
  }

  lemma PageOfOneKey(keys: seq<Key>, store: Store, k: Key)
    ensures IsPage(keys, store, Range(k, k, true, true), 1) ==> (keys == [] <==> k !in store)
  {
    var r := Range(k, k, true, true);
    assert r.Contains(k);
    forall j | r.Contains(j) ensures j == k {
      if j != k {
        Transitive(k, j, k);
        Irreflexive(k);
      }
    }
    if IsPage(keys, store, r, 1) && k !in store {
      assert KeysIn(store, r) == {};
      assert Ascending(KeysIn(store, r)) == [];
    }
    assert k in store ==> k in KeysIn(store, r);
  }

  lemma PutsInRange(name: Key, blocks: seq<Bytes>, drives: nat)
    requires drives > 0
    ensures forall o :: o in PutsOf(name, blocks, drives) ==> o.0 < drives
  {
  }

  function KeyOf(name: Key, blocks: seq<Bytes>, i: nat): Key
    requires i < |blocks|
  {
    DataKey(name, i, |blocks[i]|)
  }

  /** No block key of the upload was already on the drive it goes to. */
  ghost predicate FreshKeys(base: seq<Store>, name: Key, blocks: seq<Bytes>)
    requires |base| > 0
  {
    forall i :: 0 <= i < |blocks| ==> KeyOf(name, blocks, i) !in base[i % |base|]
  }

  /** Striping puts the i-th block on drive i mod c, under its own key. */
  lemma {:induction false} StripeHolds(base: seq<Store>, name: Key, blocks: seq<Bytes>, i: nat)
    requires |base| > 0 && i < |blocks|
    ensures var s := Stripe(base, name, blocks)[i % |base|];
            KeyOf(name, blocks, i) in s && s[KeyOf(name, blocks, i)] == blocks[i]
  {
    var n, init := |blocks| - 1, blocks[..|blocks| - 1];
    if i < n {
      StripeHolds(base, name, init, i);
      assert KeyOf(name, blocks, i) == KeyOf(name, init, i);
      if KeyOf(name, blocks, i) == KeyOf(name, blocks, n) {
        DataKeyInjective(name, i, |blocks[i]|, n, |blocks[n]|);
      }
    }
  }

  /** Striping leaves every other key of every drive as it was. */
  lemma {:induction false} StripeKeeps(base: seq<Store>, name: Key, blocks: seq<Bytes>, j: nat, k: Key)
    requires j < |base| && k !in BlockKeys(name, blocks, |base|, j)
    ensures var s := Stripe(base, name, blocks)[j];
            (k in s <==> k in base[j]) && (k in s ==> s[k] == base[j][k])
  {
    if blocks != [] {
      var n, init := |blocks| - 1, blocks[..|blocks| - 1];
      assert n % |base| == j ==> KeyOf(name, blocks, n) in BlockKeys(name, blocks, |base|, j);
      forall i | 0 <= i < n && i % |base| == j ensures KeyOf(name, init, i) != k {
        assert KeyOf(name, blocks, i) in BlockKeys(name, blocks, |base|, j);
      }
      StripeKeeps(base, name, init, j, k);
    }
  }

  /** The keys of the blocks that go to one drive. */
  ghost function BlockKeys(name: Key, blocks: seq<Bytes>, drives: nat, j: nat): set<Key>
    requires drives > 0
  {
    set i | 0 <= i < |blocks| && i % drives == j :: KeyOf(name, blocks, i)
  }

  lemma PutsAreBlockKeys(name: Key, blocks: seq<Bytes>, drives: nat, j: nat)
    requires drives > 0
    ensures KeysFor(PutsOf(name, blocks, drives), j) == BlockKeys(name, blocks, drives, j)
  {
    var puts := PutsOf(name, blocks, drives);
    forall k | k in BlockKeys(name, blocks, drives, j) ensures k in KeysFor(puts, j) {
      var i :| 0 <= i < |blocks| && i % drives == j && k == KeyOf(name, blocks, i);
      assert puts[i] == (j, k) && puts[i] in puts;
    }
    forall k | k in KeysFor(puts, j) ensures k in BlockKeys(name, blocks, drives, j) {
      var o :| o in puts && o.0 == j && o.1 == k;
      var i :| 0 <= i < |puts| && puts[i] == o;
      assert k == KeyOf(name, blocks, i);
    }
  }

  /** After the deletes a drive has lost the block keys, whoever had written them. */
  lemma AbortResult(base: seq<Store>, name: Key, blocks: seq<Bytes>, j: nat)
    requires j < |base|
    ensures DeleteAll(Stripe(base, name, blocks), PutsOf(name, blocks, |base|))[j] ==
            base[j] - BlockKeys(name, blocks, |base|, j)
  {
    var striped, puts := Stripe(base, name, blocks), PutsOf(name, blocks, |base|);
    DeleteAllIs(striped, puts);
    PutsAreBlockKeys(name, blocks, |base|, j);
    forall k | k !in BlockKeys(name, blocks, |base|, j)
      ensures (k in striped[j] <==> k in base[j]) && (k in base[j] ==> striped[j][k] == base[j][k])
    {
      StripeKeeps(base, name, blocks, j, k);
    }
  }

  /** Aborting puts every drive back exactly as it was if and only if no block key was there
      before: the deletes cover the PUTs and nothing else, but cannot bring back a value that a
      PUT has overwritten. */
  lemma AbortExact(base: seq<Store>, name: Key, blocks: seq<Bytes>)
    requires |base| > 0
    ensures DeleteAll(Stripe(base, name, blocks), PutsOf(name, blocks, |base|)) == base <==> FreshKeys(base, name, blocks)
  {
    var after := DeleteAll(Stripe(base, name, blocks), PutsOf(name, blocks, |base|));
    forall j | 0 <= j < |base| ensures after[j] == base[j] - BlockKeys(name, blocks, |base|, j) {
      AbortResult(base, name, blocks, j);
    }
    if FreshKeys(base, name, blocks) {
      forall j | 0 <= j < |base| ensures after[j] == base[j] {
        assert forall k :: k in BlockKeys(name, blocks, |base|, j) ==> k !in base[j];
      }
    } else {
      var i :| 0 <= i < |blocks| && KeyOf(name, blocks, i) in base[i % |base|];
      assert KeyOf(name, blocks, i) in BlockKeys(name, blocks, |base|, i % |base|);
      assert KeyOf(name, blocks, i) !in after[i % |base|];
    }
  }

  /** It happens on any drive left with a block and no manifest, as by an upload that never
      committed: Prepare only looks for the manifest and answers OK, one full block is written over
      the old one, and Abort deletes it for good. */
  method AbortLosesBlock(drive: Drive, name: Key, limit: nat, data: Bytes) returns (prepared: Status, aborted: Status)
    requires limit > 0 && |data| == limit
    requires DataKey(name, 0, limit) in drive.store && ManifestKey(name) !in drive.store
    modifies drive
    ensures prepared == OK && aborted == OK
    ensures drive.store == old(drive.store) - {DataKey(name, 0, limit)}
  {
    var upload := new KineticUpload([drive], name, limit);
    assert upload.base[0] == drive.store;
    prepared := upload.Prepare();
    aborted := AbortAfterBlock(upload, data);
    assert upload.clients[0] == drive;
  }

  method AbortAfterBlock(upload: KineticUpload, data: Bytes) returns (rc: Status)
    requires upload.Valid() && upload.step == Prepared && upload.blocks == [] && upload.buffer == []
    requires |upload.clients| == 1 && |data| == upload.bufferLimit
    modifies upload, upload.clients
    ensures rc == OK && upload.clients[0].store == upload.base[0] - {DataKey(upload.chunkid, 0, |data|)}
  {
    upload.Write(data);
    OneBlock(upload.chunkid, data, |data|);
    rc := upload.Abort();
    AbortResult(upload.base, upload.chunkid, [data], 0);
    assert Stores(upload.clients)[0] == upload.clients[0].store;
  }

  lemma OneBlock(name: Key, data: Bytes, limit: nat)
    requires limit > 0 && |data| == limit
    ensures [] + FullBlocks([] + data, limit) == [data]
    ensures BlockKeys(name, [data], 1, 0) == {DataKey(name, 0, limit)}
  {
    assert [] + data == data && data[..limit] == data && data[limit..] == [];
    assert KeyOf(name, [data], 0) == DataKey(name, 0, limit);
  }
}
