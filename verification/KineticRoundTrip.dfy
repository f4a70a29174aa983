/** What an upload stores is what a download delivers, through the striping, the paged listing,
    the key parser, the sort and the sliding window. */
module KineticRoundTrip {
  import opened Basics
  import opened Digits
  import opened KeyOrder
  import opened KineticKeys
  import opened Drives
  import opened KineticListing
  import opened KineticRemoval
  import opened KineticUpload
  import opened KineticDownload

  /** No drive holds a key of the chunk's interval yet. */
  ghost predicate Clean(base: seq<Store>, name: Key) {
    forall j, k :: 0 <= j < |base| && k in base[j] ==> !InRange(name, k)
  }

  /** Block numbers and sizes that the parser reads back. */
  ghost predicate Readable(blocks: seq<Bytes>) {
    && |blocks| <= MAX_INT32 + 1
    && forall b :: b in blocks ==> |b| <= MAX_INT32
  }

  function Wanted(name: Key, blocks: seq<Bytes>, drives: nat, i: nat): PendingGet
    requires drives > 0 && i < |blocks|
  {
    PendingGet(i, |blocks[i]|, i % drives, KeyOf(name, blocks, i))
  }

  /** A committed upload is listed as its blocks and its manifest, on whatever drives they are. */
  lemma ListedKeys(base: seq<Store>, name: Key, blocks: seq<Bytes>, manifest: Bytes, j: nat, k: Key)
    requires |base| > 0 && Clean(base, name) && j < |base|
    ensures (j, k) in Universe(Committed(base, name, blocks, manifest), name) <==>
            k in BlockKeys(name, blocks, |base|, j) || (j == |blocks| % |base| && k == ManifestKey(name))
  {
    var stores := Committed(base, name, blocks, manifest);
    assert (j, k) in Universe(stores, name) <==> k in stores[j] && InRange(name, k);
    OwnKeysInRange(name, 0, 0);
    if k in BlockKeys(name, blocks, |base|, j) {
      var i :| 0 <= i < |blocks| && i % |base| == j && k == KeyOf(name, blocks, i);
      OwnKeysInRange(name, i, |blocks[i]|);
      StripeHolds(base, name, blocks, i);
    } else {
      StripeKeeps(base, name, blocks, j, k);
    }
  }

  lemma StoredBlock(base: seq<Store>, name: Key, blocks: seq<Bytes>, manifest: Bytes, i: nat)
    requires |base| > 0 && i < |blocks|
    ensures FetchOne(Committed(base, name, blocks, manifest), Wanted(name, blocks, |base|, i)) == blocks[i]
  {
    StripeHolds(base, name, blocks, i);
    ManifestIsNoDataKey(name, i, |blocks[i]|);
  }

  /** Collecting succeeds exactly when no key throws, and then finds the blocks of all the items,
      once each. */
  lemma {:induction false} CollectedIs(items: seq<Item>)
    ensures Collected(items).Some? <==> forall x :: x in items ==> Parse(x.1) != Throws
    ensures Collected(items).Some? ==>
              forall p :: p in Collected(items).value <==> (p.client, p.key) in items && BlockOf((p.client, p.key)) == Some(p)
    ensures Collected(items).Some? && NoDup(items) ==> NoDup(Collected(items).value)
  {
    if items != [] {
      var init, x := items[..|items| - 1], items[|items| - 1];
      assert items == init + [x];
      CollectedIs(init);
    }
  }

  lemma {:induction false} AtLeastIndex(q: seq<nat>, i: nat)
    requires forall a, b :: 0 <= a < b < |q| ==> q[a] < q[b]
    requires i < |q|
    ensures i <= q[i]
  {
    if i > 0 {
      AtLeastIndex(q, i - 1);
    }
  }

  lemma {:induction false} CountsUpTo(q: seq<nat>, n: nat, i: nat)
    requires forall a, b :: 0 <= a < b < |q| ==> q[a] < q[b]
    requires forall m: nat :: m in q <==> m < n
    requires i <= n
    ensures i <= |q| && forall a :: 0 <= a < i ==> q[a] == a
  {
    if i > 0 {
      CountsUpTo(q, n, i - 1);
      assert i - 1 in q;
      var p :| 0 <= p < |q| && q[p] == i - 1;
      AtLeastIndex(q, i - 1);
    }
  }

  /** A strictly increasing sequence that takes every value below n and no other counts up. */
  lemma CountsUp(q: seq<nat>, n: nat)
    requires forall a, b :: 0 <= a < b < |q| ==> q[a] < q[b]
    requires forall m: nat :: m in q <==> m < n
    ensures |q| == n && forall a :: 0 <= a < n ==> q[a] == a
  {
    CountsUpTo(q, n, n);
    if |q| > 0 {
      AtLeastIndex(q, |q| - 1);
      assert q[|q| - 1] in q;
    }
  }

  /** Sorting by sequence number puts the blocks in order, however the listing interleaved
      drives and pages, and leaves the manifest out. */
  lemma SortedQueue(chunks: seq<PendingGet>, name: Key, blocks: seq<Bytes>, drives: nat)
    requires drives > 0 && NoDup(chunks)
    requires forall p :: p in chunks <==> p.sequence < |blocks| && p == Wanted(name, blocks, drives, p.sequence)
    ensures SortBySequence(chunks) == seq(|blocks|, i requires 0 <= i < |blocks| => Wanted(name, blocks, drives, i))
  {
    var q := SortBySequence(chunks);
    SortIs(chunks);
    forall p ensures p in q <==> p in chunks {
      assert p in q <==> p in multiset(q);
    }
    SameCounts(chunks, q);
    OrderedQueue(q, name, blocks, drives);
  }

  lemma OrderedQueue(q: seq<PendingGet>, name: Key, blocks: seq<Bytes>, drives: nat)
    requires drives > 0 && NoDup(q) && InSequence(q)
    requires forall p :: p in q <==> p.sequence < |blocks| && p == Wanted(name, blocks, drives, p.sequence)
    ensures q == seq(|blocks|, i requires 0 <= i < |blocks| => Wanted(name, blocks, drives, i))
  {
    var numbers := Numbers(q);
    forall m: nat | m < |blocks| ensures m in numbers {
      NumberOf(q, Wanted(name, blocks, drives, m));
    }
    forall a, b | 0 <= a < b < |numbers| ensures numbers[a] < numbers[b] {
      assert q[a] in q && q[b] in q;
    }
    CountsUp(numbers, |blocks|);
    forall a | 0 <= a < |q| ensures q[a] == Wanted(name, blocks, drives, a) {
      assert q[a] in q && numbers[a] == a;
    }
  }

  function Numbers(q: seq<PendingGet>): (numbers: seq<nat>)
    ensures |numbers| == |q| && forall i :: 0 <= i < |q| ==> numbers[i] == q[i].sequence
    ensures forall m: nat :: m in numbers ==> exists p :: p in q && p.sequence == m
  {
    seq(|q|, i requires 0 <= i < |q| => q[i].sequence)
  }

  lemma NumberOf(q: seq<PendingGet>, p: PendingGet)
    requires p in q
    ensures p.sequence in Numbers(q)
  {
    var i :| 0 <= i < |q| && q[i] == p;
    assert Numbers(q)[i] == p.sequence;
  }

  /** The round trip on drive contents: from any complete listing of a committed upload the
      downloader either sorts out exactly the blocks, in order, or throws on a number that does
      not fit an `int`; and it throws in no other case. */
  lemma RoundTrip(base: seq<Store>, name: Key, blocks: seq<Bytes>, manifest: Bytes, items: seq<Item>)
    requires |base| > 0 && Clean(base, name)
    requires ListingOf(items, Committed(base, name, blocks, manifest), name)
    ensures items != []
    ensures Collected(items).Some? <==> Readable(blocks)
    ensures Readable(blocks) ==>
              Fetch(Committed(base, name, blocks, manifest), SortBySequence(Collected(items).value)) == blocks
  {
    var stores, c := Committed(base, name, blocks, manifest), |base|;
    assert ItemsOf(items, name, blocks, c) by {
      forall x: Item | x.0 < c
        ensures x in items <==> x.1 in BlockKeys(name, blocks, c, x.0) || x == (|blocks| % c, ManifestKey(name))
      {
        ListedKeys(base, name, blocks, manifest, x.0, x.1);
        assert x == (x.0, x.1);
      }
    }
    assert (|blocks| % c, ManifestKey(name)) in items;
    ItemsParse(items, name, blocks, c);
    CollectedIs(items);
    if Readable(blocks) {
      var chunks := Collected(items).value;
      forall p { ItemsWanted(items, name, blocks, c, p); }
      SortedQueue(chunks, name, blocks, c);
      forall i | 0 <= i < |blocks| ensures Fetch(stores, SortBySequence(chunks))[i] == blocks[i] {
        StoredBlock(base, name, blocks, manifest, i);
      }
    }
  }

  /** The items are the blocks and the manifest, each on its drive. */
  ghost predicate ItemsOf(items: seq<Item>, name: Key, blocks: seq<Bytes>, drives: nat)
    requires drives > 0
  {
    forall x: Item :: x in items <==>
      || (x.0 < drives && x.1 in BlockKeys(name, blocks, drives, x.0))
      || x == (|blocks| % drives, ManifestKey(name))
  }

  lemma BlockItem(items: seq<Item>, name: Key, blocks: seq<Bytes>, drives: nat, i: nat)
    requires drives > 0 && i < |blocks| && ItemsOf(items, name, blocks, drives)
    ensures (i % drives, KeyOf(name, blocks, i)) in items
    ensures Parse(KeyOf(name, blocks, i)) == if i <= MAX_INT32 && |blocks[i]| <= MAX_INT32 then Block(i, |blocks[i]|) else Throws
  {
    ParseDataKey(name, i, |blocks[i]|);
    assert KeyOf(name, blocks, i) in BlockKeys(name, blocks, drives, i % drives);
  }

  lemma ItemsParse(items: seq<Item>, name: Key, blocks: seq<Bytes>, drives: nat)
    requires drives > 0 && ItemsOf(items, name, blocks, drives)
    ensures (forall x :: x in items ==> Parse(x.1) != Throws) <==> Readable(blocks)
  {
    if Readable(blocks) {
      forall x | x in items ensures Parse(x.1) != Throws {
        if x.1 == ManifestKey(name) {
          ParseManifestKey(name);
        } else {
          var i :| 0 <= i < |blocks| && i % drives == x.0 && x.1 == KeyOf(name, blocks, i);
          BlockItem(items, name, blocks, drives, i);
          assert blocks[i] in blocks;
        }
      }
    } else if |blocks| > MAX_INT32 + 1 {
      BlockItem(items, name, blocks, drives, MAX_INT32 + 1);
    } else {
      var b :| b in blocks && |b| > MAX_INT32;
      var i :| 0 <= i < |blocks| && blocks[i] == b;
      BlockItem(items, name, blocks, drives, i);
    }
  }

  lemma WantedIsItem(items: seq<Item>, name: Key, blocks: seq<Bytes>, drives: nat, i: nat, x: Item)
    requires drives > 0 && ItemsOf(items, name, blocks, drives) && Readable(blocks)
    requires i < |blocks| && x == (i % drives, KeyOf(name, blocks, i))
    ensures x in items && BlockOf(x) == Some(Wanted(name, blocks, drives, i))
  {
    BlockItem(items, name, blocks, drives, i);
    assert blocks[i] in blocks;
  }

  lemma ItemsWanted(items: seq<Item>, name: Key, blocks: seq<Bytes>, drives: nat, p: PendingGet)
    requires drives > 0 && ItemsOf(items, name, blocks, drives) && Readable(blocks)
    ensures (p.client, p.key) in items && BlockOf((p.client, p.key)) == Some(p) <==>
            p.sequence < |blocks| && p == Wanted(name, blocks, drives, p.sequence)
  {
    var x: Item := (p.client, p.key);
    if p.sequence < |blocks| && p == Wanted(name, blocks, drives, p.sequence) {
      WantedIsItem(items, name, blocks, drives, p.sequence, x);
    } else if x in items && BlockOf(x) == Some(p) {
      ManifestNamesNoBlock(name, x);
      var i :| 0 <= i < |blocks| && i % drives == p.client && p.key == KeyOf(name, blocks, i);
      WantedIsItem(items, name, blocks, drives, i, x);
      assert false;
    }
  }

  lemma ManifestNamesNoBlock(name: Key, x: Item)
    ensures x.1 == ManifestKey(name) ==> BlockOf(x) == None
  {
    ParseManifestKey(name);
  }

  /** The manifest of a committed upload is on the drive after the last block's, with what the
      attributes left, and no block has overwritten it. */
  lemma ManifestHolds(base: seq<Store>, name: Key, blocks: seq<Bytes>, manifest: Bytes)
    requires |base| > 0
    ensures var s := Committed(base, name, blocks, manifest)[|blocks| % |base|];
            ManifestKey(name) in s && s[ManifestKey(name)] == manifest
  {
  }

  /** Removing a committed upload puts every drive back exactly as it was before it. */
  lemma RemovalUndoesUpload(base: seq<Store>, name: Key, blocks: seq<Bytes>, manifest: Bytes, items: seq<Item>)
    requires |base| > 0 && Clean(base, name)
    requires ListingOf(items, Committed(base, name, blocks, manifest), name)
    ensures DeleteAll(Committed(base, name, blocks, manifest), items) == base
  {
    var stores := Committed(base, name, blocks, manifest);
    RemovalExact(stores, items, name);
    forall j | 0 <= j < |base| ensures DeleteAll(stores, items)[j] == base[j] {
      forall k | !InRange(name, k) ensures (k in stores[j] <==> k in base[j]) && (k in base[j] ==> stores[j][k] == base[j][k]) {
        OutsideKept(base, name, blocks, manifest, j, k);
      }
    }
  }

  lemma OutsideKept(base: seq<Store>, name: Key, blocks: seq<Bytes>, manifest: Bytes, j: nat, k: Key)
    requires j < |base| && !InRange(name, k)
    ensures var s := Committed(base, name, blocks, manifest)[j];
            (k in s <==> k in base[j]) && (k in base[j] ==> s[k] == base[j][k])
  {
    OwnKeysInRange(name, 0, 0);
    forall i | 0 <= i < |blocks| ensures KeyOf(name, blocks, i) != k { OwnKeysInRange(name, i, |blocks[i]|); }
    StripeKeeps(base, name, blocks, j, k);
  }

  /** Reads until IsEof. */
  method ReadAll(download: KineticDownload) returns (out: Bytes)
    requires download.Valid()
    modifies download`running, download`waiting
    ensures out == Flatten(old(download.ToDeliver()))
    ensures download.ToDeliver() == []
  {
    out := [];
    ghost var whole := Flatten(download.ToDeliver());
    var eof := download.IsEof();
    while !eof
      invariant download.Valid()
      invariant out + Flatten(download.ToDeliver()) == whole
      invariant eof <==> download.ToDeliver() == []
      decreases |download.ToDeliver()|
    {
      ghost var left := download.ToDeliver();
      var size, buf := download.Read([]);
      Associative(out, buf, Flatten(left[1..]));
      out := out + buf;
      eof := download.IsEof();
    }
  }

  /** One Write for each piece; the blocks depend only on the concatenation. */
  method WriteAll(upload: KineticUpload, writes: seq<Bytes>)
    requires upload.Valid() && upload.step == Prepared && upload.blocks == [] && upload.buffer == []
    modifies upload`nextClient, upload`ops, upload`buffer, upload`blocks, upload.clients
    ensures upload.Valid()
    ensures upload.blocks == FullBlocks(Flatten(writes), upload.bufferLimit)
    ensures upload.buffer == Rest(Flatten(writes), upload.bufferLimit)
  {
    for i := 0 to |writes|
      invariant upload.Valid() && upload.step == Prepared
      invariant upload.blocks == FullBlocks(Flatten(writes[..i]), upload.bufferLimit)
      invariant upload.buffer == Rest(Flatten(writes[..i]), upload.bufferLimit)
    {
      upload.Write(writes[i]);
      CutAppend(Flatten(writes[..i]), writes[i], upload.bufferLimit);
      FlattenSnoc(writes[..i], writes[i]);
      assert writes[..i + 1] == writes[..i] + [writes[i]];
    }
    assert writes[..|writes|] == writes;
  }

  /** The blocks of a committed upload: the data cut to the limit, then what the extended
      attributes spill. */
  function CommittedBlocks(data: Bytes, json: Bytes, limit: nat): seq<Bytes>
    requires limit > 0
  {
    FullBlocks(data, limit) + (if Rest(data, limit) == [] then [] else [Rest(data, limit)]) + FullBlocks(json, limit)
  }

  lemma CommittedBytes(data: Bytes, json: Bytes, limit: nat)
    requires limit > 0
    ensures Flatten(CommittedBlocks(data, json, limit)) == data + Flatten(FullBlocks(json, limit))
    ensures Flatten(FullBlocks(json, limit)) == [] <==> |json| < limit
  {
    var full, rest := FullBlocks(data, limit), Rest(data, limit);
    var tail := if rest == [] then [] else [rest];
    CutIsExact(data, limit);
    FlattenAppend(full + tail, FullBlocks(json, limit));
    FlattenAppend(full, tail);
    assert tail != [] ==> Flatten(tail) == rest + Flatten([]);
  }

  /** The upload side: any writes, then a commit. */
  method Store(upload: KineticUpload, writes: seq<Bytes>, json: Bytes)
    requires upload.Valid() && upload.blocks == [] && upload.buffer == [] && upload.step == Prepared
    modifies upload, upload.clients
    ensures var blocks := CommittedBlocks(Flatten(writes), json, upload.bufferLimit);
            Stores(upload.clients) == Committed(upload.base, upload.chunkid, blocks, Rest(json, upload.bufferLimit))
  {
    WriteAll(upload, writes);
    ghost var data, limit := Flatten(writes), upload.bufferLimit;
    assert upload.Emitted() == FullBlocks(data, limit) + if Rest(data, limit) == [] then [] else [Rest(data, limit)];
    var rc := upload.Commit(json);
  }

  /** The download side, from drives that hold a committed upload. */
  method FetchBack(clients: seq<Drive>, name: Key, ghost base: seq<Store>, ghost blocks: seq<Bytes>, ghost manifest: Bytes)
    returns (fetched: Option<Bytes>)
    requires |base| > 0 && Clean(base, name)
    requires Stores(clients) == Committed(base, name, blocks, manifest)
    ensures fetched == if Readable(blocks) then Some(Flatten(blocks)) else None
  {
    var download := new KineticDownload(clients, name);
    var status;
    ghost var items;
    status, items := download.Prepare();
    RoundTrip(base, name, blocks, manifest, items);
    if status.None? {
      return None;
    }
    assert download.waiting == SortBySequence(Collected(items).value);
    assert download.ToDeliver() == Fetch(Stores(clients), download.waiting);
    var out := ReadAll(download);
    fetched := Some(out);
  }

  /** Store, then fetch: from a prepared upload (Prepare itself only succeeds for a single
      drive), any writes and a commit, a download of the same name from the same drives reads
      back the concatenation of the writes exactly when the rendered attributes are shorter
      than a block; otherwise their full blocks follow the data. */
  method StoreThenFetch(upload: KineticUpload, writes: seq<Bytes>, json: Bytes) returns (fetched: Option<Bytes>)
    requires upload.Valid() && upload.blocks == [] && upload.buffer == []
    requires upload.step == Prepared || (upload.step == Init && |upload.clients| == 1)
    requires Clean(upload.base, upload.chunkid)
    modifies upload, upload.clients
    ensures fetched.Some? <==> Readable(CommittedBlocks(Flatten(writes), json, upload.bufferLimit))
    ensures fetched.Some? ==> fetched.value == Flatten(writes) + Flatten(FullBlocks(json, upload.bufferLimit))
    ensures fetched.Some? ==> (fetched.value == Flatten(writes) <==> |json| < upload.bufferLimit)
  {
    if upload.step == Init {
      OwnKeysInRange(upload.chunkid, 0, 0);
      assert Stores(upload.clients)[0] == upload.base[0];
      var rc := upload.Prepare();
    }
    Store(upload, writes, json);
    CommittedBytes(Flatten(writes), json, upload.bufferLimit);
    fetched := FetchBack(upload.clients, upload.chunkid, upload.base,
                         CommittedBlocks(Flatten(writes), json, upload.bufferLimit), Rest(json, upload.bufferLimit));
  }
}
