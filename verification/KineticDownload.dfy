/** Downloading a chunk: list its keys, sort the blocks they name, and fetch them through a
    sliding window (src/oio/blob/kinetic/coro/blob.cpp:54-181). */
module KineticDownload {
  import opened Basics
  import opened KeyOrder
  import opened KineticKeys
  import opened Drives
  import opened KineticListing

  /** A block to fetch: its number and size as parsed from its key, its drive, its key. */
  datatype PendingGet = PendingGet(sequence: nat, size: nat, client: nat, key: Key)

  const PARALLEL_FACTOR: nat := 4

  /** The block a listed item names, if any. */
  function BlockOf(x: Item): Option<PendingGet> {
    match Parse(x.1)
    case Block(sequence, size) => Some(PendingGet(sequence, size, x.0, x.1))
    case _ => None
  }

  /** One listed item: a block goes to the front of the list, a manifest or a malformed key is
      skipped, and `None` stands for the exception of the parser. */
  function Take(chunks: seq<PendingGet>, x: Item): Option<seq<PendingGet>> {
    match Parse(x.1)
    case Throws => None
    case Block(sequence, size) => Some([PendingGet(sequence, size, x.0, x.1)] + chunks)
    case Malformed => Some(chunks)
    case Manifest => Some(chunks)
  }

  /** The blocks named by a listing, the last one first. */
  function Collected(items: seq<Item>): Option<seq<PendingGet>> {
    if items == [] then Some([])
    else
      match Collected(items[..|items| - 1])
      case None => None
      case Some(chunks) => Take(chunks, items[|items| - 1])
  }

  /** Once a key has made the parser throw, the rest of the listing cannot help. */
  lemma {:induction false} CollectedThrows(items: seq<Item>, n: nat)
    requires n <= |items| && Collected(items[..n]) == None
    ensures Collected(items) == None
  {
    if n == |items| {
      assert items[..n] == items;
    } else {
      assert items[..|items| - 1][..n] == items[..n];
      CollectedThrows(items[..|items| - 1], n);
    }
  }

  function Insert(p: PendingGet, s: seq<PendingGet>): (t: seq<PendingGet>)
    ensures forall x :: x in t <==> x == p || x in s
  {
    if s == [] || p.sequence <= s[0].sequence then [p] + s else [s[0]] + Insert(p, s[1..])
  }

  /** The stable sort by sequence number that `std::forward_list::sort` performs. */
  function SortBySequence(s: seq<PendingGet>): seq<PendingGet> {
    if s == [] then [] else Insert(s[0], SortBySequence(s[1..]))
  }

  ghost predicate InSequence(s: seq<PendingGet>) {
    forall i, j :: 0 <= i < j < |s| ==> s[i].sequence <= s[j].sequence
  }

  lemma {:induction false} InsertPermutes(p: PendingGet, s: seq<PendingGet>)
    ensures multiset(Insert(p, s)) == multiset(s) + multiset{p}
  {
    if !(s == [] || p.sequence <= s[0].sequence) {
      InsertPermutes(p, s[1..]);
      assert s == [s[0]] + s[1..];
    }
  }

  lemma {:induction false} InsertKeeps(p: PendingGet, s: seq<PendingGet>)
    requires InSequence(s)
    ensures InSequence(Insert(p, s))
  {
    if s == [] || p.sequence <= s[0].sequence {
    } else {
      var tail, t := s[1..], Insert(p, s[1..]);
      InsertKeeps(p, tail);
      forall j | 0 <= j < |t| ensures s[0].sequence <= t[j].sequence {
        assert t[j] in t;
        assert forall x :: x in tail ==> s[0].sequence <= x.sequence;
      }
    }
  }

  lemma {:induction false} SortIs(s: seq<PendingGet>)
    ensures InSequence(SortBySequence(s))
    ensures multiset(SortBySequence(s)) == multiset(s)
  {
    if s != [] {
      SortIs(s[1..]);
      InsertKeeps(s[0], SortBySequence(s[1..]));
      InsertPermutes(s[0], SortBySequence(s[1..]));
      assert s == [s[0]] + s[1..];
    }
  }

  /** The blocks with one number. */
  function Numbered(s: seq<PendingGet>, n: nat): seq<PendingGet> {
    if s == [] then [] else (if s[0].sequence == n then [s[0]] else []) + Numbered(s[1..], n)
  }

  lemma NumberedCons(p: PendingGet, s: seq<PendingGet>, n: nat)
    ensures Numbered([p] + s, n) == (if p.sequence == n then [p] else []) + Numbered(s, n)
  {
    assert ([p] + s)[1..] == s;
  }

  lemma {:induction false} InsertStable(p: PendingGet, s: seq<PendingGet>, n: nat)
    ensures Numbered(Insert(p, s), n) == (if p.sequence == n then [p] else []) + Numbered(s, n)
  {
    if s == [] || p.sequence <= s[0].sequence {
      NumberedCons(p, s, n);
    } else {
      InsertStable(p, s[1..], n);
      NumberedCons(s[0], Insert(p, s[1..]), n);
    }
  }

  /** The sort is stable: blocks with the same number stay in the order they had. */
  lemma {:induction false} SortIsStable(s: seq<PendingGet>, n: nat)
    ensures Numbered(SortBySequence(s), n) == Numbered(s, n)
  {
    if s != [] {
      SortIsStable(s[1..], n);
      InsertStable(s[0], SortBySequence(s[1..]), n);
    }
  }

  /** So of two blocks with the same number, as an upload that never committed may have left one,
      the one listed later is delivered first. */
  lemma LaterFirst(items: seq<Item>, x: Item, n: nat, size: nat)
    requires Collected(items).Some? && Parse(x.1) == Block(n, size)
    ensures Collected(items + [x]).Some?
    ensures Numbered(SortBySequence(Collected(items + [x]).value), n) ==
            [PendingGet(n, size, x.0, x.1)] + Numbered(SortBySequence(Collected(items).value), n)
  {
    var p, before := PendingGet(n, size, x.0, x.1), Collected(items).value;
    assert (items + [x])[..|items|] == items;
    assert Collected(items + [x]) == Some([p] + before);
    SortIsStable([p] + before, n);
    SortIsStable(before, n);
    assert ([p] + before)[1..] == before;
  }

  /** What a GET brings back; nothing if the key is not there. */
  function FetchOne(stores: seq<Store>, p: PendingGet): Bytes {
    if p.client < |stores| && p.key in stores[p.client] then stores[p.client][p.key] else []
  }

  function Fetch(stores: seq<Store>, queue: seq<PendingGet>): (values: seq<Bytes>)
    ensures |values| == |queue|
    ensures forall i :: 0 <= i < |queue| ==> values[i] == FetchOne(stores, queue[i])
  {
    seq(|queue|, i requires 0 <= i < |queue| => FetchOne(stores, queue[i]))
  }

  /** Starting the oldest fetch does not change what is to be delivered. */
  lemma FetchMoves(running: seq<Bytes>, stores: seq<Store>, queue: seq<PendingGet>)
    requires queue != []
    ensures (running + [FetchOne(stores, queue[0])]) + Fetch(stores, queue[1..]) == running + Fetch(stores, queue)
  {
    assert Fetch(stores, queue) == [FetchOne(stores, queue[0])] + Fetch(stores, queue[1..]);
    Associative(running, [FetchOne(stores, queue[0])], Fetch(stores, queue[1..]));
  }

  class KineticDownload {
    const clients: seq<Drive>
    const chunkid: Key
    /** The fetches in flight, with what each brings back, and those not yet started. */
    var running: seq<Bytes>
    var waiting: seq<PendingGet>

    ghost predicate Valid()
      reads this
    {
      |running| < PARALLEL_FACTOR && forall p :: p in waiting ==> p.client < |clients|
    }

    /** The blocks still to be delivered, in order. */
    ghost function ToDeliver(): seq<Bytes>
      reads this, clients
    {
      running + Fetch(Stores(clients), waiting)
    }

    constructor (clients: seq<Drive>, chunkid: Key)
      ensures Valid() && running == [] && waiting == []
      ensures this.clients == clients && this.chunkid == chunkid
    {
      this.clients := clients;
      this.chunkid := chunkid;
      running, waiting := [], [];
    }

    /** Queues the blocks of the chunk in sequence order. The result is `None` when the parser
        throws. */
    method Prepare() returns (rc: Option<Status>, ghost items: seq<Item>)
      requires Valid()
      modifies this`waiting
      ensures Valid() && ListingOf(items, Stores(clients), chunkid)
      ensures items == [] ==> rc == Some(NotFound) && waiting == old(waiting)
      ensures items != [] && Collected(items) == None ==> rc == None && waiting == old(waiting)
      ensures items != [] && Collected(items).Some? ==>
                rc == Some(OK) && waiting == old(waiting) + SortBySequence(Collected(items).value)
    {
      var listing := new KineticListing(clients, chunkid);
      var status := listing.Prepare();
      items := listing.items;
      if status != OK {
        return Some(status), items;
      }
      assert forall x :: x in items ==> x in Universe(Stores(clients), chunkid);
      var chunks := ParseAll(listing);
      if chunks.None? {
        return None, items;
      }
      SortIs(chunks.value);
      forall p | p in SortBySequence(chunks.value) ensures p in chunks.value {
        assert p in multiset(SortBySequence(chunks.value));
      }
      waiting := waiting + SortBySequence(chunks.value);
      rc := Some(OK);
    }

    /** One turn of the parse loop. */
    method ParseNext(x: Item, chunks: seq<PendingGet>, ghost items: seq<Item>, ghost n: nat)
      returns (next: Option<seq<PendingGet>>)
      requires n < |items| && x == items[n] && x.0 < |clients|
      requires Collected(items[..n]) == Some(chunks)
      requires forall p :: p in chunks ==> p.client < |clients|
      ensures next == Collected(items[..n + 1])
      ensures next.Some? ==> forall p :: p in next.value ==> p.client < |clients|
    {
      assert items[..n + 1][..n] == items[..n];
      next := Take(chunks, x);
    }

    /** Runs the parser over a fresh listing; each block found goes to the front of the list. */
    method ParseAll(listing: KineticListing) returns (chunks: Option<seq<PendingGet>>)
      requires listing.nextItem == 0
      requires forall x :: x in listing.items ==> x.0 < |clients|
      modifies listing`nextItem
      ensures chunks == Collected(listing.items)
      ensures chunks.Some? ==> forall p :: p in chunks.value ==> p.client < |clients|
    {
      ghost var items := listing.items;
      chunks := Some([]);
      while listing.nextItem < |listing.items|
        invariant listing.nextItem <= |items| && listing.items == items
        invariant chunks.Some? && chunks == Collected(items[..listing.nextItem])
        invariant forall p :: p in chunks.value ==> p.client < |clients|
      {
        ghost var n := listing.nextItem;
        var item := listing.Next();
        assert items[n] in items;
        chunks := ParseNext(item.value, chunks.value, items, n);
        if chunks.None? {
          CollectedThrows(items, n + 1);
          return;
        }
      }
      assert items[..|items|] == items;
    }

    method IsEof() returns (eof: bool)
      ensures eof <==> ToDeliver() == []
    {
      eof := waiting == [] && running == [];
    }

    /** Starts the oldest waiting fetch. */
    method StartFetch()
      requires waiting != [] && waiting[0].client < |clients|
      modifies this`running, this`waiting
      ensures ToDeliver() == old(ToDeliver())
      ensures waiting == old(waiting)[1..]
      ensures running == old(running) + [FetchOne(Stores(clients), old(waiting)[0])]
    {
      FetchMoves(running, Stores(clients), waiting);
      var pg := waiting[0];
      waiting := waiting[1..];
      var reply := clients[pg.client].Get(pg.key);
      var value := match reply case Some(v) => v case None => [];
      running := running + [value];
    }

    /** Starts waiting fetches while fewer than four are running. */
    method StartFetches()
      requires Valid()
      modifies this`running, this`waiting
      ensures ToDeliver() == old(ToDeliver())
      ensures forall p :: p in waiting ==> p.client < |clients|
      ensures |running| == if |ToDeliver()| < PARALLEL_FACTOR then |ToDeliver()| else PARALLEL_FACTOR
    {
      while |running| < PARALLEL_FACTOR
        invariant |running| <= PARALLEL_FACTOR
        invariant forall p :: p in waiting ==> p.client < |clients|
        invariant ToDeliver() == old(ToDeliver())
        decreases |waiting|
      {
        if waiting == [] {
          break;
        }
        StartFetch();
      }
    }

    /** Tops the window up, then delivers the oldest. With nothing left the
        caller's buffer is untouched. */
    method Read(buf0: Bytes) returns (size: nat, buf: Bytes)
      requires Valid()
      modifies this`running, this`waiting
      ensures Valid()
      ensures old(ToDeliver()) == [] ==> size == 0 && buf == buf0 && ToDeliver() == []
      ensures old(ToDeliver()) != [] ==>
                && buf == old(ToDeliver())[0] && size == |buf|
                && ToDeliver() == old(ToDeliver())[1..]
                && |running| + 1 == (if old(|ToDeliver()|) < PARALLEL_FACTOR then old(|ToDeliver()|) else PARALLEL_FACTOR)
                && |running| < 4
    {
      StartFetches();
      if running == [] {
        return 0, buf0;
      }
      ghost var left := ToDeliver();
      buf := running[0];
      running := running[1..];
      size := |buf|;
      assert ToDeliver() == left[1..] && left[0] == buf;
    }
  }
}
