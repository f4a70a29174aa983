/** The in-memory blob store and its transactions (src/oio/blob/mem/blob.cpp). */
module MemStore {
  import opened Basics

  type Name = Bytes
  type Pid = int

  datatype Item = Item(data: Bytes, pending: bool)

  type Items = map<Name, Item>

  /** An upload: the bytes it has written are those its accepted writes were given. */
  datatype Upload = Upload(name: Name, step: Step, written: Bytes)

  datatype Removal = Removal(name: Name, step: Step)

  // The operations of the cache: their status, and the items they leave.

  function CreateItem(items: Items, name: Name): (Status, Items) {
    if name in items then (Already, items) else (OK, items[name := Item([], true)])
  }

  function CommitItem(items: Items, name: Name): (Status, Items) {
    if name !in items then (NotFound, items)
    else if !items[name].pending then (InternalError, items)
    else (OK, items[name := items[name].(pending := false)])
  }

  function AbortItem(items: Items, name: Name): (Status, Items) {
    if name !in items then (OK, items)
    else if !items[name].pending then (InternalError, items)
    else (OK, items - {name})
  }

  function AppendItem(items: Items, name: Name, buf: Bytes): (Status, Items) {
    if name !in items then (NotFound, items)
    else if !items[name].pending then (Already, items)
    else (OK, items[name := items[name].(data := items[name].data + buf)])
  }

  /** The life of an item: a free name is created once, pending and empty; what is written to it
      adds up until it is committed, once; from then on it can neither be written, committed,
      aborted nor created again. */
  lemma CommittedLife(items: Items, name: Name, a: Bytes, b: Bytes, created: Items, once: Items, twice: Items, done: Items)
    requires name !in items && created == CreateItem(items, name).1
    requires once == AppendItem(created, name, a).1 && twice == AppendItem(once, name, b).1
    requires done == CommitItem(twice, name).1
    ensures CreateItem(items, name).0 == OK && created == items[name := Item([], true)]
    ensures CreateItem(created, name) == (Already, created)
    ensures AppendItem(created, name, a).0 == AppendItem(once, name, b).0 == CommitItem(twice, name).0 == OK
    ensures done == items[name := Item(a + b, false)]
    ensures CommitItem(done, name) == AbortItem(done, name) == (InternalError, done)
    ensures AppendItem(done, name, a) == CreateItem(done, name) == (Already, done)
  {
    assert [] + a + b == a + b;
  }

  /** Aborted, a pending item leaves nothing; and a free name cannot be written or committed, but
      can be aborted. */
  lemma AbortedLife(items: Items, name: Name, a: Bytes)
    requires name !in items
    ensures AbortItem(CreateItem(items, name).1, name) == (OK, items)
    ensures AbortItem(AppendItem(CreateItem(items, name).1, name, a).1, name) == (OK, items)
    ensures AppendItem(items, name, a) == CommitItem(items, name) == (NotFound, items)
    ensures AbortItem(items, name) == (OK, items)
  {
    assert items[name := Item([], true)] - {name} == items;
    assert AppendItem(CreateItem(items, name).1, name, a).1 - {name} == items;
  }

  // The transactions, over the items they share.

  function PrepareUpload(items: Items, u: Upload): (Status, Items, Upload) {
    if u.step != Init then (InternalError, items, u)
    else
      var (rc, t) := CreateItem(items, u.name);
      (rc, t, if rc == OK then u.(step := Prepared, written := []) else u)
  }

  function CommitUpload(items: Items, u: Upload): (Status, Items, Upload) {
    if u.step != Prepared then (InternalError, items, u)
    else
      var (rc, t) := CommitItem(items, u.name);
      (rc, t, u.(step := Done))
  }

  function AbortUpload(items: Items, u: Upload): (Status, Items, Upload) {
    if u.step != Prepared then (InternalError, items, u)
    else
      var (rc, t) := AbortItem(items, u.name);
      (rc, t, u.(step := Done))
  }

  /** The step is not checked, and the status is dropped. */
  function WriteUpload(items: Items, u: Upload, buf: Bytes): (Items, Upload) {
    var (rc, t) := AppendItem(items, u.name, buf);
    (t, if rc == OK then u.(written := u.written + buf) else u)
  }

  predicate Removable(items: Items, name: Name) { name in items && !items[name].pending }

  function PrepareRemoval(items: Items, r: Removal): (Status, Removal) {
    if r.step != Init then (InternalError, r)
    else if !Removable(items, r.name) then (NotFound, r)
    else (OK, r.(step := Prepared))
  }

  function CommitRemoval(items: Items, r: Removal): (Status, Items, Removal) {
    if r.step != Prepared then (InternalError, items, r)
    else if !Removable(items, r.name) then (NotFound, items, r)
    else (OK, items - {r.name}, r.(step := Done))
  }

  function AbortRemoval(r: Removal): (Status, Removal) {
    if r.step != Prepared then (InternalError, r) else (OK, r.(step := Done))
  }

  // The same operations on objects.

  class Cache {
    var items: Items

    constructor ()
      ensures items == map[]
    {
      items := map[];
    }

    method Create(name: Name) returns (rc: Status)
      modifies this
      ensures (rc, items) == CreateItem(old(items), name)
    {
      if name in items {
        return Already;
      }
      items := items[name := Item([], true)];
      rc := OK;
    }

    method Commit(name: Name) returns (rc: Status)
      modifies this
      ensures (rc, items) == CommitItem(old(items), name)
    {
      if name !in items {
        return NotFound;
      }
      if !items[name].pending {
        return InternalError;
      }
      items := items[name := items[name].(pending := false)];
      rc := OK;
    }

    method Abort(name: Name) returns (rc: Status)
      modifies this
      ensures (rc, items) == AbortItem(old(items), name)
    {
      if name !in items {
        return OK;
      }
      if !items[name].pending {
        return InternalError;
      }
      items := items - {name};
      rc := OK;
    }

    method Write(name: Name, buf: Bytes) returns (rc: Status)
      modifies this
      ensures (rc, items) == AppendItem(old(items), name, buf)
    {
      if name in items {
        if items[name].pending {
          items := items[name := items[name].(data := items[name].data + buf)];
          return OK;
        }
        return Already;
      }
      rc := NotFound;
    }

    /** Whether the item is pending is not looked at. */
    method Get(name: Name) returns (rc: Status, out: Bytes)
      ensures rc == if name in items then OK else NotFound
      ensures name in items ==> out == items[name].data
    {
      if name !in items {
        return NotFound, [];
      }
      return OK, items[name].data;
    }

    method Stat(name: Name) returns (present: bool, pending: bool)
      ensures present <==> name in items
      ensures pending <==> name in items && items[name].pending
    {
      present := name in items;
      pending := present && items[name].pending;
    }

    method Remove(name: Name)
      modifies this
      ensures items == old(items) - {name}
    {
      items := items - {name};
    }
  }

  class MemUpload {
    const cache: Cache
    const name: Name
    var step: Step
    ghost var written: Bytes

    ghost function View(): Upload
      reads this
    {
      Upload(name, step, written)
    }

    constructor (cache: Cache, name: Name)
      ensures this.cache == cache && this.name == name && View() == Upload(name, Init, [])
    {
      this.cache, this.name := cache, name;
      step, written := Init, [];
    }

    method Prepare() returns (rc: Status)
      modifies this, cache
      ensures (rc, cache.items, View()) == PrepareUpload(old(cache.items), old(View()))
    {
      if step != Init {
        return InternalError;
      }
      rc := cache.Create(name);
      if rc == OK {
        step := Prepared;
        written := [];
      }
    }

    method Commit() returns (rc: Status)
      modifies this, cache
      ensures (rc, cache.items, View()) == CommitUpload(old(cache.items), old(View()))
    {
      if step != Prepared {
        return InternalError;
      }
      step := Done;
      rc := cache.Commit(name);
    }

    method Abort() returns (rc: Status)
      modifies this, cache
      ensures (rc, cache.items, View()) == AbortUpload(old(cache.items), old(View()))
    {
      if step != Prepared {
        return InternalError;
      }
      step := Done;
      rc := cache.Abort(name);
    }

    method Write(buf: Bytes)
      modifies this, cache
      ensures (cache.items, View()) == WriteUpload(old(cache.items), old(View()), buf)
    {
      var rc := cache.Write(name, buf);
      if rc == OK {
        written := written + buf;
      }
    }
  }

  class MemRemoval {
    const cache: Cache
    const name: Name
    var step: Step

    function View(): Removal
      reads this
    {
      Removal(name, step)
    }

    constructor (cache: Cache, name: Name)
      ensures this.cache == cache && View() == Removal(name, Init)
    {
      this.cache, this.name, step := cache, name, Init;
    }

    method Prepare() returns (rc: Status)
      modifies this
      ensures (rc, View()) == PrepareRemoval(cache.items, old(View()))
    {
      if step != Init {
        return InternalError;
      }
      var present, pending := cache.Stat(name);
      if !present || pending {
        return NotFound;
      }
      step := Prepared;
      rc := OK;
    }

    method Commit() returns (rc: Status)
      modifies this, cache
      ensures (rc, cache.items, View()) == CommitRemoval(old(cache.items), old(View()))
    {
      if step != Prepared {
        return InternalError;
      }
      var present, pending := cache.Stat(name);
      if !present || pending {
        return NotFound;
      }
      cache.Remove(name);
      step := Done;
      rc := OK;
    }

    method Abort() returns (rc: Status)
      modifies this
      ensures (rc, View()) == AbortRemoval(old(View()))
    {
      if step != Prepared {
        return InternalError;
      }
      step := Done;
      rc := OK;
    }
  }

  class MemDownload {
    const cache: Cache
    const name: Name
    var value: Bytes
    var step: Step

    constructor (cache: Cache, name: Name)
      ensures this.cache == cache && this.name == name && step == Init && value == []
    {
      this.cache, this.name, value, step := cache, name, [], Init;
    }

    method Prepare() returns (rc: Status)
      modifies this
      ensures old(step) != Init ==> rc == InternalError && step == old(step) && value == old(value)
      ensures old(step) == Init ==>
                if name in cache.items then rc == OK && step == Prepared && value == cache.items[name].data
                else rc == NotFound && step == Init
    {
      if step != Init {
        return InternalError;
      }
      rc, value := cache.Get(name);
      if rc == OK {
        step := Prepared;
      }
    }

    method IsEof() returns (eof: bool)
      ensures eof <==> step != Prepared
    {
      eof := step != Prepared;
    }

    /** The whole value in one read, once; -1 afterwards. */
    method Read(buf0: Bytes) returns (size: int, buf: Bytes)
      modifies this
      ensures old(step) != Prepared ==> size == -1 && buf == buf0 && step == old(step) && value == old(value)
      ensures old(step) == Prepared ==> buf == old(value) && size == |buf| && step == Done
    {
      if step != Prepared {
        return -1, buf0;
      }
      step := Done;
      buf := value;
      value := [];
      size := |buf|;
    }
  }
}
