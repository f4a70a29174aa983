/** Runs of the objects of the in-memory store: any sequence of calls on uploads and removals that
    share a cache is a run of MemOwnership (src/oio/blob/mem/blob.cpp:34-265). */
module MemRun {
  import opened Basics
  import opened MemStore
  import opened MemOwnership

  method OnUpload(u: MemUpload, ghost before: Committed, e: Event) returns (ghost committed: Committed)
    requires e.Prepares? || e.Writes? || e.Commits? || e.Aborts?
    modifies u, u.cache
    ensures (u.cache.items, committed, u.View()) == CallUpload(old(u.cache.items), before, old(u.View()), e)
  {
    committed := before;
    match e {
      case Prepares(_) =>
        var rc := u.Prepare();
      case Writes(_, buf) => u.Write(buf);
      case Commits(_) =>
        var rc := u.Commit();
        if rc == OK {
          committed := committed[u.name := u.written];
        }
      case Aborts(_) =>
        var rc := u.Abort();
    }
  }

  method OnRemoval(m: MemRemoval, ghost before: Committed, e: Event) returns (ghost committed: Committed)
    requires e.PreparesRemoval? || e.CommitsRemoval? || e.AbortsRemoval?
    modifies m, m.cache
    ensures (m.cache.items, committed, m.View()) == CallRemoval(old(m.cache.items), before, old(m.View()), e)
  {
    committed := before;
    match e {
      case PreparesRemoval(_) =>
        var rc := m.Prepare();
      case CommitsRemoval(_) =>
        var rc := m.Commit();
        if rc == OK {
          committed := committed - {m.name};
        }
      case AbortsRemoval(_) =>
        var rc := m.Abort();
    }
  }

  class Store {
    const cache: Cache
    const uploads: map<Pid, MemUpload>
    const removals: map<Pid, MemRemoval>
    ghost var committed: Committed

    /** Every transaction is an object of its own, on this cache. */
    ghost predicate Valid() {
      && (forall p :: p in uploads ==> uploads[p].cache == cache)
      && (forall r :: r in removals ==> removals[r].cache == cache)
      && (forall p, q :: p in uploads && q in uploads && uploads[p] == uploads[q] ==> p == q)
      && (forall p, q :: p in removals && q in removals && removals[p] == removals[q] ==> p == q)
    }

    ghost function Uploads(): map<Pid, Upload>
      reads uploads.Values
    {
      map p | p in uploads :: uploads[p].View()
    }

    ghost function Removals(): map<Pid, Removal>
      reads removals.Values
    {
      map r | r in removals :: removals[r].View()
    }

    ghost function View(): State
      reads this, cache, uploads.Values, removals.Values
    {
      State(cache.items, Uploads(), Removals(), committed)
    }

    constructor (cache: Cache, uploads: map<Pid, MemUpload>, removals: map<Pid, MemRemoval>, ghost committed: Committed)
      ensures this.cache == cache && this.uploads == uploads && this.removals == removals && this.committed == committed
    {
      this.cache, this.uploads, this.removals, this.committed := cache, uploads, removals, committed;
    }

    /** One call on an upload touches no other. */
    method PerformUpload(p: Pid, e: Event)
      requires Valid() && p in uploads
      requires e.Prepares? || e.Writes? || e.Commits? || e.Aborts?
      modifies `committed, cache, uploads[p]
      ensures View() == ApplyUpload(old(View()), p, e)
    {
      ghost var before := Uploads();
      var u := uploads[p];
      committed := OnUpload(u, committed, e);
      forall q | q in uploads && q != p ensures uploads[q].View() == before[q] {
        assert uploads[q] != u;
      }
      assert Uploads() == before[p := u.View()];
    }

    method PerformRemoval(r: Pid, e: Event)
      requires Valid() && r in removals
      requires e.PreparesRemoval? || e.CommitsRemoval? || e.AbortsRemoval?
      modifies `committed, cache, removals[r]
      ensures View() == ApplyRemoval(old(View()), r, e)
    {
      ghost var before := Removals();
      var m := removals[r];
      committed := OnRemoval(m, committed, e);
      forall q | q in removals && q != r ensures removals[q].View() == before[q] {
        assert removals[q] != m;
      }
      assert Removals() == before[r := m.View()];
    }

    method Perform(e: Event)
      requires Valid()
      modifies `committed, cache, uploads.Values, removals.Values
      ensures View() == Apply(old(View()), e)
    {
      if e.Prepares? || e.Writes? || e.Commits? || e.Aborts? {
        if e.p in uploads {
          PerformUpload(e.p, e);
        }
      } else if e.r in removals {
        PerformRemoval(e.r, e);
      }
    }
  }

  /** Every run of the objects is a run of the ownership machine, and keeps the ownership if every
      upload writes in turn. */
  method RunStore(store: Store, events: seq<Event>)
    requires store.Valid()
    modifies store`committed, store.cache, store.uploads.Values, store.removals.Values
    ensures store.View() == Run(old(store.View()), events)
    ensures old(Invariant(store.View()) && RunObeys(store.View(), events)) ==> Invariant(store.View())
  {
    ghost var before := store.View();
    for i := 0 to |events|
      invariant store.View() == Run(before, events[..i])
    {
      RunOne(before, events[..i], events[i]);
      assert events[..i + 1] == events[..i] + [events[i]];
      store.Perform(events[i]);
    }
    assert events[..|events|] == events;
    if Invariant(before) && RunObeys(before, events) {
      RunKeeps(before, events);
    }
  }
}
