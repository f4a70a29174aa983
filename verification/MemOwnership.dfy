/** Who owns what in the in-memory store, over every interleaving of its transactions
    (src/oio/blob/mem/blob.cpp:121-265). */
module MemOwnership {
  import opened Basics
  import opened MemStore

  /** The shared items, the transactions, and the values committed and not removed since. */
  datatype State = State(items: Items, uploads: map<Pid, Upload>, removals: map<Pid, Removal>, committed: Committed)

  datatype Event =
    | Prepares(p: Pid)
    | Writes(p: Pid, buf: Bytes)
    | Commits(p: Pid)
    | Aborts(p: Pid)
    | PreparesRemoval(r: Pid)
    | CommitsRemoval(r: Pid)
    | AbortsRemoval(r: Pid)

  type Committed = map<Name, Bytes>

  /** One call on an upload: the items, the committed values and the upload afterwards. */
  function CallUpload(items: Items, committed: Committed, u: Upload, e: Event): (Items, Committed, Upload) {
    match e
    case Prepares(_) =>
      var (rc, t, v) := PrepareUpload(items, u);
      (t, committed, v)
    case Writes(_, buf) =>
      var (t, v) := WriteUpload(items, u, buf);
      (t, committed, v)
    case Commits(_) =>
      var (rc, t, v) := CommitUpload(items, u);
      (t, if rc == OK then committed[u.name := u.written] else committed, v)
    case Aborts(_) =>
      var (rc, t, v) := AbortUpload(items, u);
      (t, committed, v)
    case _ => (items, committed, u)
  }

  function CallRemoval(items: Items, committed: Committed, m: Removal, e: Event): (Items, Committed, Removal) {
    match e
    case PreparesRemoval(_) => (items, committed, PrepareRemoval(items, m).1)
    case CommitsRemoval(_) =>
      var (rc, t, n) := CommitRemoval(items, m);
      (t, if rc == OK then committed - {m.name} else committed, n)
    case AbortsRemoval(_) => (items, committed, AbortRemoval(m).1)
    case _ => (items, committed, m)
  }

  function ApplyUpload(s: State, p: Pid, e: Event): State
    requires p in s.uploads
  {
    var (items, committed, u) := CallUpload(s.items, s.committed, s.uploads[p], e);
    State(items, s.uploads[p := u], s.removals, committed)
  }

  function ApplyRemoval(s: State, r: Pid, e: Event): State
    requires r in s.removals
  {
    var (items, committed, m) := CallRemoval(s.items, s.committed, s.removals[r], e);
    State(items, s.uploads, s.removals[r := m], committed)
  }

  function Apply(s: State, e: Event): State {
    if e.Prepares? || e.Writes? || e.Commits? || e.Aborts? then if e.p in s.uploads then ApplyUpload(s, e.p, e) else s
    else if e.r in s.removals then ApplyRemoval(s, e.r, e) else s
  }

  function Run(s: State, events: seq<Event>): State {
    if events == [] then s else Apply(Run(s, events[..|events| - 1]), events[|events| - 1])
  }

  predicate IsPrepared(s: State, p: Pid) { p in s.uploads && s.uploads[p].step == Prepared }

  /** A prepared upload finds its own bytes, pending, under its name, and is alone to. */
  ghost predicate OwnersSound(s: State) {
    && (forall p :: IsPrepared(s, p) ==>
          var u := s.uploads[p];
          u.name in s.items && s.items[u.name] == Item(u.written, true))
    && (forall p, q :: IsPrepared(s, p) && IsPrepared(s, q) && s.uploads[p].name == s.uploads[q].name ==> p == q)
  }

  /** A pending item has an owner; any other item is the value last committed. */
  ghost predicate ItemsSound(s: State) {
    && (forall n :: n in s.items && s.items[n].pending ==> exists p :: IsPrepared(s, p) && s.uploads[p].name == n)
    && (forall n :: n in s.items && !s.items[n].pending <==> n in s.committed)
    && (forall n :: n in s.committed ==> s.items[n].data == s.committed[n])
  }

  ghost predicate Invariant(s: State) { OwnersSound(s) && ItemsSound(s) }

  /** The rule callers must follow: write only between Prepare and Commit or Abort. */
  predicate Obeys(s: State, e: Event) { e.Writes? ==> IsPrepared(s, e.p) }

  ghost predicate RunObeys(s: State, events: seq<Event>) {
    forall i :: 0 <= i < |events| ==> Obeys(Run(s, events[..i]), events[i])
  }

  lemma ObeysPrefix(s: State, events: seq<Event>)
    requires RunObeys(s, events) && events != []
    ensures RunObeys(s, events[..|events| - 1]) && Obeys(Run(s, events[..|events| - 1]), events[|events| - 1])
  {
    var init := events[..|events| - 1];
    forall i | 0 <= i < |init| ensures Obeys(Run(s, init[..i]), init[i]) {
      assert init[..i] == events[..i];
    }
  }

  lemma UploadOwners(s: State, p: Pid, e: Event, t: State)
    requires Invariant(s) && p in s.uploads && t == ApplyUpload(s, p, e)
    requires e.Writes? ==> IsPrepared(s, p)
    ensures OwnersSound(t)
  {
    forall q | IsPrepared(t, q) && q != p ensures IsPrepared(s, q) && t.uploads[q] == s.uploads[q] {}
  }

  lemma UploadItems(s: State, p: Pid, e: Event, t: State)
    requires Invariant(s) && p in s.uploads && t == ApplyUpload(s, p, e)
    requires e.Writes? ==> IsPrepared(s, p)
    ensures ItemsSound(t)
  {
    forall n | n in t.items && t.items[n].pending ensures exists q :: IsPrepared(t, q) && t.uploads[q].name == n {
      if !(IsPrepared(t, p) && s.uploads[p].name == n) {
        assert n in s.items && s.items[n].pending;
        var q :| IsPrepared(s, q) && s.uploads[q].name == n;
        assert q != p && IsPrepared(t, q);
      }
    }
  }

  lemma UploadKeeps(s: State, p: Pid, e: Event, t: State)
    requires Invariant(s) && p in s.uploads && t == ApplyUpload(s, p, e)
    requires e.Writes? ==> IsPrepared(s, p)
    ensures Invariant(t)
  {
    UploadOwners(s, p, e, t);
    UploadItems(s, p, e, t);
  }

  lemma RemovalKeeps(s: State, r: Pid, e: Event, t: State)
    requires Invariant(s) && r in s.removals && t == ApplyRemoval(s, r, e)
    ensures Invariant(t)
  {
    forall n | n in t.items && t.items[n].pending ensures exists q :: IsPrepared(t, q) && t.uploads[q].name == n {
      var q :| IsPrepared(s, q) && s.uploads[q].name == n;
      assert IsPrepared(t, q);
    }
    assert forall q :: IsPrepared(t, q) <==> IsPrepared(s, q);
  }

  lemma StepKeeps(s: State, e: Event)
    requires Invariant(s) && Obeys(s, e)
    ensures Invariant(Apply(s, e))
  {
    if e.Prepares? || e.Writes? || e.Commits? || e.Aborts? {
      if e.p in s.uploads {
        UploadKeeps(s, e.p, e, Apply(s, e));
      }
    } else if e.r in s.removals {
      RemovalKeeps(s, e.r, e, Apply(s, e));
    }
  }

  /** Main result: ownership holds after every interleaving in which no one writes out of turn. */
  lemma {:induction false} RunKeeps(s: State, events: seq<Event>)
    requires Invariant(s) && RunObeys(s, events)
    ensures Invariant(Run(s, events))
  {
    if events != [] {
      ObeysPrefix(s, events);
      RunKeeps(s, events[..|events| - 1]);
      StepKeeps(Run(s, events[..|events| - 1]), events[|events| - 1]);
    }
  }

  /** A name is pending if and only if exactly one upload of that name is prepared. */
  lemma PendingIffOwned(s: State, n: Name)
    requires Invariant(s)
    ensures (n in s.items && s.items[n].pending) <==>
            exists p :: IsPrepared(s, p) && s.uploads[p].name == n
                        && forall q :: IsPrepared(s, q) && s.uploads[q].name == n ==> q == p
  {
    if n in s.items && s.items[n].pending {
      var p :| IsPrepared(s, p) && s.uploads[p].name == n;
      assert forall q :: IsPrepared(s, q) && s.uploads[q].name == n ==> q == p;
    }
  }

  /** A prepared upload always commits, and stores exactly what it has written. */
  lemma CommitSucceeds(s: State, p: Pid)
    requires Invariant(s) && IsPrepared(s, p)
    ensures var u := s.uploads[p];
            && CommitUpload(s.items, u).0 == OK
            && u.name in Apply(s, Commits(p)).items
            && Apply(s, Commits(p)).items[u.name] == Item(u.written, false)
  {
  }

  /** What an upload is given to write, as the events say. */
  function WritesOf(events: seq<Event>, p: Pid): Bytes {
    if events == [] then []
    else
      var e := events[|events| - 1];
      WritesOf(events[..|events| - 1], p) + if e.Writes? && e.p == p then e.buf else []
  }

  /** Neither committed nor aborted. */
  predicate StaysOpen(events: seq<Event>, p: Pid) { Commits(p) !in events && Aborts(p) !in events }

  lemma WriteOneStep(s: State, e: Event, p: Pid)
    requires Invariant(s) && IsPrepared(s, p) && e != Commits(p) && e != Aborts(p)
    ensures var t := Apply(s, e);
            && IsPrepared(t, p) && t.uploads[p].name == s.uploads[p].name
            && t.uploads[p].written == s.uploads[p].written + if e.Writes? && e.p == p then e.buf else []
  {
    assert s.uploads[p].name in s.items && s.items[s.uploads[p].name].pending;
  }

  /** Every write of a prepared upload is accepted, whatever the others do meanwhile: as long as
      it is neither committed nor aborted it stays prepared, and has written all it was given. */
  lemma {:induction false} WritesAccepted(s: State, events: seq<Event>, p: Pid)
    requires Invariant(s) && RunObeys(s, events) && IsPrepared(s, p) && StaysOpen(events, p)
    ensures var t := Run(s, events);
            && IsPrepared(t, p) && t.uploads[p].name == s.uploads[p].name
            && t.uploads[p].written == s.uploads[p].written + WritesOf(events, p)
  {
    if events != [] {
      var init, e := events[..|events| - 1], events[|events| - 1];
      assert events == init + [e];
      ObeysPrefix(s, events);
      WritesAccepted(s, init, p);
      RunKeeps(s, init);
      WriteOneStep(Run(s, init), e, p);
      Associative(s.uploads[p].written, WritesOf(init, p), if e.Writes? && e.p == p then e.buf else []);
    }
  }

  /** No removal of the name commits. */
  ghost predicate NotRemoved(s: State, events: seq<Event>, n: Name) {
    forall e :: e in events && e.CommitsRemoval? && e.r in s.removals ==> s.removals[e.r].name != n
  }

  /** The life of a stored value. An upload prepares a free name, any obeying run follows in which
      it is neither committed nor aborted, it commits, and any obeying run follows without a
      removal of the name: the item is exactly what the upload was given to write. */
  lemma StoredIsWhatWasWritten(s: State, p: Pid, during: seq<Event>, after: seq<Event>, s1: State, s2: State, s3: State)
    requires Invariant(s) && p in s.uploads && s.uploads[p].step == Init && s.uploads[p].name !in s.items
    requires s1 == Apply(s, Prepares(p)) && RunObeys(s1, during) && StaysOpen(during, p)
    requires s2 == Run(s1, during) && s3 == Apply(s2, Commits(p))
    requires RunObeys(s3, after) && NotRemoved(s3, after, s.uploads[p].name)
    ensures var n, t := s.uploads[p].name, Run(s3, after);
            && p in s2.uploads && CommitUpload(s2.items, s2.uploads[p]).0 == OK
            && n in t.items && t.items[n] == Item(WritesOf(during, p), false)
  {
    PreparesClean(s, p, s1);
    WritesThenCommits(s1, p, during, s2, s3);
    StoredUntilRemoved(s3, after, s.uploads[p].name);
  }

  lemma PreparesClean(s: State, p: Pid, t: State)
    requires Invariant(s) && p in s.uploads && s.uploads[p].step == Init && s.uploads[p].name !in s.items
    requires t == Apply(s, Prepares(p))
    ensures Invariant(t) && IsPrepared(t, p) && t.uploads[p].written == [] && t.uploads[p].name == s.uploads[p].name
  {
    StepKeeps(s, Prepares(p));
  }

  lemma WritesThenCommits(s: State, p: Pid, during: seq<Event>, s2: State, s3: State)
    requires Invariant(s) && IsPrepared(s, p) && s.uploads[p].written == []
    requires RunObeys(s, during) && StaysOpen(during, p) && s2 == Run(s, during) && s3 == Apply(s2, Commits(p))
    ensures Invariant(s3) && p in s2.uploads && CommitUpload(s2.items, s2.uploads[p]).0 == OK
    ensures s.uploads[p].name in s3.committed && s3.committed[s.uploads[p].name] == WritesOf(during, p)
  {
    WritesAccepted(s, during, p);
    RunKeeps(s, during);
    CommitSucceeds(s2, p);
    StepKeeps(s2, Commits(p));
    assert [] + WritesOf(during, p) == WritesOf(during, p);
  }

  /** A stored value stays as it is until a removal of that name commits. */
  lemma {:induction false} StoredUntilRemoved(s: State, events: seq<Event>, n: Name)
    requires Invariant(s) && RunObeys(s, events)
    requires n in s.committed && NotRemoved(s, events, n)
    ensures var t := Run(s, events);
            && n in t.items && t.items[n] == Item(s.committed[n], false)
            && n in t.committed && t.committed[n] == s.committed[n]
            && t.removals.Keys == s.removals.Keys
            && forall r :: r in s.removals ==> t.removals[r].name == s.removals[r].name
  {
    if events != [] {
      var init, e := events[..|events| - 1], events[|events| - 1];
      assert events == init + [e];
      ObeysPrefix(s, events);
      StoredUntilRemoved(s, init, n);
      RunKeeps(s, init);
      StoredOneStep(Run(s, init), e, n);
    }
  }

  lemma StoredOneStep(s: State, e: Event, n: Name)
    requires Invariant(s) && n in s.committed
    requires e.CommitsRemoval? && e.r in s.removals ==> s.removals[e.r].name != n
    ensures var t := Apply(s, e);
            && n in t.items && t.items[n] == s.items[n]
            && n in t.committed && t.committed[n] == s.committed[n]
            && t.removals.Keys == s.removals.Keys
            && forall r :: r in s.removals ==> t.removals[r].name == s.removals[r].name
  {
    assert n in s.items && !s.items[n].pending;
    if (e.Prepares? || e.Writes? || e.Commits? || e.Aborts?) && IsPrepared(s, e.p) {
      assert s.items[s.uploads[e.p].name].pending;
    }
  }

  /** An upload prepares if and only if its name is neither stored nor being written by another;
      otherwise it is told so, and may try again. */
  lemma UploadPreparedIff(s: State, p: Pid)
    requires Invariant(s) && p in s.uploads && s.uploads[p].step == Init
    ensures var (n, rc) := (s.uploads[p].name, PrepareUpload(s.items, s.uploads[p]).0);
            && (IsPrepared(Apply(s, Prepares(p)), p) <==> n !in s.committed && !exists q :: IsPrepared(s, q) && s.uploads[q].name == n)
            && rc == (if IsPrepared(Apply(s, Prepares(p)), p) then OK else Already)
            && (rc != OK ==> Apply(s, Prepares(p)) == s)
  {
    var n := s.uploads[p].name;
    if n in s.items && s.items[n].pending {
      var q :| IsPrepared(s, q) && s.uploads[q].name == n;
    }
    assert n in s.items ==> Apply(s, Prepares(p)).uploads == s.uploads;
  }

  /** An abort gives the name up, whatever was written. */
  lemma AbortFrees(s: State, p: Pid)
    requires Invariant(s) && IsPrepared(s, p)
    ensures var (n, t) := (s.uploads[p].name, Apply(s, Aborts(p)));
            && AbortUpload(s.items, s.uploads[p]).0 == OK
            && t.items == s.items - {n} && t.committed == s.committed && t.uploads[p].step == Done
            && n !in s.committed
  {
  }

  /** Out of turn every call is refused and changes nothing: Prepare after the first, Commit and
      Abort unless prepared. */
  lemma OutOfTurn(s: State, p: Pid)
    requires p in s.uploads
    ensures s.uploads[p].step != Init ==> PrepareUpload(s.items, s.uploads[p]).0 == InternalError && Apply(s, Prepares(p)) == s
    ensures s.uploads[p].step != Prepared ==>
              && CommitUpload(s.items, s.uploads[p]).0 == InternalError && Apply(s, Commits(p)) == s
              && AbortUpload(s.items, s.uploads[p]).0 == InternalError && Apply(s, Aborts(p)) == s
  {
    assert s.uploads[p := s.uploads[p]] == s.uploads;
  }

  /** A removal prepares if and only if a value is stored under its name. */
  lemma RemovalPreparedIff(s: State, r: Pid)
    requires Invariant(s) && r in s.removals && s.removals[r].step == Init
    ensures var (n, t) := (s.removals[r].name, Apply(s, PreparesRemoval(r)));
            && (t.removals[r].step == Prepared <==> n in s.committed)
            && PrepareRemoval(s.items, s.removals[r]).0 == (if n in s.committed then OK else NotFound)
            && t.items == s.items && t.committed == s.committed && t.removals[r].name == n
  {
  }

  /** A prepared removal commits if and only if the value is still stored, and takes that name out
      and nothing else; otherwise it stays prepared. */
  lemma RemovalCommitsIff(s: State, r: Pid)
    requires Invariant(s) && r in s.removals && s.removals[r].step == Prepared
    ensures var (n, t) := (s.removals[r].name, Apply(s, CommitsRemoval(r)));
            && CommitRemoval(s.items, s.removals[r]).0 == (if n in s.committed then OK else NotFound)
            && t.removals[r].step == (if n in s.committed then Done else Prepared)
            && t.committed == s.committed - {n}
            && t.items == if n in s.committed then s.items - {n} else s.items
  {
  }

  lemma RemovalStaysStep(s: State, e: Event, r: Pid)
    requires r in s.removals && s.removals[r].step == Prepared && e != CommitsRemoval(r) && e != AbortsRemoval(r)
    ensures var t := Apply(s, e); r in t.removals && t.removals[r] == s.removals[r]
  {
  }

  lemma {:induction false} RemovalStays(s: State, events: seq<Event>, r: Pid)
    requires r in s.removals && s.removals[r].step == Prepared
    requires CommitsRemoval(r) !in events && AbortsRemoval(r) !in events
    ensures var t := Run(s, events); r in t.removals && t.removals[r] == s.removals[r]
  {
    if events != [] {
      var init, e := events[..|events| - 1], events[|events| - 1];
      assert events == init + [e];
      RemovalStays(s, init, r);
      RemovalStaysStep(Run(s, init), e, r);
    }
  }

  /** The life of a removal. It prepares on a stored value, any obeying run follows in which no
      removal of the name commits and this one is not given up, and it commits: both calls answer
      OK, and the value is gone. */
  lemma RemovedForGood(s: State, r: Pid, during: seq<Event>, s1: State, s2: State, t: State)
    requires Invariant(s) && r in s.removals && s.removals[r].step == Init && s.removals[r].name in s.committed
    requires s1 == Apply(s, PreparesRemoval(r)) && RunObeys(s1, during) && s2 == Run(s1, during)
    requires NotRemoved(s1, during, s.removals[r].name) && AbortsRemoval(r) !in during
    requires t == Apply(s2, CommitsRemoval(r))
    ensures var n := s.removals[r].name;
            && PrepareRemoval(s.items, s.removals[r]).0 == OK
            && r in s2.removals && CommitRemoval(s2.items, s2.removals[r]).0 == OK
            && n !in t.items && n !in t.committed
            && forall m :: m != n && m in s2.items ==> m in t.items && t.items[m] == s2.items[m]
  {
    RemovalPreparedIff(s, r);
    StepKeeps(s, PreparesRemoval(r));
    StoredUntilRemoved(s1, during, s.removals[r].name);
    RunKeeps(s1, during);
    RemovalStays(s1, during, r);
    RemovalCommitsIff(s2, r);
  }

  /** A write out of turn breaks the ownership exactly when it has bytes for a name that some
      upload holds pending: the step is never checked. */
  lemma StrayWrite(s: State, q: Pid, buf: Bytes)
    requires Invariant(s) && q in s.uploads && !IsPrepared(s, q)
    ensures var n := s.uploads[q].name;
            Invariant(Apply(s, Writes(q, buf))) <==> buf == [] || n !in s.items || !s.items[n].pending
  {
    var n, t := s.uploads[q].name, Apply(s, Writes(q, buf));
    if n in s.items && s.items[n].pending {
      var p :| IsPrepared(s, p) && s.uploads[p].name == n;
      assert IsPrepared(t, p) && t.uploads[p] == s.uploads[p];
      if buf == [] {
        assert s.items[n].data + buf == s.items[n].data;
        assert t.items == s.items;
        assert forall k :: IsPrepared(t, k) <==> IsPrepared(s, k);
        assert forall k :: IsPrepared(s, k) ==> t.uploads[k] == s.uploads[k];
      } else {
        assert |t.items[n].data| > |s.uploads[p].written|;
      }
    } else {
      assert t.items == s.items && t.uploads == s.uploads;
    }
  }

  /** Two uploads of one name, only the first of which has prepared: one byte written by the
      second breaks the ownership, and the first then commits a value it never wrote. */
  lemma StrayWriteHappens(n: Name, b: byte)
    ensures var s := State(map[], map[0 := Upload(n, Init, []), 1 := Upload(n, Init, [])], map[], map[]);
            var stray := [Prepares(0), Writes(1, [b])];
            && Invariant(s) && !Invariant(Run(s, stray))
            && Run(s, stray + [Commits(0)]).items == map[n := Item([b], false)]
            && WritesOf(stray + [Commits(0)], 0) == []
  {
    var s := State(map[], map[0 := Upload(n, Init, []), 1 := Upload(n, Init, [])], map[], map[]);
    var stray := [Prepares(0), Writes(1, [b])];
    assert stray == ([] + [Prepares(0)]) + [Writes(1, [b])];
    RunOne(s, [], Prepares(0));
    RunOne(s, [] + [Prepares(0)], Writes(1, [b]));
    RunOne(s, stray, Commits(0));
    var s1, s2 := Apply(s, Prepares(0)), Run(s, stray);
    assert s1.items == map[n := Item([], true)] && s2 == Apply(s1, Writes(1, [b]));
    assert [] + [b] == [b];
    assert IsPrepared(s2, 0) && s2.items == map[n := Item([b], true)] && s2.uploads[0].written == [];
    assert Apply(s2, Commits(0)).items == map[n := Item([b], false)];
  }

  lemma RunOne(s: State, events: seq<Event>, e: Event)
    ensures Run(s, events + [e]) == Apply(Run(s, events), e)
    ensures forall p :: WritesOf(events + [e], p) == WritesOf(events, p) + if e.Writes? && e.p == p then e.buf else []
  {
    assert (events + [e])[..|events|] == events;
  }

  /** What a download gets: the committed value, or, since Get does not look at the pending mark,
      what the owner of an unfinished upload has written so far. */
  lemma DownloadSees(s: State, n: Name)
    requires Invariant(s) && n in s.items
    ensures if s.items[n].pending then exists p :: IsPrepared(s, p) && s.uploads[p].name == n && s.items[n].data == s.uploads[p].written
            else n in s.committed && s.items[n].data == s.committed[n]
  {
    if s.items[n].pending {
      var p :| IsPrepared(s, p) && s.uploads[p].name == n;
      assert s.items[n].data == s.uploads[p].written;
    }
  }
}
