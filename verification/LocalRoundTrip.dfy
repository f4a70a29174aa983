/** What an upload stores on a local file system is what a download delivers, as far as the kernel
    takes and gives the bytes. */
module LocalRoundTrip {
  import opened Basics
  import opened LocalPublish
  import opened LocalKernel
  import opened LocalBlob

  /** One Read, and what is still owed after it. */
  method ReadOwing(download: LocalDownload, ghost file: Bytes, ghost noise: nat) returns (buf: Bytes, ghost e: Option<Event>)
    requires download.Opened(file) && download.step == Prepared && download.Owes(file, noise)
    modifies download, download.fs`downloads, download.fs`script
    ensures download.Opened(file) && download.Owes(file, noise) && download.Me().got == old(download.Me()).got + buf
    ensures e.Some? && download.fs.World() == Apply(old(download.fs.World()), e.value)
    ensures download.step != Done ==> Progress(|old(download.fs.script)|, old(download.Me()).stale, old(download.offset),
                                               |download.fs.script|, download.Me().stale, download.offset, |file|)
  {
    if download.Me().stale {
      DueStale(noise, download.fs.script, download.offset, |file|, download.Me().noise);
    } else {
      DueOn(noise, download.fs.script, download.offset, |file|, download.Me().noise,
            LoadOutcome(download.fs.script, READ_ATTEMPTS, |file| - download.offset));
    }
    buf, e := download.Read(file);
  }

  /** One turn of a client that reads until IsEof. */
  method ReadTurn(download: LocalDownload, out0: Bytes, ghost file: Bytes, ghost noise: nat, ghost w0: Sys, ghost trace0: seq<Event>)
    returns (out: Bytes, eof: bool, ghost trace: seq<Event>)
    requires download.Opened(file) && download.step == Prepared && out0 == download.Me().got
    requires download.Owes(file, noise) && download.fs.World() == Run(w0, trace0)
    modifies download, download.fs`downloads, download.fs`script
    ensures download.Opened(file) && out == download.Me().got && (eof <==> download.step == Done)
    ensures download.Owes(file, noise) && download.fs.World() == Run(w0, trace)
    ensures !eof ==> Progress(|old(download.fs.script)|, old(download.Me()).stale, old(download.offset),
                              |download.fs.script|, download.Me().stale, download.offset, |file|)
  {
    var buf;
    ghost var e;
    buf, e := ReadOwing(download, file, noise);
    out := out0 + buf;
    trace := Logged(w0, trace0, e.value, download.fs.World());
    eof := download.IsEof();
  }

  /** Reads a prepared download until IsEof: all the bytes of the file it opened, with a batch of
      zeros put in for each read that failed; nothing else exactly when none did. */
  method ReadFile(download: LocalDownload) returns (out: Bytes, ghost trace: seq<Event>)
    requires download.AtRest() && download.step == Prepared && download.Me() == Download(download.name, Reading, download.Me().inode, [], 0, false)
    requires download.Me().inode in download.fs.data
    modifies download, download.fs`downloads, download.fs`script
    ensures download.AtRest() && download.fs.World() == Run(old(download.fs.World()), trace)
    ensures var file := download.fs.data[old(download.Me()).inode];
            var noise := Noisy(old(download.fs.script), |file|);
            && |out| == |file| + noise && (out == file <==> noise == 0)
            && download.Me().noise == noise && download.Me().pc == AtEof
  {
    out, trace := [], [];
    ghost var w0, file := download.fs.World(), download.fs.data[download.Me().inode];
    ghost var noise := Noisy(download.fs.script, |file|);
    var eof := false;
    while !eof
      invariant download.Opened(file) && out == download.Me().got && (eof <==> download.step == Done)
      invariant download.Owes(file, noise) && download.fs.World() == Run(w0, trace)
      decreases !eof, |download.fs.script|, download.Me().stale, |file| - download.offset
    {
      out, eof, trace := ReadTurn(download, out, file, noise, w0, trace);
    }
  }

  /** One Write for each piece. */
  method WriteAll(upload: LocalUpload, writes: seq<Bytes>) returns (ghost trace: seq<Event>)
    requires upload.AtRest() && upload.step == Prepared && Invariant(upload.fs.World())
    modifies upload.fs`uploads, upload.fs`data, upload.fs`script
    ensures upload.AtRest() && upload.fs.World() == Run(old(upload.fs.World()), trace)
    ensures upload.Me().asked == old(upload.Me()).asked + Flatten(writes)
    ensures upload.Me().wrote == old(upload.Me()).wrote + Taken(old(upload.fs.script), writes).0
    ensures upload.fs.script == Taken(old(upload.fs.script), writes).1
    ensures Invariant(upload.fs.World()) && upload.Me().Accurate()
  {
    ghost var w0, u, script0 := upload.fs.World(), upload.Me(), upload.fs.script;
    trace := [];
    for i := 0 to |writes|
      invariant upload.AtRest() && upload.fs.World() == Run(w0, trace)
      invariant Progressed(u, upload.Me(), script0, upload.fs.script, writes[..i])
    {
      trace := WriteNext(upload, writes, i, w0, u, script0, trace);
    }
    assert writes[..|writes|] == writes;
    RunKeeps(w0, trace);
    PreparedIsSound(upload.fs.World(), upload.pid);
  }

  ghost predicate Progressed(u: Upload, v: Upload, script0: Script, script: Script, writes: seq<Bytes>) {
    && v.asked == u.asked + Flatten(writes)
    && v.wrote == u.wrote + Taken(script0, writes).0 && script == Taken(script0, writes).1
  }

  method WriteNext(upload: LocalUpload, writes: seq<Bytes>, i: nat, ghost w0: Sys, ghost u: Upload, ghost script0: Script,
                   ghost trace0: seq<Event>) returns (ghost trace: seq<Event>)
    requires i < |writes| && upload.AtRest() && upload.step == Prepared && Invariant(w0)
    requires upload.fs.World() == Run(w0, trace0) && Progressed(u, upload.Me(), script0, upload.fs.script, writes[..i])
    modifies upload.fs`uploads, upload.fs`data, upload.fs`script
    ensures upload.AtRest() && upload.fs.World() == Run(w0, trace)
    ensures Progressed(u, upload.Me(), script0, upload.fs.script, writes[..i + 1])
  {
    RunKeeps(w0, trace0);
    PreparedIsSound(upload.fs.World(), upload.pid);
    ghost var v, script := upload.Me(), upload.fs.script;
    ghost var k, tail := upload.Write(writes[i]);
    trace := Joined(w0, trace0, tail, upload.fs.World());
    ProgressOn(u, v, script0, script, writes, i, k);
  }

  lemma ProgressOn(u: Upload, v: Upload, script0: Script, script: Script, writes: seq<Bytes>, i: nat, k: nat)
    requires i < |writes| && Progressed(u, v, script0, script, writes[..i])
    requires k <= |writes[i]| && k == |writes[i]| - WriteOutcome(script, |writes[i]|).left
    ensures Progressed(u, Written(v, writes[i], k), script0, WriteOutcome(script, |writes[i]|).script, writes[..i + 1])
  {
    var init := writes[..i];
    assert writes[..i + 1] == init + [writes[i]] && writes[..i + 1][..i] == init;
    FlattenSnoc(init, writes[i]);
    Associative(u.asked, Flatten(init), writes[i]);
    Associative(u.wrote, Taken(script0, init).0, writes[i][..k]);
  }

  /** The final path of a committed upload leads to what it wrote, which is what it was given
      exactly when it lost nothing. */
  ghost predicate Stored(upload: LocalUpload, given: Bytes, bytes: Bytes)
    requires upload.Known()
    reads upload.fs
  {
    var (u, fs) := (upload.Me(), upload.fs);
    && u.asked == given && u.wrote == bytes && !u.pc.Idle? && !Early(u) && u.Accurate()
    && Final(upload.name) in fs.dir && fs.dir[Final(upload.name)] in fs.data
    && fs.data[fs.dir[Final(upload.name)]] == bytes
  }

  method CommitWritten(upload: LocalUpload, ghost given: Bytes, ghost bytes: Bytes) returns (rc: Status, ghost trace: seq<Event>)
    requires upload.AtRest() && upload.step == Prepared && Invariant(upload.fs.World())
    requires upload.Me().asked == given && upload.Me().wrote == bytes && upload.Me().Accurate()
    modifies upload, upload.fs`uploads, upload.fs`dir, upload.fs`published, upload.fs`script
    ensures upload.AtRest() && upload.fs.World() == Run(old(upload.fs.World()), trace)
    ensures Ending(rc, upload.Temp(), upload.fs.script) == CommitEnding(old(upload.fs.script), true)
    ensures rc == OK ==> Stored(upload, given, bytes)
  {
    rc, trace := upload.Commit();
  }

  /** Any writes, then a commit. */
  method StorePrepared(upload: LocalUpload, writes: seq<Bytes>) returns (rc: Status, ghost trace: seq<Event>)
    requires upload.AtRest() && upload.step == Prepared && Invariant(upload.fs.World())
    requires upload.Me().asked == [] == upload.Me().wrote
    modifies upload, upload.fs
    ensures upload.AtRest() && upload.fs.World() == Run(old(upload.fs.World()), trace)
    ensures upload.fs.downloads == old(upload.fs.downloads)
    ensures Ending(rc, upload.Temp(), upload.fs.script) == CommitEnding(Taken(old(upload.fs.script), writes).1, true)
    ensures rc == OK ==> Stored(upload, Flatten(writes), Taken(old(upload.fs.script), writes).0)
  {
    ghost var w0, bytes := upload.fs.World(), Taken(upload.fs.script, writes).0;
    trace := WriteAll(upload, writes);
    assert [] + Flatten(writes) == Flatten(writes) && [] + bytes == bytes;
    ghost var tail;
    rc, tail := CommitWritten(upload, Flatten(writes), bytes);
    trace := Joined(w0, trace, tail, upload.fs.World());
  }

  /** Prepare, any writes, commit. */
  method Store(upload: LocalUpload, writes: seq<Bytes>) returns (rc: Status, ghost trace: seq<Event>)
    requires upload.AtRest() && upload.step == Init && Invariant(upload.fs.World())
    modifies upload, upload.fs
    ensures upload.AtRest() && upload.fs.World() == Run(old(upload.fs.World()), trace)
    ensures upload.fs.downloads == old(upload.fs.downloads)
    ensures Ending(rc, upload.Temp(), upload.fs.script) ==
            StoreEnding(old(upload.fs.script), old(upload.Temp()), old(upload.Published()), writes)
    ensures rc == OK ==>
              Stored(upload, Flatten(writes), StoredBytes(old(upload.fs.script), old(upload.Temp()), old(upload.Published()), writes))
  {
    ghost var w0 := upload.fs.World();
    rc, trace := upload.Prepare();
    if rc == OK {
      RunKeeps(w0, trace);
      ghost var tail;
      rc, tail := StorePrepared(upload, writes);
      trace := Joined(w0, trace, tail, upload.fs.World());
    }
  }

  function OpenedStatus(errno: Errno): Status {
    if errno == Success then OK else if errno == ENOENT then NotFound else InternalError
  }

  lemma OpenDecides(a: Answer, script: Script, there: bool)
    requires a.Serve? || (a.Refuse? && Hard(a.errno))
    ensures OpenedStatus(PathErrno([a] + script, there)) ==
            if a.Refuse? then InternalError else if there then OK else NotFound
  {
  }

  /** Opens the final path and reads to the end. */
  method FetchAll(download: LocalDownload) returns (rc: Status, fetched: Bytes, ghost trace: seq<Event>)
    requires download.AtRest() && download.step == Init && Invariant(download.fs.World())
    modifies download, download.fs`downloads, download.fs`script
    ensures download.Known() && download.fs.World() == Run(old(download.fs.World()), trace)
    ensures rc == OpenedStatus(PathErrno(old(download.fs.script), Final(download.name) in download.fs.dir))
    ensures rc == OK ==>
              && Final(download.name) in download.fs.dir && download.fs.dir[Final(download.name)] in download.fs.data
              && var file := download.fs.data[download.fs.dir[Final(download.name)]];
              var noise := Noisy(After(old(download.fs.script)), |file|);
              && |fetched| == |file| + noise && (fetched == file <==> noise == 0)
              && download.Me().noise == noise && download.Me().pc == AtEof
  {
    fetched, trace := [], [];
    ghost var w0 := download.fs.World();
    rc := download.Prepare();
    if rc == OK {
      trace := Logged(w0, [], OpenFinal(download.pid), download.fs.World());
      ghost var tail;
      fetched, tail := ReadFile(download);
      trace := Joined(w0, trace, tail, download.fs.World());
    }
  }

  /** Store, then fetch, on a file system that others use too: what a download of a committed
      upload delivers is what the writes got through, plus a batch of zeros for each read that
      failed; that is all that was written exactly when no write failed with bytes left to write.
      When the kernel serves every call, however few bytes at a time, and the name is free, both
      succeed and the writes come back. */
  method StoreThenFetch(upload: LocalUpload, download: LocalDownload, writes: seq<Bytes>)
    returns (rc: Status, fetched: Bytes, ghost trace: seq<Event>)
    requires upload.fs == download.fs && upload.name == download.name
    requires upload.AtRest() && upload.step == Init && download.AtRest() && download.step == Init
    requires Invariant(upload.fs.World())
    modifies upload, download, upload.fs
    ensures upload.fs.World() == Run(old(upload.fs.World()), trace)
    ensures var o := StoreEnding(old(upload.fs.script), old(upload.Temp()), old(upload.Published()), writes);
            rc == if o.rc != OK then o.rc else OpenedStatus(PathErrno(o.script, true))
    ensures rc == OK ==>
              var bytes := StoredBytes(old(upload.fs.script), old(upload.Temp()), old(upload.Published()), writes);
              var noise := Noise(old(upload.fs.World()), trace, download.pid);
              && |fetched| == |bytes| + noise && (fetched == bytes <==> noise == 0)
              && (bytes == Flatten(writes) <==>
                    AllGoThrough(PrepareEnding(old(upload.fs.script), old(upload.Temp()), old(upload.Published())).script, writes))
              && (bytes == Flatten(writes) <==> LostBytes(old(upload.fs.World()), trace, upload.pid) == 0)
              && Given(old(upload.fs.World()), trace, upload.pid) == Flatten(writes)
    ensures Serving(old(upload.fs.script)) && !old(upload.Temp()) && !old(upload.Published()) ==> rc == OK && fetched == Flatten(writes)
  {
    fetched := [];
    ghost var w0, script := upload.fs.World(), upload.fs.script;
    ghost var temp, final := upload.Temp(), upload.Published();
    rc, trace := Store(upload, writes);
    ServedStore(script, temp, final, writes);
    TakenAllIff(PrepareEnding(script, temp, final).script, writes);
    if rc != OK {
      return;
    }
    ghost var tail;
    RunKeeps(w0, trace);
    rc, fetched, tail := FetchAll(download);
    trace := Joined(w0, trace, tail, upload.fs.World());
    Accounts(w0, trace, upload.pid);
    NoiseAccounts(w0, trace, download.pid);
  }

  lemma ServedStore(script: Script, temp: bool, final: bool, writes: seq<Bytes>)
    ensures var o := StoreEnding(script, temp, final, writes);
            Serving(script) && !temp && !final ==>
              && o.rc == OK && StoredBytes(script, temp, final, writes) == Flatten(writes)
              && PathErrno(o.script, true) == Success && forall left: nat :: Noisy(After(o.script), left) == 0
  {
    if Serving(script) && !temp && !final {
      WillingTail(script);
      StoreMeans(script, temp, final, writes);
      var o := StoreEnding(script, temp, final, writes);
      WillingTail(o.script);
      forall left: nat ensures Noisy(After(o.script), left) == 0 {
        ServingIsQuiet(After(o.script), left);
      }
    }
  }
}
