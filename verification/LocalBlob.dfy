/** LocalUpload, LocalRemoval and LocalDownload as objects over one file system, which keeps the
    books of everyone who uses it: each method performs exactly the system calls of the machine of
    LocalPublish, in that order, whoever else is on the same file system, and ends as the answers
    of the kernel decide (src/oio/blob/local/blob.cpp:49-439). */
module LocalBlob {
  import opened Basics
  import opened LocalPublish
  import opened LocalKernel

  class LocalUpload {
    const fs: FileSystem
    const name: Bytes
    ghost const pid: Pid
    var fd: Option<Inode>
    var step: Step

    ghost predicate Known()
      reads fs`uploads
    {
      pid in fs.uploads && fs.uploads[pid].name == name
    }

    /** Where the machine says this upload stands. */
    ghost function Me(): Upload
      requires Known()
      reads fs`uploads
    {
      fs.uploads[pid]
    }

    ghost predicate At(pc: UploadPc)
      reads fs`uploads
    {
      Known() && Me().pc == pc
    }

    /** Between calls, the step and the descriptor say where the machine stands. */
    ghost predicate AtRest()
      reads this, fs`uploads
    {
      && Known()
      && (step == Init ==> Me().pc == Idle && fd == None)
      && (step == Prepared ==> Me().pc == Ready && fd == Some(Me().inode))
      && (step == Done ==> Me().pc == Ended && fd == None)
    }

    constructor (fs: FileSystem, name: Bytes, ghost pid: Pid)
      requires pid !in fs.uploads
      modifies fs`uploads
      ensures this.fs == fs && this.name == name && this.pid == pid
      ensures fs.uploads == old(fs.uploads)[pid := Upload(name, Idle, 0, [], [], 0)]
      ensures AtRest() && step == Init
    {
      this.fs, this.name, this.pid := fs, name, pid;
      fd, step := None, Init;
      new;
      fs.uploads := fs.uploads[pid := Upload(name, Idle, 0, [], [], 0)];
    }

    /** Writes down a new stand of this upload. */
    ghost method Note(u: Upload)
      modifies fs`uploads
      ensures fs.uploads == old(fs.uploads)[pid := u]
    {
      fs.uploads := fs.uploads[pid := u];
    }

    ghost predicate Temp()
      reads fs`dir
    {
      Pending(name) in fs.dir
    }

    ghost predicate Published()
      reads fs`dir
    {
      Final(name) in fs.dir
    }

    /** open: the temporary file must not exist yet. */
    method OpenTempFile() returns (errno: Errno, ghost e: Event)
      requires At(Idle)
      modifies this`fd, fs`uploads, fs`dir, fs`data, fs`next, fs`script
      ensures fs.World() == Apply(old(fs.World()), e)
      ensures errno == OpenErrno(old(fs.script), old(Temp())) && fs.script == After(old(fs.script))
      ensures errno == Success ==>
                && fs.uploads == old(fs.uploads)[pid := Upload(name, Created, old(fs.next), [], [], 0)]
                && fd == Some(old(fs.next)) && Temp()
      ensures errno != Success ==> fd == old(fd) && fs.World() == old(fs.World())
      ensures Published() == old(Published())
    {
      var inode;
      errno, inode := fs.OpenExclusive(Pending(name));
      e := OpenTemp(pid, errno == Success);
      if errno == Success {
        fd := Some(inode);
        Note(Upload(name, Created, inode, [], [], 0));
      }
    }

    /** One try at creating the temporary file; `missing` says that its parent is not there. */
    method TryCreate() returns (rc: Status, missing: bool, ghost trace: seq<Event>)
      requires At(Idle)
      modifies this`fd, fs`uploads, fs`dir, fs`data, fs`next, fs`script
      ensures fs.World() == Run(old(fs.World()), trace)
      ensures Ending(rc, Temp(), fs.script) == OpenEnding(old(fs.script), old(Temp()))
      ensures missing <==> OpenErrno(old(fs.script), old(Temp())) == ENOENT
      ensures rc == OK ==> fs.uploads == old(fs.uploads)[pid := Upload(name, Created, old(fs.next), [], [], 0)]
      ensures rc == OK ==> fd == Some(old(fs.next)) && At(Created)
      ensures rc != OK ==> fd == old(fd) && fs.World() == old(fs.World())
      ensures Published() == old(Published())
    {
      ghost var w0 := fs.World();
      var errno;
      ghost var e;
      errno, e := OpenTempFile();
      trace := Logged(w0, [], e, fs.World());
      rc, missing := StatusOf(errno), errno == ENOENT;
    }

    /** Opens the temporary file, a second time if the parents were missing. */
    method CreateTemp() returns (rc: Status, ghost trace: seq<Event>)
      requires At(Idle)
      modifies this`fd, fs`uploads, fs`dir, fs`data, fs`next, fs`script
      ensures fs.World() == Run(old(fs.World()), trace)
      ensures Ending(rc, Temp(), fs.script) == CreateEnding(old(fs.script), old(Temp()))
      ensures rc == OK ==> fs.uploads == old(fs.uploads)[pid := Upload(name, Created, old(fs.next), [], [], 0)]
      ensures rc == OK ==> fd == Some(old(fs.next)) && At(Created)
      ensures rc != OK ==> fd == old(fd) && fs.World() == old(fs.World())
      ensures Published() == old(Published())
    {
      ghost var w0 := fs.World();
      var missing;
      rc, missing, trace := TryCreate();
      if missing {
        var ok := fs.MakeParents(Pending(name));
        if !ok {
          return Forbidden, trace;
        }
        ghost var tail;
        rc, missing, tail := TryCreate();
        trace := Joined(w0, trace, tail, fs.World());
      }
    }

    /** stat: the final path must be free. */
    method CheckFinal() returns (errno: Errno, ghost e: Event)
      requires At(Created)
      modifies fs`uploads, fs`script
      ensures fs.World() == Apply(old(fs.World()), e)
      ensures errno == PathErrno(old(fs.script), Published()) && fs.script == After(old(fs.script))
      ensures fs.uploads == old(fs.uploads)[pid := old(Me()).(pc := if errno == ENOENT then Ready else Refusing)]
    {
      errno := fs.Stat(Final(name));
      e := StatFinal(pid, errno == ENOENT);
      Note(Me().(pc := if errno == ENOENT then Ready else Refusing));
    }

    /** unlink: whether it works is only logged. */
    method DropTemp(ghost rc: Status) returns (ghost e: Event)
      requires At(Refusing) || At(RenameFailed) || At(Unlinking)
      modifies fs`uploads, fs`dir, fs`script
      ensures fs.World() == Apply(old(fs.World()), e)
      ensures Ending(rc, Temp(), fs.script) == DropEnding(rc, old(fs.script), old(Temp()))
      ensures fs.uploads == old(fs.uploads)[pid := old(Me()).(pc := if old(Me()).pc == Refusing then RefusedClosing else Ended)]
      ensures Published() == old(Published())
    {
      var errno := fs.Unlink(Pending(name));
      e := UnlinkTemp(pid, errno == Success);
      Note(Me().(pc := if Me().pc == Refusing then RefusedClosing else Ended));
    }

    method CloseTemp() returns (ghost e: Event)
      requires At(RefusedClosing) || At(Committing) || At(Aborting)
      modifies this`fd, fs`uploads
      ensures fs.World() == Apply(old(fs.World()), e) && fd == None
      ensures fs.uploads == old(fs.uploads)[pid := old(Me()).(pc := Closed(old(Me()).pc))]
    {
      fd := None;
      e := Close(pid);
      Note(Me().(pc := Closed(Me().pc)));
    }

    /** rename: onto whatever is at the final path. */
    method MoveToFinal() returns (errno: Errno, ghost e: Event)
      requires At(Renaming)
      modifies fs`uploads, fs`dir, fs`published, fs`script
      ensures fs.World() == Apply(old(fs.World()), e)
      ensures errno == PathErrno(old(fs.script), old(Temp())) && fs.script == After(old(fs.script))
      ensures fs.uploads == old(fs.uploads)[pid := old(Me()).(pc := if errno == Success then Ended else RenameFailed)]
      ensures errno == Success ==> Published() && old(Temp()) && fs.dir[Final(name)] == old(fs.dir[Pending(name)]) && !Temp()
      ensures errno != Success ==> fs.dir == old(fs.dir)
    {
      ghost var before := fs.dir;
      errno := fs.Rename(Pending(name), Final(name));
      e := Rename(pid, errno == Success);
      if errno == Success {
        fs.published := fs.published[before[Pending(name)] := Publication(Me().wrote, Me().asked, Me().lost)];
      }
      Note(Me().(pc := if errno == Success then Ended else RenameFailed));
    }

    /** Removes then closes the temporary file of a refused upload. */
    method Refuse(ghost rc: Status) returns (ghost trace: seq<Event>)
      requires At(Refusing)
      modifies this`fd, fs`uploads, fs`dir, fs`script
      ensures fs.World() == Run(old(fs.World()), trace)
      ensures Ending(rc, Temp(), fs.script) == DropEnding(rc, old(fs.script), old(Temp()))
      ensures fs.uploads == old(fs.uploads)[pid := old(Me()).(pc := Idle)] && fd == None
      ensures Published() == old(Published())
    {
      ghost var w0 := fs.World();
      ghost var e := DropTemp(rc);
      ghost var w1 := fs.World();
      ghost var e' := CloseTemp();
      trace := Twice(w0, e, w1, e', fs.World());
    }

    /** Once the temporary file is there, gives up if the final path is taken. */
    method FinishPrepare() returns (rc: Status, ghost trace: seq<Event>)
      requires At(Created)
      modifies this`fd, fs`uploads, fs`dir, fs`script
      ensures fs.World() == Run(old(fs.World()), trace)
      ensures Ending(rc, Temp(), fs.script) == CheckEnding(old(fs.script), old(Temp()), old(Published()))
      ensures fs.uploads == old(fs.uploads)[pid := old(Me()).(pc := if rc == OK then Ready else Idle)]
      ensures fd == if rc == OK then old(fd) else None
      ensures Published() == old(Published())
    {
      ghost var w0 := fs.World();
      var errno;
      ghost var e;
      errno, e := CheckFinal();
      ghost var w1 := fs.World();
      if errno == ENOENT {
        trace := Chained(w0, e, w1, [], w1);
        return OK, trace;
      }
      rc := if errno == Success then Already else Mapped(errno);
      ghost var tail := Refuse(rc);
      trace := Chained(w0, e, w1, tail, fs.World());
    }

    /** Creates the temporary file, then gives up if the final path is taken. */
    method PrepareUnchecked() returns (rc: Status, ghost trace: seq<Event>)
      requires At(Idle) && fd == None
      modifies this`fd, fs`uploads, fs`dir, fs`data, fs`next, fs`script
      ensures fs.World() == Run(old(fs.World()), trace)
      ensures Ending(rc, Temp(), fs.script) == PrepareEnding(old(fs.script), old(Temp()), old(Published()))
      ensures rc == OK ==> fs.uploads == old(fs.uploads)[pid := Upload(name, Ready, old(fs.next), [], [], 0)] && fd == Some(old(fs.next))
      ensures rc != OK ==> At(Idle) && fs.uploads == old(fs.uploads)[pid := Me()] && fd == None
      ensures Published() == old(Published())
    {
      ghost var w0, script0, temp := fs.World(), fs.script, Temp();
      rc, trace := CreateTemp();
      if rc != OK {
        SameEntry(fs.uploads, pid);
        return;
      }
      ghost var created := Me();
      rc, trace := PrepareCreated(w0, script0, temp, trace);
      Overwritten(w0.uploads, pid, created, Me());
    }

    /** The second half, as part of the whole. */
    method PrepareCreated(ghost w0: Sys, ghost script0: Script, ghost temp: bool, ghost front: seq<Event>)
      returns (rc: Status, ghost trace: seq<Event>)
      requires At(Created) && fs.World() == Run(w0, front) && CreateEnding(script0, temp) == Ending(OK, Temp(), fs.script)
      modifies this`fd, fs`uploads, fs`dir, fs`script
      ensures fs.World() == Run(w0, trace)
      ensures Ending(rc, Temp(), fs.script) == PrepareEnding(script0, temp, old(Published()))
      ensures fs.uploads == old(fs.uploads)[pid := old(Me()).(pc := if rc == OK then Ready else Idle)]
      ensures fd == if rc == OK then old(fd) else None
      ensures Published() == old(Published())
    {
      ghost var script1, final := fs.script, Published();
      ghost var tail;
      CreateMeans(script0, temp);
      rc, tail := FinishPrepare();
      PrepareJoins(script0, temp, final, script1);
      trace := Joined(w0, front, tail, fs.World());
    }

    method Prepare() returns (rc: Status, ghost trace: seq<Event>)
      requires AtRest()
      modifies this`fd, this`step, fs`uploads, fs`dir, fs`data, fs`next, fs`script
      ensures AtRest() && fs.World() == Run(old(fs.World()), trace)
      ensures fs.uploads == old(fs.uploads)[pid := Me()]
      ensures old(step) != Init ==> rc == InternalError && fs.World() == old(fs.World()) && step == old(step)
      ensures old(step) == Init ==>
                && Ending(rc, Temp(), fs.script) == PrepareEnding(old(fs.script), old(Temp()), old(Published()))
                && step == if rc == OK then Prepared else Init
      ensures old(step) == Init && rc == OK ==> Me() == Upload(name, Ready, old(fs.next), [], [], 0)
      ensures Published() == old(Published())
    {
      trace := [];
      if step != Init {
        return InternalError, trace;
      }
      rc, trace := PrepareUnchecked();
      if rc == OK {
        step := Prepared;
      }
    }

    /** Commit and Abort start by leaving the prepared step. */
    ghost method Begin(commit: bool) returns (e: Event)
      requires At(Ready)
      modifies fs`uploads
      ensures fs.World() == Apply(old(fs.World()), e)
      ensures fs.uploads == old(fs.uploads)[pid := old(Me()).(pc := if commit then Committing else Aborting)]
    {
      e := if commit then BeginCommit(pid) else BeginAbort(pid);
      Note(Me().(pc := if commit then Committing else Aborting));
    }

    /** Renames the temporary file, or removes it if that fails. */
    method RenameOrDrop() returns (rc: Status, ghost trace: seq<Event>)
      requires At(Renaming)
      modifies fs`uploads, fs`dir, fs`published, fs`script
      ensures fs.World() == Run(old(fs.World()), trace)
      ensures Ending(rc, Temp(), fs.script) == CommitEnding(old(fs.script), old(Temp()))
      ensures fs.uploads == old(fs.uploads)[pid := old(Me()).(pc := Ended)]
      ensures rc == OK ==> Published() && old(Temp()) && fs.dir[Final(name)] == old(fs.dir[Pending(name)])
      ensures rc != OK ==> Published() == old(Published())
    {
      ghost var w0 := fs.World();
      var errno;
      ghost var e;
      errno, e := MoveToFinal();
      ghost var w1 := fs.World();
      rc := Mapped(errno);
      if errno == Success {
        trace := Chained(w0, e, w1, [], w1);
        return;
      }
      ghost var e' := DropTemp(rc);
      trace := Twice(w0, e, w1, e', fs.World());
    }

    /** Closes the temporary file, then renames it. */
    method CommitUnchecked() returns (rc: Status, ghost trace: seq<Event>)
      requires At(Committing)
      modifies this`fd, fs`uploads, fs`dir, fs`published, fs`script
      ensures fs.World() == Run(old(fs.World()), trace)
      ensures Ending(rc, Temp(), fs.script) == CommitEnding(old(fs.script), old(Temp()))
      ensures fs.uploads == old(fs.uploads)[pid := old(Me()).(pc := Ended)] && fd == None
      ensures rc == OK ==> Published() && old(Temp()) && fs.dir[Final(name)] == old(fs.dir[Pending(name)])
      ensures rc != OK ==> Published() == old(Published())
    {
      ghost var w0 := fs.World();
      ghost var e := CloseTemp();
      ghost var w1 := fs.World();
      ghost var tail;
      rc, tail := RenameOrDrop();
      trace := Chained(w0, e, w1, tail, fs.World());
    }

    /** On success the final path leads to the very bytes this upload has written. */
    method Commit() returns (rc: Status, ghost trace: seq<Event>)
      requires AtRest() && Invariant(fs.World())
      modifies this`fd, this`step, fs`uploads, fs`dir, fs`published, fs`script
      ensures AtRest() && fs.World() == Run(old(fs.World()), trace)
      ensures old(step) != Prepared ==> rc == InternalError && fs.World() == old(fs.World()) && step == old(step)
      ensures old(step) == Prepared ==>
                && Ending(rc, Temp(), fs.script) == CommitEnding(old(fs.script), true)
                && step == Done && fs.uploads == old(fs.uploads)[pid := old(Me()).(pc := Ended)]
                && !old(Published()) && (Published() <==> rc == OK)
      ensures old(step) == Prepared && rc == OK ==>
                && fs.dir[Final(name)] == old(Me()).inode
                && old(Me()).inode in fs.data && fs.data[old(Me()).inode] == old(Me()).wrote
    {
      trace := [];
      if step != Prepared {
        return InternalError, trace;
      }
      ghost var w0 := fs.World();
      PreparedIsSound(w0, pid);
      ghost var e := Begin(true);
      step := Done;
      ghost var w1 := fs.World();
      ghost var tail;
      rc, tail := CommitUnchecked();
      trace := Chained(w0, e, w1, tail, fs.World());
    }

    /** Closes, then removes the temporary file. */
    method AbortUnchecked() returns (ghost trace: seq<Event>)
      requires At(Aborting)
      modifies this`fd, fs`uploads, fs`dir, fs`script
      ensures fs.World() == Run(old(fs.World()), trace)
      ensures Ending(OK, Temp(), fs.script) == DropEnding(OK, old(fs.script), old(Temp()))
      ensures fs.uploads == old(fs.uploads)[pid := old(Me()).(pc := Ended)] && fd == None
      ensures Published() == old(Published())
    {
      ghost var w0 := fs.World();
      ghost var e := CloseTemp();
      ghost var w1 := fs.World();
      ghost var e' := DropTemp(OK);
      trace := Twice(w0, e, w1, e', fs.World());
    }

    method Abort() returns (rc: Status, ghost trace: seq<Event>)
      requires AtRest()
      modifies this`fd, this`step, fs`uploads, fs`dir, fs`script
      ensures AtRest() && fs.World() == Run(old(fs.World()), trace)
      ensures old(step) != Prepared ==> rc == InternalError && fs.World() == old(fs.World()) && step == old(step)
      ensures old(step) == Prepared ==>
                && Ending(rc, Temp(), fs.script) == DropEnding(OK, old(fs.script), old(Temp()))
                && step == Done && fs.uploads == old(fs.uploads)[pid := old(Me()).(pc := Ended)]
      ensures Published() == old(Published())
    {
      trace := [];
      if step != Prepared {
        return InternalError, trace;
      }
      ghost var w0 := fs.World();
      ghost var e := Begin(false);
      step := Done;
      ghost var w1 := fs.World();
      ghost var tail := AbortUnchecked();
      trace := Chained(w0, e, w1, tail, fs.World());
      rc := OK;
    }

    /** One write system call on what is left of the buffer: `n` bytes of it are taken; `more` says
        that the loop goes on, `failed` that it gives up. */
    method WriteOnce(buf: Bytes) returns (n: nat, more: bool, failed: bool, ghost e: Option<Event>)
      requires At(Writing(buf)) && fd == Some(Me().inode) && Me().inode in fs.data
      modifies fs`uploads, fs`data, fs`script
      ensures fs.World() == if e.Some? then Apply(old(fs.World()), e.value) else old(fs.World())
      ensures failed <==> e == Some(WriteFails(pid))
      ensures n <= |buf| && (failed ==> n == 0 && !more) && (!more && !failed ==> n == |buf|)
      ensures Heads(fs.script, |buf| - n, more, failed, WriteOutcome(old(fs.script), |buf|))
      ensures more ==> |fs.script| < |old(fs.script)|
      ensures fs.uploads == old(fs.uploads)[pid := AfterWrite(old(Me()), buf, n, more, failed)]
      ensures fs.data == old(fs.data)[old(Me()).inode := old(fs.data[Me().inode]) + buf[..n]]
    {
      var a := fs.Write(fd.value, buf);
      NothingTaken(Me(), buf, old(fs.data), fs.uploads, pid);
      match a {
        case Serve(k) =>
          n, more, failed, e := k, k < |buf|, false, Some(WriteSome(pid, k));
          Note(AfterWrite(Me(), buf, n, more, failed));
        case Interrupted =>
          n, more, failed, e := 0, true, false, None;
        case Wait(ready) =>
          n, more, failed, e := 0, ready, !ready, if ready then None else Some(WriteFails(pid));
          if !ready {
            Note(AfterWrite(Me(), buf, 0, false, true));
          }
        case Refuse(_) =>
          n, more, failed, e := 0, false, true, Some(WriteFails(pid));
          Note(AfterWrite(Me(), buf, 0, false, true));
      }
    }

    /** Writes until the kernel has taken everything, or a call fails; the caller is not told. What
        is taken, what is lost and whether a call failed are what the kernel's answers say. */
    method Write(buf0: Bytes) returns (ghost k: nat, ghost trace: seq<Event>)
      requires AtRest() && step == Prepared && Me().inode in fs.data
      modifies fs`uploads, fs`data, fs`script
      ensures AtRest() && fs.World() == Run(old(fs.World()), trace)
      ensures k <= |buf0| && WriteEnd(|buf0| - k, WriteFails(pid) in trace, fs.script) == WriteOutcome(old(fs.script), |buf0|)
      ensures fs.uploads == old(fs.uploads)[pid := Written(old(Me()), buf0, k)]
      ensures fs.data == old(fs.data)[Me().inode := old(fs.data[Me().inode]) + buf0[..k]]
    {
      ghost var w0, goal := fs.World(), WriteOutcome(fs.script, |buf0|);
      k := 0;
      MidwayStart(Me(), buf0, fs.data[Me().inode], fs.data);
      Note(Me().(pc := Writing(buf0), asked := Me().asked + buf0));
      trace := Logged(w0, [], BeginWrite(pid, buf0), fs.World());
      var buf, more, failed := buf0, true, false;
      while more
        invariant MidWrite(w0, buf0, buf, k, more, failed) && Heads(fs.script, |buf|, more, failed, goal)
        invariant fs.World() == Run(w0, trace) && (WriteFails(pid) in trace <==> failed)
        decreases more, |fs.script|
      {
        ghost var before := fs.World();
        ghost var e;
        buf, more, failed, k, e := WriteTurn(w0, buf0, buf, k);
        trace := LoggedIf(w0, trace, e, before, fs.World());
      }
    }

    /** The loop of Write, after its first `k` bytes. */
    ghost predicate MidWrite(w0: Sys, buf0: Bytes, buf: Bytes, k: nat, more: bool, failed: bool)
      reads this, fs
    {
      && pid in w0.uploads && w0.uploads[pid].name == name && w0.uploads[pid].inode in w0.data
      && fd == Some(w0.uploads[pid].inode)
      && k <= |buf0| && buf == buf0[k..]
      && Halfway(w0, pid, buf0, k, more, failed, fs.uploads, fs.data)
      && (failed ==> !more) && (!more && !failed ==> k == |buf0|)
    }

    /** One turn of the loop of Write. */
    method WriteTurn(ghost w0: Sys, ghost buf0: Bytes, buf: Bytes, ghost k0: nat)
      returns (rest: Bytes, more: bool, failed: bool, ghost k: nat, ghost e: Option<Event>)
      requires MidWrite(w0, buf0, buf, k0, true, false)
      modifies fs`uploads, fs`data, fs`script
      ensures MidWrite(w0, buf0, rest, k, more, failed)
      ensures fs.World() == if e.Some? then Apply(old(fs.World()), e.value) else old(fs.World())
      ensures failed <==> e == Some(WriteFails(pid))
      ensures Heads(fs.script, |rest|, more, failed, WriteOutcome(old(fs.script), |buf|))
      ensures more ==> |fs.script| < |old(fs.script)|
    {
      var n;
      MidwayAt(w0.uploads[pid], buf0, k0);
      n, more, failed, e := WriteOnce(buf);
      MidwayOn(w0, pid, buf0, k0, n, more, failed, old(fs.uploads), old(fs.data), fs.uploads, fs.data);
      rest, k := buf[n..], k0 + n;
    }
  }

  /** The loop of Write, with so many bytes left, is on its way to the outcome, or there. */
  ghost predicate Heads(script: Script, left: nat, more: bool, failed: bool, goal: WriteEnd) {
    goal == if more then WriteOutcome(script, left) else WriteEnd(left, failed, script)
  }

  /** An upload after one write call on `buf`. */
  ghost function AfterWrite(u: Upload, buf: Bytes, n: nat, more: bool, failed: bool): Upload
    requires n <= |buf|
  {
    if failed then u.(pc := Ready, lost := u.lost + |buf|)
    else u.(pc := if more then Writing(buf[n..]) else Ready, wrote := u.wrote + buf[..n])
  }

  /** An upload that was given a buffer of which the kernel took the first `k` bytes. */
  ghost function Written(u: Upload, buf: Bytes, k: nat): Upload
    requires k <= |buf|
  {
    u.(asked := u.asked + buf, wrote := u.wrote + buf[..k], lost := u.lost + |buf| - k)
  }

  /** The same while the loop of Write runs, and at its end. */
  ghost function Midway(u: Upload, buf: Bytes, k: nat, more: bool, failed: bool): Upload
    requires k <= |buf|
  {
    u.(asked := u.asked + buf, wrote := u.wrote + buf[..k],
       pc := if more then Writing(buf[k..]) else Ready, lost := if failed then u.lost + |buf| - k else u.lost)
  }

  lemma MidwayAt(u: Upload, buf: Bytes, k: nat)
    requires k <= |buf|
    ensures var v := Midway(u, buf, k, true, false); v.pc == Writing(buf[k..]) && v.name == u.name && v.inode == u.inode
  {
  }

  lemma MidwayStart(u: Upload, buf: Bytes, file: Bytes, data: map<Inode, Bytes>)
    requires u.inode in data && file == data[u.inode]
    ensures Midway(u, buf, 0, true, false) == u.(pc := Writing(buf), asked := u.asked + buf)
    ensures data == data[u.inode := file + buf[..0]] && buf[0..] == buf
  {
    assert u.wrote + buf[..0] == u.wrote && buf[0..] == buf && file + buf[..0] == file;
  }

  lemma NothingTaken(u: Upload, buf: Bytes, data: map<Inode, Bytes>, uploads: map<Pid, Upload>, pid: Pid)
    requires u.inode in data && pid in uploads && uploads[pid] == u && u.pc == Writing(buf)
    ensures AfterWrite(u, buf, 0, true, false) == u && uploads == uploads[pid := u]
    ensures data == data[u.inode := data[u.inode] + buf[..0]]
  {
    assert u.wrote + buf[..0] == u.wrote && buf[0..] == buf;
    NoBytes(data, u.inode, buf);
  }

  lemma SameEntry(uploads: map<Pid, Upload>, pid: Pid)
    requires pid in uploads
    ensures uploads == uploads[pid := uploads[pid]]
  {
  }

  lemma Overwritten(uploads: map<Pid, Upload>, pid: Pid, u: Upload, v: Upload)
    ensures uploads[pid := u][pid := v] == uploads[pid := v]
  {
  }

  lemma NoBytes(data: map<Inode, Bytes>, inode: Inode, buf: Bytes)
    requires inode in data
    ensures data == data[inode := data[inode] + buf[..0]]
  {
    assert data[inode] + buf[..0] == data[inode];
  }

  /** The books and the file when the kernel has taken the first `k` bytes. */
  ghost predicate Halfway(w0: Sys, pid: Pid, buf: Bytes, k: nat, more: bool, failed: bool,
                          uploads: map<Pid, Upload>, data: map<Inode, Bytes>)
    requires pid in w0.uploads && w0.uploads[pid].inode in w0.data && k <= |buf|
  {
    var u := w0.uploads[pid];
    && uploads == w0.uploads[pid := Midway(u, buf, k, more, failed)]
    && data == w0.data[u.inode := w0.data[u.inode] + buf[..k]]
  }

  lemma MidwayOn(w0: Sys, pid: Pid, buf: Bytes, k: nat, n: nat, more: bool, failed: bool,
                 uploads: map<Pid, Upload>, data: map<Inode, Bytes>, uploads': map<Pid, Upload>, data': map<Inode, Bytes>)
    requires pid in w0.uploads && w0.uploads[pid].inode in w0.data
    requires k + n <= |buf| && (failed ==> n == 0 && !more)
    requires Halfway(w0, pid, buf, k, true, false, uploads, data)
    requires uploads' == uploads[pid := AfterWrite(uploads[pid], buf[k..], n, more, failed)]
    requires data' == data[w0.uploads[pid].inode := data[w0.uploads[pid].inode] + buf[k..][..n]]
    ensures Halfway(w0, pid, buf, k + n, more, failed, uploads', data') && buf[k..][n..] == buf[k + n..]
  {
    var u := w0.uploads[pid];
    var file := w0.data[u.inode];
    assert buf[..k] + buf[k..][..n] == buf[..k + n];
    assert buf[k..][n..] == buf[k + n..];
    Associative(u.wrote, buf[..k], buf[k..][..n]);
    Associative(file, buf[..k], buf[k..][..n]);
  }

  class LocalRemoval {
    const fs: FileSystem
    const name: Bytes
    ghost const pid: Pid
    var step: Step

    ghost predicate Known()
      reads this, fs`removals
    {
      pid in fs.removals && fs.removals[pid] == Removal(name, step)
    }

    constructor (fs: FileSystem, name: Bytes, ghost pid: Pid)
      requires pid !in fs.removals
      modifies fs`removals
      ensures this.fs == fs && this.name == name && this.pid == pid && step == Init && Known()
      ensures fs.removals == old(fs.removals)[pid := Removal(name, Init)]
    {
      this.fs, this.name, this.pid, step := fs, name, pid, Init;
      new;
      fs.removals := fs.removals[pid := Removal(name, Init)];
    }

    /** Prepared exactly when the kernel finds the final path. */
    method Prepare() returns (rc: Status)
      requires Known()
      modifies this`step, fs`removals, fs`script
      ensures Known()
      ensures old(step) != Init ==> rc == InternalError && fs.World() == old(fs.World()) && fs.script == old(fs.script)
      ensures old(step) == Init ==>
                && rc == Mapped(PathErrno(old(fs.script), Final(name) in fs.dir)) && fs.script == After(old(fs.script))
                && fs.World() == if rc == OK then Apply(old(fs.World()), StatForRemoval(pid)) else old(fs.World())
    {
      if step != Init {
        return InternalError;
      }
      var errno := fs.Stat(Final(name));
      if errno == Success {
        step := Prepared;
        fs.removals := fs.removals[pid := Removal(name, step)];
      }
      rc := Mapped(errno);
    }

    /** One unlink, of whatever is at the final path by now. */
    method Commit() returns (rc: Status)
      requires Known()
      modifies this`step, fs`removals, fs`dir, fs`script
      ensures Known()
      ensures old(step) != Prepared ==> rc == InternalError && fs.World() == old(fs.World()) && fs.script == old(fs.script)
      ensures old(step) == Prepared ==>
                && rc == Mapped(PathErrno(old(fs.script), old(Final(name) in fs.dir))) && fs.script == After(old(fs.script))
                && fs.World() == Apply(old(fs.World()), UnlinkFinal(pid, rc == OK))
    {
      if step != Prepared {
        return InternalError;
      }
      step := Done;
      fs.removals := fs.removals[pid := Removal(name, step)];
      var errno := fs.Unlink(Final(name));
      rc := Mapped(errno);
    }

    method Abort() returns (rc: Status)
      requires Known()
      modifies this`step, fs`removals
      ensures Known()
      ensures rc == if old(step) == Prepared then OK else InternalError
      ensures fs.World() == Apply(old(fs.World()), GiveUpRemoval(pid))
    {
      if step != Prepared {
        return InternalError;
      }
      step := Done;
      fs.removals := fs.removals[pid := Removal(name, step)];
      rc := OK;
    }
  }

  class LocalDownload {
    const fs: FileSystem
    const name: Bytes
    ghost const pid: Pid
    var fd: Option<Inode>
    var offset: nat
    var buffer: Bytes
    var step: Step

    ghost predicate Known()
      reads fs`downloads
    {
      pid in fs.downloads && fs.downloads[pid].name == name
    }

    ghost function Me(): Download
      requires Known()
      reads fs`downloads
    {
      fs.downloads[pid]
    }

    /** A buffer that is not empty between two calls is that of a read that failed. */
    ghost predicate AtRest()
      reads this, fs`downloads
    {
      && Known()
      && (step == Init <==> Me().pc == Unopened) && (step == Prepared <==> Me().pc == Reading)
      && (Me().pc != Unopened ==> fd == Some(Me().inode) && |Me().got| == offset + Me().noise)
      && (step == Prepared ==> buffer == if Me().stale then Zeros(READ_BATCH) else [])
      && (step == Init ==> buffer == [])
    }

    constructor (fs: FileSystem, name: Bytes, ghost pid: Pid)
      requires pid !in fs.downloads
      modifies fs`downloads
      ensures this.fs == fs && this.name == name && this.pid == pid && AtRest() && step == Init
      ensures fs.downloads == old(fs.downloads)[pid := Download(name, Unopened, 0, [], 0, false)]
    {
      this.fs, this.name, this.pid := fs, name, pid;
      fd, offset, buffer, step := None, 0, [], Init;
      new;
      fs.downloads := fs.downloads[pid := Download(name, Unopened, 0, [], 0, false)];
    }

    ghost method Note(w: Download)
      modifies fs`downloads
      ensures fs.downloads == old(fs.downloads)[pid := w]
    {
      fs.downloads := fs.downloads[pid := w];
    }

    method Prepare() returns (rc: Status)
      requires AtRest()
      modifies this, fs`downloads, fs`script
      ensures AtRest()
      ensures old(step) != Init ==> rc == InternalError && fs.World() == old(fs.World()) && step == old(step) && fs.script == old(fs.script)
      ensures old(step) == Init ==>
                && var errno := PathErrno(old(fs.script), Final(name) in fs.dir);
                && rc == (if errno == Success then OK else if errno == ENOENT then NotFound else InternalError)
                && fs.script == After(old(fs.script))
                && fs.World() == (if rc == OK then Apply(old(fs.World()), OpenFinal(pid)) else old(fs.World()))
                && (rc == OK ==> step == Prepared && offset == 0 && Me() == Download(name, Reading, fs.dir[Final(name)], [], 0, false))
    {
      if step != Init {
        return InternalError;
      }
      var errno, inode := fs.OpenToRead(Final(name));
      if errno != Success {
        return if errno == ENOENT then NotFound else InternalError;
      }
      fd, offset, step := Some(inode), 0, Prepared;
      Note(Download(name, Reading, inode, [], 0, false));
      rc := OK;
    }

    method IsEof() returns (eof: bool)
      ensures eof <==> step == Done
    {
      eof := step == Done;
    }

    /** The file this download reads, of which it has read up to its offset. */
    ghost predicate Opened(file: Bytes)
      reads this, fs
    {
      && AtRest() && step != Init && Me().inode in fs.data && fs.data[Me().inode] == file && offset <= |file|
      && (Me().noise == 0 ==> Me().got == file[..offset])
    }

    ghost predicate Owes(file: Bytes, noise: nat)
      requires Known()
      reads this, fs
    {
      Due(noise, fs.script, offset, |file|, Me().noise, Me().stale, step == Done)
    }

    /** Reads again after a wait that ended well, as many times as attempts are left. */
    method LoadAndRetry(attempts: nat) returns (count: Option<nat>, chunk: Bytes)
      requires fd.Some? && fd.value in fs.data && offset <= |fs.data[fd.value]|
      modifies fs`script
      ensures Loaded(count, fs.script) == LoadOutcome(old(fs.script), attempts, |fs.data[fd.value]| - offset)
      ensures chunk == if count.Some? then fs.data[fd.value][offset..offset + count.value] else []
      decreases attempts
    {
      var a;
      a, chunk := fs.Read(fd.value, offset, READ_BATCH);
      match a {
        case Serve(n) => count := Some(n);
        case Interrupted => count := None;
        case Wait(ready) =>
          if ready && attempts > 0 {
            count, chunk := LoadAndRetry(attempts - 1);
          } else {
            count := None;
          }
        case Refuse(_) => count := None;
      }
    }

    /** Fills the buffer. It is sized before the read, and cut to the bytes read only if there are
        any. */
    method LoadBuffer(ghost file: Bytes) returns (ok: bool, ghost count: Option<nat>)
      requires Opened(file) && step == Prepared && !Me().stale
      modifies this`buffer, this`step, this`offset, fs`downloads, fs`script
      ensures Loaded(count, fs.script) == LoadOutcome(old(fs.script), READ_ATTEMPTS, |file| - old(offset))
      ensures ok <==> count.Some? && count.value > 0
      ensures step == (if count == Some(0) then Done else Prepared)
      ensures offset == old(offset) + CountOf(count) && offset <= |file|
      ensures buffer == if ok then file[old(offset)..offset] else Zeros(READ_BATCH)
      ensures fs.World() == Apply(old(fs.World()), LoadEvent(pid, count))
      ensures fs.downloads == old(fs.downloads)[pid := LoadedBy(old(Me()), file, old(offset), count)]
    {
      buffer := Zeros(READ_BATCH);
      var n, chunk := LoadAndRetry(READ_ATTEMPTS);
      count := n;
      LoadApplies(fs.World(), pid, file, offset, count);
      Note(LoadedBy(Me(), file, offset, count));
      if n.None? {
        return false, count;
      }
      if n.value == 0 {
        step := Done;
        return false, count;
      }
      buffer := chunk;
      offset := offset + n.value;
      ok := true;
    }

    /** One batch. After a read that failed the next call delivers the buffer all the same. */
    method Read(ghost file: Bytes) returns (buf: Bytes, ghost e: Option<Event>)
      requires AtRest() && (step != Init ==> Opened(file))
      modifies this, fs`downloads, fs`script
      ensures old(step) != Prepared ==> buf == [] && e == None && fs.World() == old(fs.World()) && step == old(step) && AtRest()
      ensures old(step) == Prepared ==>
                && Opened(file) && Me().inode == old(Me()).inode && Me().got == old(Me()).got + buf
                && e.Some? && fs.World() == Apply(old(fs.World()), e.value)
                && if old(Me()).stale then
                  && buf == Zeros(READ_BATCH) && !Me().stale && Me().noise == old(Me()).noise + READ_BATCH
                  && fs.script == old(fs.script) && offset == old(offset) && step == Prepared
                else
                  var o := LoadOutcome(old(fs.script), READ_ATTEMPTS, |file| - old(offset));
                  && fs.script == o.script && Me().noise == old(Me()).noise && Me().stale == o.count.None?
                  && step == (if o.count == Some(0) then Done else Prepared)
                  && offset == old(offset) + CountOf(o.count) && buf == file[old(offset)..offset]
    {
      buf, e := [], None;
      if step != Prepared {
        return;
      }
      if buffer == [] {
        buf, e := ReadFresh(file);
        return;
      }
      e := Some(DeliverStale(pid, READ_BATCH));
      Note(StaleStep(Me(), READ_BATCH));
      buf := buffer;
      buffer := [];
    }

    method ReadFresh(ghost file: Bytes) returns (buf: Bytes, ghost e: Option<Event>)
      requires Opened(file) && step == Prepared && !Me().stale
      modifies this, fs`downloads, fs`script
      ensures Opened(file) && Me().inode == old(Me()).inode && Me().got == old(Me()).got + buf
      ensures e.Some? && fs.World() == Apply(old(fs.World()), e.value)
      ensures var o := LoadOutcome(old(fs.script), READ_ATTEMPTS, |file| - old(offset));
              && fs.script == o.script && Me().noise == old(Me()).noise && Me().stale == o.count.None?
              && step == (if o.count == Some(0) then Done else Prepared)
              && offset == old(offset) + CountOf(o.count) && buf == file[old(offset)..offset]
    {
      var ok;
      ghost var count;
      ok, count := LoadBuffer(file);
      GotMore(old(Me()), file, old(offset), count);
      e := Some(LoadEvent(pid, count));
      buf := [];
      if ok {
        buf := buffer;
        buffer := [];
      }
    }
  }

  ghost function LoadEvent(pid: Pid, count: Option<nat>): Event {
    match count
    case None => ReadFails(pid)
    case Some(n) => ReadSome(pid, if n == 0 then 1 else n)
  }

  lemma LoadApplies(s: Sys, pid: Pid, file: Bytes, at: nat, count: Option<nat>)
    requires pid in s.downloads && s.downloads[pid].pc == Reading && !s.downloads[pid].stale
    requires |s.downloads[pid].got| == at + s.downloads[pid].noise && at <= |file|
    requires s.downloads[pid].inode in s.data && s.data[s.downloads[pid].inode] == file
    requires count.Some? ==> count.value <= |file| - at && (count.value == 0 <==> at == |file|)
    ensures Apply(s, LoadEvent(pid, count)) == s.(downloads := s.downloads[pid := LoadedBy(s.downloads[pid], file, at, count)])
  {
    if count.Some? && count.value > 0 {
      assert file[at..][..count.value] == file[at..at + count.value];
    }
  }

  lemma GotMore(w: Download, file: Bytes, at: nat, count: Option<nat>)
    requires |w.got| == at + w.noise && at <= |file| && (w.noise == 0 ==> w.got == file[..at])
    requires count.Some? ==> at + count.value <= |file|
    ensures var v := LoadedBy(w, file, at, count);
            && v.got == w.got + file[at..at + CountOf(count)] && v.noise == w.noise
            && (v.noise == 0 ==> v.got == file[..at + CountOf(count)])
  {
  }

  /** A download after one load of its buffer. */
  ghost function LoadedBy(w: Download, file: Bytes, at: nat, count: Option<nat>): Download
    requires count.Some? ==> at + count.value <= |file|
  {
    match count
    case None => w.(stale := true)
    case Some(n) => if n == 0 then w.(pc := AtEof) else w.(got := w.got + file[at..at + n])
  }

  /** One more event of the run. */
  ghost function Logged(w0: Sys, trace: seq<Event>, e: Event, w: Sys): (t: seq<Event>)
    requires w == Apply(Run(w0, trace), e)
    ensures w == Run(w0, t)
    ensures forall x :: x in t <==> x in trace || x == e
  {
    RunOne(w0, trace, e);
    trace + [e]
  }

  ghost function LoggedIf(w0: Sys, trace: seq<Event>, e: Option<Event>, before: Sys, w: Sys): (t: seq<Event>)
    requires before == Run(w0, trace) && w == if e.Some? then Apply(before, e.value) else before
    ensures w == Run(w0, t)
    ensures forall x :: x in t <==> x in trace || e == Some(x)
  {
    if e.Some? then Logged(w0, trace, e.value, w) else trace
  }

  /** One event, then a run from where it leads. */
  ghost function Chained(w0: Sys, e: Event, w1: Sys, tail: seq<Event>, w: Sys): (t: seq<Event>)
    requires w1 == Apply(w0, e) && w == Run(w1, tail)
    ensures w == Run(w0, t)
  {
    RunChain(w0, e, tail);
    [e] + tail
  }

  /** Two events. */
  ghost function Twice(w0: Sys, e: Event, w1: Sys, e': Event, w: Sys): (t: seq<Event>)
    requires w1 == Apply(w0, e) && w == Apply(w1, e')
    ensures w == Run(w0, t)
  {
    RunOne(w1, [], e');
    Chained(w0, e, w1, [] + [e'], w)
  }

  /** A run, then another from where it leads. */
  ghost function Joined(w0: Sys, front: seq<Event>, back: seq<Event>, w: Sys): (t: seq<Event>)
    requires w == Run(Run(w0, front), back)
    ensures w == Run(w0, t)
  {
    RunJoin(w0, front, back);
    front + back
  }

  lemma {:induction false} RunChain(w: Sys, e: Event, tail: seq<Event>)
    ensures Run(w, [e] + tail) == Run(Apply(w, e), tail)
  {
    RunOne(w, [], e);
    RunJoin(w, [] + [e], tail);
    assert [] + [e] == [e];
  }

  lemma {:induction false} RunJoin(w: Sys, front: seq<Event>, back: seq<Event>)
    ensures Run(w, front + back) == Run(Run(w, front), back)
  {
    if back == [] {
      assert front + back == front;
    } else {
      var init, last := back[..|back| - 1], back[|back| - 1];
      RunJoin(w, front, init);
      assert front + back == (front + init) + [last];
      RunOne(w, front + init, last);
    }
  }
}
