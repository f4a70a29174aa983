/** The kernel as the local blobs see it: a script of answers to their system calls, and what the
    operations of src/oio/blob/local/blob.cpp:49-439 make of them. */
module LocalKernel {
  import opened Basics
  import opened LocalPublish

  /** errno values told apart; `EACCES` stands for EPERM too, `Other` for the rest. */
  datatype Errno = Success | EEXIST | EACCES | ENOENT | ENOTDIR | Other

  /** What the kernel answers to one call: it moves at most `n` bytes, is interrupted, has nothing
      to give yet (the wait that follows ends well or not), or refuses. Only reads and writes move
      bytes, wait or are interrupted: to any other call all but the last are a plain yes. */
  datatype Answer = Serve(n: nat) | Interrupted | Wait(ready: bool) | Refuse(errno: Errno)

  type Script = seq<Answer>

  function After(script: Script): Script { if script == [] then [] else script[1..] }

  function Refusal(script: Script): Errno {
    if script != [] && script[0].Refuse? then script[0].errno else Success
  }

  /** Nothing is refused and no wait is in vain. */
  ghost predicate Willing(script: Script) {
    forall a :: a in script ==> !a.Refuse? && a != Wait(false)
  }

  /** Moreover nothing is interrupted and nothing waits. */
  ghost predicate Serving(script: Script) {
    forall a :: a in script ==> a.Serve?
  }

  lemma WillingTail(script: Script)
    ensures Willing(script) ==> Willing(After(script)) && Refusal(script) == Success
    ensures Serving(script) ==> Serving(After(script)) && Willing(script)
  {
    assert script != [] ==> script[0] in script;
    assert forall a :: a in After(script) ==> a in script;
  }

  // What each call gives, when `there` says whether its path exists. A refusal is never a lie
  // about that.

  /** stat, unlink, rename, and open for reading. */
  function PathErrno(script: Script, there: bool): Errno {
    var r := Refusal(script);
    if r == EACCES || r == ENOTDIR || r == Other then r else if there then Success else ENOENT
  }

  /** open(O_WRONLY | O_CREAT | O_EXCL); ENOENT is a missing parent directory. */
  function OpenErrno(script: Script, there: bool): Errno {
    var r := Refusal(script);
    if r == EACCES || r == ENOTDIR || r == Other || (r == ENOENT && !there) then r
    else if there then EEXIST else Success
  }

  function Least(a: nat, b: nat): nat { if a <= b then a else b }

  /** write of `limit` bytes. */
  function WriteAnswer(script: Script, limit: nat): (a: Answer)
    ensures a.Serve? ==> a.n <= limit
  {
    if script == [] then Serve(limit) else if script[0].Serve? then Serve(Least(script[0].n, limit)) else script[0]
  }

  /** read of `limit` bytes where as many are left: none only at the end. */
  function ReadAnswer(script: Script, limit: nat): (a: Answer)
    ensures a.Serve? ==> a.n <= limit && (a.n == 0 <==> limit == 0)
  {
    if script == [] then Serve(limit)
    else if script[0].Serve? then Serve(if script[0].n == 0 && limit > 0 then 1 else Least(script[0].n, limit))
    else script[0]
  }

  /** The kernel's side, and who does what with it. Once the answers are used up, every call is
      served in full. */
  class FileSystem {
    var dir: map<Path, Inode>
    var data: map<Inode, Bytes>
    var next: Inode
    var script: Script
    ghost var uploads: map<Pid, Upload>
    ghost var downloads: map<Pid, Download>
    ghost var removals: map<Pid, Removal>
    ghost var published: map<Inode, Publication>

    /** The state of the machine. */
    ghost function World(): Sys
      reads this
    {
      Sys(dir, data, next, uploads, downloads, removals, published)
    }

    method OpenExclusive(path: Path) returns (errno: Errno, inode: Inode)
      modifies this`dir, this`data, this`next, this`script
      ensures errno == OpenErrno(old(script), path in old(dir)) && script == After(old(script))
      ensures errno == Success ==>
                inode == old(next) && dir == old(dir)[path := inode] && data == old(data)[inode := []] && next == old(next) + 1
      ensures errno != Success ==> dir == old(dir) && data == old(data) && next == old(next)
    {
      errno, inode, script := OpenErrno(script, path in dir), next, After(script);
      if errno == Success {
        dir, data, next := dir[path := inode], data[inode := []], next + 1;
      }
    }

    /** Creates the missing parents; directories are not part of this model. */
    method MakeParents(path: Path) returns (ok: bool)
      modifies this`script
      ensures ok == (Refusal(old(script)) == Success) && script == After(old(script))
    {
      ok, script := Refusal(script) == Success, After(script);
    }

    method Stat(path: Path) returns (errno: Errno)
      modifies this`script
      ensures errno == PathErrno(old(script), path in dir) && script == After(old(script))
    {
      errno, script := PathErrno(script, path in dir), After(script);
    }

    method Unlink(path: Path) returns (errno: Errno)
      modifies this`dir, this`script
      ensures errno == PathErrno(old(script), path in old(dir)) && script == After(old(script))
      ensures dir == if errno == Success then old(dir) - {path} else old(dir)
    {
      errno, script := PathErrno(script, path in dir), After(script);
      if errno == Success {
        dir := dir - {path};
      }
    }

    method Rename(from: Path, to: Path) returns (errno: Errno)
      requires from != to
      modifies this`dir, this`script
      ensures errno == PathErrno(old(script), from in old(dir)) && script == After(old(script))
      ensures errno == Success ==> from in old(dir) && dir == (old(dir) - {from})[to := old(dir)[from]]
      ensures errno != Success ==> dir == old(dir)
    {
      errno, script := PathErrno(script, from in dir), After(script);
      if errno == Success {
        dir := (dir - {from})[to := dir[from]];
      }
    }

    method OpenToRead(path: Path) returns (errno: Errno, inode: Inode)
      modifies this`script
      ensures errno == PathErrno(old(script), path in dir) && script == After(old(script))
      ensures errno == Success ==> path in dir && inode == dir[path]
    {
      errno, script := PathErrno(script, path in dir), After(script);
      inode := if errno == Success then dir[path] else 0;
    }

    /** read at an offset. */
    method Read(inode: Inode, offset: nat, max: nat) returns (a: Answer, chunk: Bytes)
      requires inode in data && offset <= |data[inode]|
      modifies this`script
      ensures a == ReadAnswer(old(script), Least(max, |data[inode]| - offset)) && script == After(old(script))
      ensures chunk == if a.Serve? then data[inode][offset..offset + a.n] else []
    {
      a, script := ReadAnswer(script, Least(max, |data[inode]| - offset)), After(script);
      chunk := if a.Serve? then data[inode][offset..offset + a.n] else [];
    }

    method Write(inode: Inode, buf: Bytes) returns (a: Answer)
      requires inode in data
      modifies this`data, this`script
      ensures a == WriteAnswer(old(script), |buf|) && script == After(old(script))
      ensures data == if a.Serve? then old(data)[inode := old(data)[inode] + buf[..a.n]] else old(data)
    {
      a, script := WriteAnswer(script, |buf|), After(script);
      if a.Serve? {
        data := data[inode := data[inode] + buf[..a.n]];
      }
    }
  }

  /** What a failed open of the temporary file is reported as. */
  function StatusOf(errno: Errno): Status {
    match errno
    case Success => OK
    case EEXIST => Already
    case EACCES => Forbidden
    case ENOENT => Forbidden
    case _ => InternalError
  }

  /** The status of an errno in general (src/oio/api/common.cpp:103-131). */
  function Mapped(errno: Errno): Status {
    match errno
    case Success => OK
    case ENOENT => NotFound
    case EEXIST => Already
    case EACCES => Forbidden
    case ENOTDIR => Forbidden
    case Other => InternalError
  }

  // How the operations of an upload end, as the answers of the kernel decide: the status, whether
  // the temporary path exists afterwards, and the answers not used. `temp` and `final` say
  // whether the two paths existed before.

  datatype Ending = Ending(rc: Status, temp: bool, script: Script)

  function OpenEnding(script: Script, temp: bool): Ending {
    var errno := OpenErrno(script, temp);
    Ending(StatusOf(errno), temp || errno == Success, After(script))
  }

  /** A missing parent is created, and the open tried once more. */
  function CreateEnding(script: Script, temp: bool): Ending {
    if OpenErrno(script, temp) != ENOENT then OpenEnding(script, temp) else RetryEnding(After(script), temp)
  }

  function RetryEnding(script: Script, temp: bool): Ending {
    if Refusal(script) != Success then Ending(Forbidden, temp, After(script)) else OpenEnding(After(script), temp)
  }

  /** The temporary path is unlinked; whether that works is not reported. */
  function DropEnding(rc: Status, script: Script, temp: bool): Ending {
    Ending(rc, temp && PathErrno(script, temp) != Success, After(script))
  }

  function CheckEnding(script: Script, temp: bool, final: bool): Ending {
    var errno := PathErrno(script, final);
    if errno == ENOENT then Ending(OK, temp, After(script))
    else DropEnding(if errno == Success then Already else Mapped(errno), After(script), temp)
  }

  function PrepareEnding(script: Script, temp: bool, final: bool): Ending {
    var o := CreateEnding(script, temp);
    if o.rc != OK then o else CheckEnding(o.script, o.temp, final)
  }

  function CommitEnding(script: Script, temp: bool): Ending {
    var errno := PathErrno(script, temp);
    if errno == Success then Ending(OK, false, After(script)) else DropEnding(Mapped(errno), After(script), temp)
  }

  lemma PrepareJoins(script: Script, temp: bool, final: bool, after: Script)
    requires CreateEnding(script, temp) == Ending(OK, true, after)
    ensures PrepareEnding(script, temp, final) == CheckEnding(after, true, final)
  {
  }

  lemma CreateMeans(script: Script, temp: bool)
    ensures var o := CreateEnding(script, temp);
            && (o.rc == OK ==> !temp && o.temp) && (temp ==> o.temp)
            && (Willing(script) ==> o.rc == (if temp then Already else OK) && o.temp && Willing(o.script))
            && (Serving(script) ==> Serving(o.script))
  {
    WillingTail(script);
    WillingTail(After(script));
    WillingTail(After(After(script)));
  }

  lemma CheckMeans(script: Script, final: bool)
    ensures var o := CheckEnding(script, true, final);
            && (o.rc == OK ==> !final && o.temp)
            && (Willing(script) ==> o.rc == (if final then Already else OK) && o.temp == !final && Willing(o.script))
            && (Serving(script) ==> Serving(o.script))
  {
    WillingTail(script);
    WillingTail(After(script));
  }

  /** What Prepare promises: it succeeds only if both paths were free, and always does when
      nothing is refused; it never removes a temporary file that it did not create, and leaves
      none behind when it fails and nothing is refused. */
  lemma PrepareMeans(script: Script, temp: bool, final: bool)
    ensures var o := PrepareEnding(script, temp, final);
            && (o.rc == OK ==> !temp && !final && o.temp)
            && (temp ==> o.temp)
            && (Willing(script) ==>
                  && o.rc == (if temp || final then Already else OK)
                  && o.temp == (temp || !final) && Willing(o.script))
            && (Serving(script) ==> Serving(o.script))
  {
    CreateMeans(script, temp);
    CheckMeans(CreateEnding(script, temp).script, final);
  }

  /** A missing parent directory is no obstacle, if it can be created. */
  lemma MissingParents(script: Script)
    requires Willing(script)
    ensures PrepareEnding([Refuse(ENOENT)] + script, false, false).rc == OK
  {
    var s := [Refuse(ENOENT)] + script;
    assert After(s) == script;
    WillingTail(script);
    WillingTail(After(script));
    WillingTail(After(After(script)));
  }

  // How the statuses come out, answer by answer.

  /** These refusals are believed whatever is there. */
  predicate Hard(e: Errno) { e == EACCES || e == ENOTDIR || e == Other }

  lemma RefusedOpen(e: Errno, script: Script, temp: bool, final: bool)
    requires Hard(e)
    ensures PrepareEnding([Refuse(e)] + script, temp, final) ==
            Ending(if e == EACCES then Forbidden else InternalError, temp, script)
  {
    assert After([Refuse(e)] + script) == script;
  }

  lemma PendingThere(n: nat, script: Script, final: bool)
    ensures PrepareEnding([Serve(n)] + script, true, final) == Ending(Already, true, script)
  {
    assert After([Serve(n)] + script) == script;
  }

  /** Without its parents the temporary file is tried twice at most. */
  lemma NoParents(e: Errno, n: nat, script: Script, final: bool)
    requires e != Success
    ensures PrepareEnding([Refuse(ENOENT), Refuse(e)] + script, false, final) == Ending(Forbidden, false, script)
    ensures PrepareEnding([Refuse(ENOENT), Serve(n), Refuse(ENOENT)] + script, false, final) == Ending(Forbidden, false, script)
  {
    var s, t := [Refuse(ENOENT), Refuse(e)] + script, [Refuse(ENOENT), Serve(n), Refuse(ENOENT)] + script;
    assert After(s) == [Refuse(e)] + script && After(After(s)) == script;
    assert After(t) == [Serve(n), Refuse(ENOENT)] + script && After(After(t)) == [Refuse(ENOENT)] + script;
    assert After(After(After(t))) == script;
  }

  /** With a free temporary path, the stat decides: free, taken, or refused; the temporary file then
      stays behind exactly if its unlink is refused too. */
  lemma StatDecides(n: nat, a: Answer, script: Script, final: bool)
    requires a.Serve? || (a.Refuse? && Hard(a.errno))
    ensures var o := PrepareEnding([Serve(n), a] + script, false, final);
            if a.Serve? && !final then o == Ending(OK, true, script)
            else o == Ending(if a.Serve? then Already else if a.errno == Other then InternalError else Forbidden,
                             script != [] && script[0].Refuse? && Hard(script[0].errno), After(script))
  {
    var s := [Serve(n), a] + script;
    assert After(s) == [a] + script && After(After(s)) == script;
  }

  /** A commit tells the errno of its rename, and drops the temporary file. */
  lemma RenameDecides(a: Answer, script: Script)
    requires a.Serve? || (a.Refuse? && Hard(a.errno))
    ensures CommitEnding([a] + script, true) ==
            if a.Serve? then Ending(OK, false, script)
            else Ending(if a.errno == Other then InternalError else Forbidden,
                        script != [] && script[0].Refuse? && Hard(script[0].errno), After(script))
  {
    assert After([a] + script) == script;
  }

  lemma AbortDecides(a: Answer, script: Script)
    requires a.Serve? || (a.Refuse? && Hard(a.errno))
    ensures DropEnding(OK, [a] + script, true) == Ending(OK, a.Refuse?, script)
  {
    assert After([a] + script) == script;
  }

  /** A stat or an unlink of a removal: of a missing file it is not found. */
  lemma RemovalStatus(a: Answer, script: Script, there: bool)
    requires a.Serve? || (a.Refuse? && Hard(a.errno))
    ensures Mapped(PathErrno([a] + script, there)) ==
            if a.Serve? then (if there then OK else NotFound) else if a.errno == Other then InternalError else Forbidden
  {
  }

  /** How one Write ends: the bytes not taken, whether a call failed, the answers not used. */
  datatype WriteEnd = WriteEnd(left: nat, failed: bool, script: Script)

  /** Short counts, interruptions and waits that end well are retried; the rest gives up. */
  function WriteOutcome(script: Script, left: nat): (o: WriteEnd)
    ensures o.left <= left && (if o.failed then o.left > 0 || left == 0 else o.left == 0)
    decreases |script|
  {
    match WriteAnswer(script, left)
    case Serve(n) => if n == left then WriteEnd(0, false, After(script)) else WriteOutcome(After(script), left - n)
    case Interrupted => WriteOutcome(After(script), left)
    case Wait(ready) => if ready then WriteOutcome(After(script), left) else WriteEnd(left, true, After(script))
    case Refuse(_) => WriteEnd(left, true, After(script))
  }

  /** A write fails only when the kernel refuses or lets a wait run out. */
  lemma {:induction false} WillingWrite(script: Script, left: nat)
    requires Willing(script)
    ensures var o := WriteOutcome(script, left); !o.failed && Willing(o.script) && (Serving(script) ==> Serving(o.script))
    decreases |script|
  {
    WillingTail(script);
    if script != [] {
      assert script[0] in script;
      match WriteAnswer(script, left)
      case Serve(n) =>
        if n < left {
          WillingWrite(After(script), left - n);
        }
      case Interrupted => WillingWrite(After(script), left);
      case Wait(_) => WillingWrite(After(script), left);
      case Refuse(_) =>
    }
  }

  /** The bytes that the answers take. */
  function Counts(script: Script): nat {
    if script == [] then 0 else (if script[0].Serve? then script[0].n else 0) + Counts(script[1..])
  }

  predicate AnyServed(script: Script) { script != [] && (script[0].Serve? || AnyServed(script[1..])) }

  /** Some write call was served, and all the bytes have been taken. */
  predicate Complete(script: Script, left: nat) { AnyServed(script) && Counts(script) >= left }

  /** A refusal, or a wait in vain. */
  predicate GivesUp(a: Answer) { a.Refuse? || a == Wait(false) }

  lemma CompleteTail(script: Script, left: nat, i: nat)
    requires 0 < i <= |script|
    ensures Counts(script[..i]) == (if script[0].Serve? then script[0].n else 0) + Counts(script[1..][..i - 1])
    ensures AnyServed(script[..i]) <==> script[0].Serve? || AnyServed(script[1..][..i - 1])
  {
    assert script[..i][1..] == script[1..][..i - 1];
  }

  lemma {:induction false} CountedIsServed(script: Script)
    ensures Counts(script) > 0 ==> AnyServed(script)
  {
    if script != [] {
      CountedIsServed(script[1..]);
    }
  }

  /** A write gives up at the first refusal or wait in vain that comes before all its bytes have
      been taken; it has then written what was taken before, and tries nothing more. */
  lemma {:induction false} WriteGivesUp(script: Script, left: nat, i: nat)
    requires i < |script| && GivesUp(script[i]) && !Complete(script[..i], left)
    requires forall j :: 0 <= j < i ==> !GivesUp(script[j])
    ensures Counts(script[..i]) <= left
    ensures WriteOutcome(script, left) == WriteEnd(left - Counts(script[..i]), true, script[i + 1..])
  {
    CountedIsServed(script[..i]);
    if i > 0 {
      CompleteTail(script, left, i);
      assert forall j :: 0 <= j < i - 1 ==> script[1..][j] == script[j + 1];
      var n := if script[0].Serve? then script[0].n else 0;
      WriteGivesUp(script[1..], left - n, i - 1);
      assert script[1..][i..] == script[i + 1..];
    }
  }

  lemma {:induction false} WriteGoesOn(script: Script, left: nat)
    requires forall i :: 0 <= i < |script| && GivesUp(script[i]) ==> Complete(script[..i], left)
    ensures !WriteOutcome(script, left).failed
    decreases |script|
  {
    if script != [] {
      assert script[..0] == [];
      var n := if script[0].Serve? then script[0].n else 0;
      if !script[0].Serve? || n < left {
        forall i | 0 <= i < |script| - 1 && GivesUp(script[1..][i]) ensures Complete(script[1..][..i], left - n) {
          CompleteTail(script, left, i + 1);
          assert script[1..][i] == script[i + 1];
          CountedIsServed(script[1..][..i]);
        }
        WriteGoesOn(script[1..], left - n);
      }
    }
  }

  function FirstGivingUp(script: Script, i: nat): (k: nat)
    requires i < |script| && GivesUp(script[i])
    ensures k <= i && GivesUp(script[k]) && forall j :: 0 <= j < k ==> !GivesUp(script[j])
  {
    if GivesUp(script[0]) then 0 else 1 + FirstGivingUp(script[1..], i - 1)
  }

  lemma {:induction false} CompleteGrows(script: Script, left: nat, k: nat, i: nat)
    requires k <= i <= |script|
    ensures Counts(script[..k]) <= Counts(script[..i]) && (AnyServed(script[..k]) ==> AnyServed(script[..i]))
  {
    if k > 0 {
      CompleteTail(script, left, k);
      CompleteTail(script, left, i);
      CompleteGrows(script[1..], left, k - 1, i - 1);
    } else {
      assert script[..0] == [];
    }
  }

  /** The kernel refuses, or lets a wait run out, before it has taken so many bytes. */
  ghost predicate Denies(script: Script, left: nat) {
    exists i :: 0 <= i < |script| && GivesUp(script[i]) && !Complete(script[..i], left)
  }

  /** A write fails exactly then. */
  lemma WriteFailsIff(script: Script, left: nat)
    ensures WriteOutcome(script, left).failed <==> Denies(script, left)
  {
    if Denies(script, left) {
      var i :| 0 <= i < |script| && GivesUp(script[i]) && !Complete(script[..i], left);
      var k := FirstGivingUp(script, i);
      CompleteGrows(script, left, k, i);
      WriteGivesUp(script, left, k);
    } else {
      WriteGoesOn(script, left);
    }
  }

  /** The bytes that a series of writes gets through, and the answers not used. */
  function Taken(script: Script, writes: seq<Bytes>): (Bytes, Script) {
    if writes == [] then ([], script)
    else
      var (bytes, rest) := Taken(script, writes[..|writes| - 1]);
      var buf := writes[|writes| - 1];
      var o := WriteOutcome(rest, |buf|);
      (bytes + buf[..|buf| - o.left], o.script)
  }

  /** A willing kernel takes all that is written. */
  lemma {:induction false} WillingTaken(script: Script, writes: seq<Bytes>)
    requires Willing(script)
    ensures Taken(script, writes).0 == Flatten(writes) && Willing(Taken(script, writes).1)
    ensures Serving(script) ==> Serving(Taken(script, writes).1)
  {
    if writes != [] {
      var init, buf := writes[..|writes| - 1], writes[|writes| - 1];
      WillingTaken(script, init);
      WillingWrite(Taken(script, init).1, |buf|);
      assert buf[..|buf|] == buf && writes == init + [buf];
      FlattenSnoc(init, buf);
    }
  }

  /** A series of writes gets everything through exactly when no write that has bytes is denied,
      each by the answers that the writes before it have left. */
  lemma {:induction false} TakenAllIff(script: Script, writes: seq<Bytes>)
    ensures |Taken(script, writes).0| <= |Flatten(writes)|
    ensures Taken(script, writes).0 == Flatten(writes) <==> |Taken(script, writes).0| == |Flatten(writes)|
    ensures Taken(script, writes).0 == Flatten(writes) <==> AllGoThrough(script, writes)
  {
    if writes != [] {
      var n := |writes| - 1;
      var init, buf := writes[..n], writes[n];
      TakenAllIff(script, init);
      var (bytes, rest) := Taken(script, init);
      WriteFailsIff(rest, |buf|);
      assert writes == init + [buf];
      FlattenSnoc(init, buf);
      ThroughSnoc(script, writes);
      LastOfAll(bytes, Flatten(init), buf, WriteOutcome(rest, |buf|).left);
    }
  }

  lemma LastOfAll(bytes: Bytes, all: Bytes, buf: Bytes, left: nat)
    requires |bytes| <= |all| && (bytes == all <==> |bytes| == |all|) && left <= |buf|
    ensures bytes + buf[..|buf| - left] == all + buf <==> bytes == all && left == 0
    ensures |bytes + buf[..|buf| - left]| == |all + buf| <==> bytes == all && left == 0
  {
    assert buf[..|buf|] == buf;
  }

  ghost predicate AllGoThrough(script: Script, writes: seq<Bytes>) {
    forall i :: 0 <= i < |writes| ==> GoesThrough(script, writes, i)
  }

  ghost predicate GoesThrough(script: Script, writes: seq<Bytes>, i: nat)
    requires i < |writes|
  {
    writes[i] == [] || !Denies(Taken(script, writes[..i]).1, |writes[i]|)
  }

  lemma ThroughSnoc(script: Script, writes: seq<Bytes>)
    requires writes != []
    ensures AllGoThrough(script, writes) <==>
            AllGoThrough(script, writes[..|writes| - 1]) && GoesThrough(script, writes, |writes| - 1)
  {
    var n := |writes| - 1;
    forall i | 0 <= i < n ensures GoesThrough(script, writes[..n], i) <==> GoesThrough(script, writes, i) {
      assert writes[..n][..i] == writes[..i];
    }
  }

  /** Prepare, a series of writes, Commit. */
  function StoreEnding(script: Script, temp: bool, final: bool, writes: seq<Bytes>): Ending {
    var o := PrepareEnding(script, temp, final);
    if o.rc != OK then o else CommitEnding(Taken(o.script, writes).1, true)
  }

  function StoredBytes(script: Script, temp: bool, final: bool, writes: seq<Bytes>): Bytes {
    Taken(PrepareEnding(script, temp, final).script, writes).0
  }

  /** A willing kernel stores all that is written, if the name is free. */
  lemma StoreMeans(script: Script, temp: bool, final: bool, writes: seq<Bytes>)
    requires Willing(script)
    ensures var o := StoreEnding(script, temp, final, writes);
            && o.rc == (if temp || final then Already else OK)
            && (o.rc == OK ==> StoredBytes(script, temp, final, writes) == Flatten(writes) && !o.temp)
            && Willing(o.script) && (Serving(script) ==> Serving(o.script))
  {
    PrepareMeans(script, temp, final);
    var p := PrepareEnding(script, temp, final);
    if p.rc == OK {
      WillingTaken(p.script, writes);
      WillingTail(Taken(p.script, writes).1);
    }
  }

  /** Defaults of the flags `read_batch_size` and `read_eintr_attempts`. */
  const READ_BATCH: nat := 1024 * 1024
  const READ_ATTEMPTS: nat := 5

  /** How one batch is loaded: the bytes read if the read worked, and the answers not used. Only
      waits that end well are retried, a few times; an interruption is a failure. */
  datatype Loaded = Loaded(count: Option<nat>, script: Script)

  function LoadOutcome(script: Script, attempts: nat, left: nat): (o: Loaded)
    ensures |o.script| <= |script| && (o.count.None? || script != [] ==> |o.script| < |script|)
    ensures o.count.Some? ==> o.count.value <= left && (o.count.value == 0 <==> left == 0)
    decreases |script|
  {
    match ReadAnswer(script, Least(READ_BATCH, left))
    case Serve(n) => Loaded(Some(n), After(script))
    case Interrupted => Loaded(None, After(script))
    case Wait(ready) =>
      if ready && attempts > 0 then LoadOutcome(After(script), attempts - 1, left) else Loaded(None, After(script))
    case Refuse(_) => Loaded(None, After(script))
  }

  /** The waits that end well before anything else is answered. */
  function Waits(script: Script): (n: nat)
    ensures n <= |script| && (n < |script| ==> script[n] != Wait(true))
  {
    if script == [] || script[0] != Wait(true) then 0 else 1 + Waits(script[1..])
  }

  /** A batch is loaded exactly when the kernel serves the read after no more waits than there are
      attempts to spare; nothing else is tried again. */
  lemma {:induction false} LoadFailsIff(script: Script, attempts: nat, left: nat)
    ensures var (o, n) := (LoadOutcome(script, attempts, left), Waits(script));
            && (o.count.Some? <==> n <= attempts && (n == |script| || script[n].Serve?))
            && (o.count.Some? ==> o.script == After(script[n..]))
  {
    if script != [] && script[0] == Wait(true) && attempts > 0 {
      LoadFailsIff(script[1..], attempts - 1, left);
      assert script[1..][Waits(script[1..])..] == script[Waits(script)..];
    }
  }

  /** The bytes that no file holds among those that a download delivers up to the end of its file:
      one batch for each read that fails. */
  function Noisy(script: Script, left: nat): nat
    decreases |script|, left
  {
    var o := LoadOutcome(script, READ_ATTEMPTS, left);
    if o.count.None? then READ_BATCH + Noisy(o.script, left)
    else if o.count.value == 0 then 0
    else Noisy(o.script, left - o.count.value)
  }

  /** While every read is served there is none, however short the reads. */
  lemma {:induction false} ServingIsQuiet(script: Script, left: nat)
    requires Serving(script)
    ensures Noisy(script, left) == 0
    decreases |script|, left
  {
    WillingTail(script);
    assert script != [] ==> script[0] in script;
    var o := LoadOutcome(script, READ_ATTEMPTS, left);
    if left > 0 {
      ServingIsQuiet(o.script, left - o.count.value);
    }
  }

  /** One interruption, at any time before the end, is enough to deliver a batch of zeros. */
  lemma InterruptedIsNoisy(script: Script, left: nat)
    ensures Noisy([Interrupted] + script, left) == READ_BATCH + Noisy(script, left)
  {
    assert After([Interrupted] + script) == script;
  }

  function CountOf(count: Option<nat>): nat { if count.Some? then count.value else 0 }

  /** A download that has read `at` bytes of `total`, and delivered `given` bytes of no file, is on
      its way to the noise it ends with. */
  ghost predicate Due(noise: nat, script: Script, at: nat, total: nat, given: nat, stale: bool, done: bool) {
    && at <= total && (done ==> at == total && !stale)
    && noise == given + (if stale then READ_BATCH else 0) + if done then 0 else Noisy(script, total - at)
  }

  /** Answers are used up, or a stale buffer is delivered, or bytes are read. */
  ghost predicate Progress(n0: nat, stale0: bool, at0: nat, n: nat, stale: bool, at: nat, end: nat) {
    n < n0 || (n == n0 && stale0 && !stale) || (n == n0 && stale0 == stale && at0 < at <= end)
  }

  lemma DueOn(noise: nat, script: Script, at: nat, total: nat, given: nat, o: Loaded)
    requires Due(noise, script, at, total, given, false, false) && o == LoadOutcome(script, READ_ATTEMPTS, total - at)
    ensures Due(noise, o.script, at + CountOf(o.count), total, given, o.count.None?, o.count == Some(0))
    ensures o.count != Some(0) ==>
              Progress(|script|, false, at, |o.script|, o.count.None?, at + CountOf(o.count), total)
  {
  }

  lemma DueStale(noise: nat, script: Script, at: nat, total: nat, given: nat)
    requires Due(noise, script, at, total, given, true, false)
    ensures Due(noise, script, at, total, given + READ_BATCH, false, false)
  {
  }
}
