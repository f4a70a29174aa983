/** Publishing a blob on a local file system, at the granularity of system calls: any number of
    uploads, removals and downloads interleave on the same directory
    (src/oio/blob/local/blob.cpp:126-182, 212-237, 280-438). */
module LocalPublish {
  import opened Basics

  /** The final path of a blob and its `.pending` path; no blob is named like the pending path
      of another. */
  datatype Path = Final(name: Bytes) | Pending(name: Bytes)

  type Inode = nat
  type Pid = int

  /** Where an upload stands between two system calls. */
  datatype UploadPc =
    | Idle               // not prepared, no descriptor
    | Created            // temporary file created, final path not yet checked
    | Refusing           // final path taken: about to unlink the temporary file
    | RefusedClosing     // about to close it
    | Ready              // prepared
    | Writing(rest: Bytes)
    | Committing         // about to close the temporary file
    | Renaming           // about to rename it
    | RenameFailed       // about to unlink it
    | Aborting           // about to close it
    | Unlinking          // about to unlink it
    | Ended

  /** An upload, the inode it created, the bytes its writes were given, those the kernel took,
      and how many were dropped by failed writes. */
  datatype Upload = Upload(name: Bytes, pc: UploadPc, inode: Inode, asked: Bytes, wrote: Bytes, lost: nat) {
    /** The temporary file of the name is this upload's. */
    predicate Owns() { !pc.Idle? && !pc.RefusedClosing? && !pc.Ended? }

    /** The final path was seen free, and may still be renamed over. */
    predicate Cleared() { pc.Ready? || pc.Writing? || pc.Committing? || pc.Renaming? }

    /** It wrote all it was given exactly when it lost nothing. */
    predicate Accurate() { wrote == asked <==> lost == 0 }

    function Rest(): Bytes { if pc.Writing? then pc.rest else [] }
  }

  datatype DownloadPc = Unopened | Reading | AtEof

  /** A download, the file it opened and the bytes it delivered; `noise` of these came from no
      file, and `stale` says that the buffer of a read that failed will be delivered next. */
  datatype Download = Download(name: Bytes, pc: DownloadPc, inode: Inode, got: Bytes, noise: nat, stale: bool)

  datatype Removal = Removal(name: Bytes, step: Step)

  /** What was linked at a final path: the bytes in the file, and those its upload was given. */
  datatype Publication = Publication(content: Bytes, asked: Bytes, lost: nat)

  datatype Sys = Sys(dir: map<Path, Inode>, data: map<Inode, Bytes>, next: Inode,
                     uploads: map<Pid, Upload>, downloads: map<Pid, Download>, removals: map<Pid, Removal>,
                     published: map<Inode, Publication>)

  /** One system call, or the start of an operation; the booleans say whether the kernel lets
      the call succeed. */
  datatype Event =
    | OpenTemp(p: Pid, allowed: bool)
    | StatFinal(p: Pid, allowed: bool)
    | UnlinkTemp(p: Pid, allowed: bool)
    | Close(p: Pid)
    | BeginWrite(p: Pid, buf: Bytes)
    | WriteSome(p: Pid, n: nat)
    | WriteFails(p: Pid)
    | BeginCommit(p: Pid)
    | Rename(p: Pid, allowed: bool)
    | BeginAbort(p: Pid)
    | OpenFinal(d: Pid)
    | ReadSome(d: Pid, n: nat)
    | ReadFails(d: Pid)
    | DeliverStale(d: Pid, n: nat)
    | StatForRemoval(r: Pid)
    | UnlinkFinal(r: Pid, allowed: bool)
    | GiveUpRemoval(r: Pid)

  /** The calls of uploads; the others are those of downloads and removals. */
  predicate OfUpload(e: Event) {
    && !e.OpenFinal? && !e.ReadSome? && !e.ReadFails? && !e.DeliverStale?
    && !e.StatForRemoval? && !e.UnlinkFinal? && !e.GiveUpRemoval?
  }

  /** A call of an upload changes no other upload, and not its own name. */
  predicate OnlyUpload(s: Sys, t: Sys, p: Pid) {
    t.uploads == s.uploads ||
    (p in s.uploads && p in t.uploads && t.uploads[p].name == s.uploads[p].name && t.uploads == s.uploads[p := t.uploads[p]])
  }

  function Set(s: Sys, p: Pid, u: Upload): Sys { s.(uploads := s.uploads[p := u]) }

  function Goto(s: Sys, p: Pid, pc: UploadPc): Sys
    requires p in s.uploads
  {
    Set(s, p, s.uploads[p].(pc := pc))
  }

  /** open(O_CREAT | O_EXCL): fails if the path exists, otherwise links a new empty file. */
  function ApplyOpenTemp(s: Sys, p: Pid, allowed: bool): (t: Sys)
    requires p in s.uploads
    ensures OnlyUpload(s, t, p)
  {
    var u := s.uploads[p];
    if !u.pc.Idle? || !allowed || Pending(u.name) in s.dir then s
    else
      Set(s, p, Upload(u.name, Created, s.next, [], [], 0))
        .(dir := s.dir[Pending(u.name) := s.next], data := s.data[s.next := []], next := s.next + 1)
  }

  function ApplyStatFinal(s: Sys, p: Pid, allowed: bool): (t: Sys)
    requires p in s.uploads
    ensures OnlyUpload(s, t, p)
  {
    var u := s.uploads[p];
    if !u.pc.Created? then s
    else Goto(s, p, if allowed && Final(u.name) !in s.dir then Ready else Refusing)
  }

  function ApplyUnlinkTemp(s: Sys, p: Pid, allowed: bool): (t: Sys)
    requires p in s.uploads
    ensures OnlyUpload(s, t, p)
  {
    var u := s.uploads[p];
    if !u.pc.Refusing? && !u.pc.RenameFailed? && !u.pc.Unlinking? then s
    else
      Goto(s, p, if u.pc.Refusing? then RefusedClosing else Ended)
        .(dir := if allowed then s.dir - {Pending(u.name)} else s.dir)
  }

  /** Where closing the temporary file leads. */
  function Closed(pc: UploadPc): UploadPc {
    if pc.RefusedClosing? then Idle else if pc.Committing? then Renaming else Unlinking
  }

  function ApplyClose(s: Sys, p: Pid): (t: Sys)
    requires p in s.uploads
    ensures OnlyUpload(s, t, p)
  {
    var pc := s.uploads[p].pc;
    if pc.RefusedClosing? || pc.Committing? || pc.Aborting? then Goto(s, p, Closed(pc)) else s
  }

  /** write: the kernel takes some of the bytes; the loop ends once it has taken them all. */
  function ApplyWriteSome(s: Sys, p: Pid, n: nat): (t: Sys)
    requires p in s.uploads
    ensures OnlyUpload(s, t, p)
  {
    var u := s.uploads[p];
    if !u.pc.Writing? || u.inode !in s.data then s
    else
      var k := if n <= |u.pc.rest| then n else |u.pc.rest|;
      var rest := u.pc.rest[k..];
      Set(s, p, u.(pc := if rest == [] then Ready else Writing(rest), wrote := u.wrote + u.pc.rest[..k]))
        .(data := s.data[u.inode := s.data[u.inode] + u.pc.rest[..k]])
  }

  /** rename: whatever is at the final path is replaced. */
  function ApplyRename(s: Sys, p: Pid, allowed: bool): (t: Sys)
    requires p in s.uploads
    ensures OnlyUpload(s, t, p)
  {
    var u := s.uploads[p];
    if !u.pc.Renaming? then s
    else if !allowed || Pending(u.name) !in s.dir then Goto(s, p, RenameFailed)
    else
      var i := s.dir[Pending(u.name)];
      Goto(s, p, Ended)
        .(dir := (s.dir - {Pending(u.name)})[Final(u.name) := i],
          published := s.published[i := Publication(u.wrote, u.asked, u.lost)])
  }

  function ApplyUpload(s: Sys, p: Pid, e: Event): (t: Sys)
    ensures OnlyUpload(s, t, p)
  {
    if p !in s.uploads then s
    else
      var u := s.uploads[p];
      match e
      case OpenTemp(_, allowed) => ApplyOpenTemp(s, p, allowed)
      case StatFinal(_, allowed) => ApplyStatFinal(s, p, allowed)
      case UnlinkTemp(_, allowed) => ApplyUnlinkTemp(s, p, allowed)
      case Close(_) => ApplyClose(s, p)
      case BeginWrite(_, buf) => if u.pc.Ready? then Set(s, p, u.(pc := Writing(buf), asked := u.asked + buf)) else s
      case WriteSome(_, n) => ApplyWriteSome(s, p, n)
      case WriteFails(_) => if u.pc.Writing? then Set(s, p, u.(pc := Ready, lost := u.lost + |u.pc.rest|)) else s
      case BeginCommit(_) => if u.pc.Ready? then Goto(s, p, Committing) else s
      case BeginAbort(_) => if u.pc.Ready? then Goto(s, p, Aborting) else s
      case Rename(_, allowed) => ApplyRename(s, p, allowed)
      case _ => s
  }

  /** What a buffer holds before anything is read into it. */
  function Zeros(n: nat): (z: Bytes)
    ensures |z| == n
  {
    seq(n, _ => 0)
  }

  /** read: some of the bytes behind those read so far, and none exactly at the end. */
  function ReadStep(w: Download, file: Bytes, n: nat): Download
    requires w.noise <= |w.got|
  {
    var at := |w.got| - w.noise;
    if n == 0 || w.stale then w
    else if at >= |file| then w.(pc := AtEof)
    else w.(got := w.got + file[at..][..if n <= |file| - at then n else |file| - at])
  }

  /** A read that fails leaves its buffer behind, and the next call delivers it. */
  function StaleStep(w: Download, n: nat): Download {
    if w.stale then w.(got := w.got + Zeros(n), noise := w.noise + n, stale := false) else w
  }

  function ApplyDownload(s: Sys, d: Pid, e: Event): Sys {
    if d !in s.downloads then s
    else
      var w := s.downloads[d];
      match e
      case OpenFinal(_) =>
        if w.pc.Unopened? && Final(w.name) in s.dir
        then s.(downloads := s.downloads[d := Download(w.name, Reading, s.dir[Final(w.name)], [], 0, false)])
        else s
      case ReadSome(_, n) =>
        if !w.pc.Reading? || w.inode !in s.data || w.noise > |w.got| then s
        else s.(downloads := s.downloads[d := ReadStep(w, s.data[w.inode], n)])
      case ReadFails(_) =>
        if w.pc.Reading? then s.(downloads := s.downloads[d := w.(stale := true)]) else s
      case DeliverStale(_, n) =>
        if w.pc.Reading? then s.(downloads := s.downloads[d := StaleStep(w, n)]) else s
      case _ => s
  }

  function ApplyRemoval(s: Sys, r: Pid, e: Event): Sys {
    if r !in s.removals then s
    else
      var m := s.removals[r];
      match e
      case StatForRemoval(_) =>
        if m.step == Init && Final(m.name) in s.dir then s.(removals := s.removals[r := m.(step := Prepared)]) else s
      case UnlinkFinal(_, allowed) =>
        if m.step != Prepared then s
        else s.(removals := s.removals[r := m.(step := Done)], dir := if allowed then s.dir - {Final(m.name)} else s.dir)
      case GiveUpRemoval(_) =>
        if m.step == Prepared then s.(removals := s.removals[r := m.(step := Done)]) else s
      case _ => s
  }

  function Apply(s: Sys, e: Event): Sys {
    match e
    case OpenFinal(d) => ApplyDownload(s, d, e)
    case ReadSome(d, _) => ApplyDownload(s, d, e)
    case ReadFails(d) => ApplyDownload(s, d, e)
    case DeliverStale(d, _) => ApplyDownload(s, d, e)
    case StatForRemoval(r) => ApplyRemoval(s, r, e)
    case UnlinkFinal(r, _) => ApplyRemoval(s, r, e)
    case GiveUpRemoval(r) => ApplyRemoval(s, r, e)
    case _ => ApplyUpload(s, e.p, e)
  }

  function Run(s: Sys, events: seq<Event>): Sys {
    if events == [] then s else Apply(Run(s, events[..|events| - 1]), events[|events| - 1])
  }

  /** The files: links point to files, final links to published ones, pending links to
      unpublished ones of their own; and no published file has changed. */
  ghost predicate FilesSound(s: Sys) {
    && (forall x :: x in s.dir ==> s.dir[x] in s.data)
    && (forall i :: i in s.data ==> i < s.next)
    && (forall x :: x in s.dir ==> (x.Final? <==> s.dir[x] in s.published))
    && (forall x, y :: x in s.dir && y in s.dir && x.Pending? && y.Pending? && s.dir[x] == s.dir[y] ==> x == y)
    && (forall i :: i in s.published ==> i in s.data && s.data[i] == s.published[i].content)
  }

  /** What was published lacks exactly the bytes of the writes that failed. */
  ghost predicate PublicationsSound(s: Sys) {
    forall i :: i in s.published ==>
      var b := s.published[i];
      |b.asked| == |b.content| + b.lost && (b.lost == 0 ==> b.content == b.asked)
  }

  /** An upload that owns the temporary file finds its own bytes in it; once it has seen the
      final path free, the path stays free until it renames. */
  ghost predicate UploadSound(s: Sys, u: Upload) {
    && (u.Owns() ==> Pending(u.name) in s.dir && s.dir[Pending(u.name)] == u.inode
                     && u.inode in s.data && s.data[u.inode] == u.wrote)
    && (u.Owns() ==> |u.asked| == |u.wrote| + u.lost + |u.Rest()| && (u.lost == 0 ==> u.asked == u.wrote + u.Rest()))
    && (u.Cleared() ==> Final(u.name) !in s.dir)
  }

  ghost predicate OneOwner(s: Sys) {
    forall p, q :: (p in s.uploads && q in s.uploads && s.uploads[p].Owns() && s.uploads[q].Owns() &&
                    s.uploads[p].name == s.uploads[q].name) ==> p == q
  }

  /** A download reads a published file from its start, and at the end has all of it; what it has
      delivered is just that unless a read has failed. */
  ghost predicate DownloadSound(s: Sys, w: Download) {
    w.pc.Unopened? ||
    (&& w.inode in s.published
     && DeliverySound(w, s.published[w.inode].content))
  }

  ghost predicate DeliverySound(w: Download, file: Bytes) {
    && w.noise <= |w.got| <= |file| + w.noise
    && (w.noise == 0 ==> w.got <= file)
    && (w.pc.AtEof? ==> |w.got| == |file| + w.noise)
  }

  ghost predicate Invariant(s: Sys) {
    FilesSound(s) && PublicationsSound(s) && OneOwner(s) && UploadsSound(s) && DownloadsSound(s)
  }

  ghost predicate UploadsSound(s: Sys) {
    forall p :: p in s.uploads ==> UploadSound(s, s.uploads[p])
  }

  ghost predicate DownloadsSound(s: Sys) {
    forall d :: d in s.downloads ==> DownloadSound(s, s.downloads[d])
  }

  /** Owners of different names have different files. */
  lemma OwnersApart(s: Sys, p: Pid, q: Pid)
    requires Invariant(s) && p in s.uploads && q in s.uploads && p != q
    requires s.uploads[p].Owns() && s.uploads[q].Owns()
    ensures s.uploads[p].inode != s.uploads[q].inode && s.uploads[p].name != s.uploads[q].name
  {
    assert UploadSound(s, s.uploads[p]) && UploadSound(s, s.uploads[q]);
  }

  /** What a prepared upload can count on. */
  lemma PreparedIsSound(s: Sys, p: Pid)
    requires Invariant(s) && p in s.uploads && s.uploads[p].pc == Ready
    ensures var u := s.uploads[p];
            && Final(u.name) !in s.dir && Pending(u.name) in s.dir && s.dir[Pending(u.name)] == u.inode
            && u.inode in s.data && s.data[u.inode] == u.wrote && u.Accurate()
  {
    assert UploadSound(s, s.uploads[p]);
    assert s.uploads[p].wrote + [] == s.uploads[p].wrote;
  }

  lemma OpenTempFiles(s: Sys, p: Pid, t: Sys)
    requires FilesSound(s) && p in s.uploads && t == ApplyOpenTemp(s, p, true) && t != s
    ensures FilesSound(t)
  {
    assert s.next !in s.data && s.next !in s.published;
  }

  lemma OpenTempUploads(s: Sys, p: Pid, t: Sys)
    requires FilesSound(s) && UploadsSound(s) && OneOwner(s)
    requires p in s.uploads && t == ApplyOpenTemp(s, p, true) && t != s
    ensures UploadsSound(t) && OneOwner(t)
  {
    forall q | q in t.uploads ensures UploadSound(t, t.uploads[q]) {
      assert q != p ==> UploadSound(s, s.uploads[q]);
    }
  }

  lemma OpenTempKeeps(s: Sys, p: Pid, allowed: bool, t: Sys)
    requires Invariant(s) && p in s.uploads && t == ApplyOpenTemp(s, p, allowed)
    ensures Invariant(t)
  {
    if t != s {
      OpenTempFiles(s, p, t);
      OpenTempUploads(s, p, t);
    }
  }

  /** Moving an upload to another step keeps the invariant if the step promises no more. */
  lemma GotoKeeps(s: Sys, p: Pid, pc: UploadPc, t: Sys)
    requires Invariant(s) && p in s.uploads && t == Goto(s, p, pc)
    requires !pc.Writing? && !s.uploads[p].pc.Writing?
    requires t.uploads[p].Owns() ==> s.uploads[p].Owns()
    requires t.uploads[p].Cleared() ==> Final(s.uploads[p].name) !in s.dir
    ensures Invariant(t)
  {
    forall q | q in t.uploads ensures UploadSound(t, t.uploads[q]) {
      assert UploadSound(s, s.uploads[q]);
    }
  }

  lemma UnlinkTempUploads(s: Sys, p: Pid, allowed: bool, t: Sys)
    requires UploadsSound(s) && OneOwner(s) && p in s.uploads && t == ApplyUnlinkTemp(s, p, allowed)
    ensures UploadsSound(t) && OneOwner(t)
  {
    forall q | q in t.uploads && q != p ensures UploadSound(t, t.uploads[q]) {
      assert UploadSound(s, s.uploads[q]);
    }
    assert UploadSound(s, s.uploads[p]);
  }

  lemma UnlinkTempKeeps(s: Sys, p: Pid, allowed: bool, t: Sys)
    requires Invariant(s) && p in s.uploads && t == ApplyUnlinkTemp(s, p, allowed)
    ensures Invariant(t)
  {
    UnlinkTempUploads(s, p, allowed, t);
    assert t.published == s.published && t.data == s.data && t.next == s.next && t.downloads == s.downloads;
    FewerLinks(s, t);
  }

  /** Removing links keeps the files sound. */
  lemma FewerLinks(s: Sys, t: Sys)
    requires FilesSound(s) && PublicationsSound(s) && DownloadsSound(s)
    requires t.published == s.published && t.data == s.data && t.next == s.next && t.downloads == s.downloads
    requires forall x :: x in t.dir ==> x in s.dir && t.dir[x] == s.dir[x]
    ensures FilesSound(t) && PublicationsSound(t) && DownloadsSound(t)
  {
    forall d | d in t.downloads ensures DownloadSound(t, t.downloads[d]) {
      assert DownloadSound(s, s.downloads[d]);
    }
  }

  lemma CloseKeeps(s: Sys, p: Pid, t: Sys)
    requires Invariant(s) && p in s.uploads && t == ApplyClose(s, p)
    ensures Invariant(t)
  {
    assert UploadSound(s, s.uploads[p]);
    if t != s {
      GotoKeeps(s, p, t.uploads[p].pc, t);
    }
  }

  /** Changing only the accounts of one upload. */
  lemma AccountKeeps(s: Sys, p: Pid, u: Upload, t: Sys)
    requires Invariant(s) && p in s.uploads && t == Set(s, p, u)
    requires s.uploads[p].Owns() && s.uploads[p].name == u.name
    requires UploadSound(s, u)
    ensures Invariant(t)
  {
    forall q | q in t.uploads ensures UploadSound(t, t.uploads[q]) {
      assert q != p ==> UploadSound(s, s.uploads[q]);
    }
  }

  lemma BeginWriteKeeps(s: Sys, p: Pid, buf: Bytes, t: Sys)
    requires Invariant(s) && p in s.uploads
    requires t == if s.uploads[p].pc.Ready? then Set(s, p, s.uploads[p].(pc := Writing(buf), asked := s.uploads[p].asked + buf)) else s
    ensures Invariant(t)
  {
    var u := s.uploads[p];
    if u.pc.Ready? {
      assert UploadSound(s, u);
      AccountKeeps(s, p, u.(pc := Writing(buf), asked := u.asked + buf), t);
    }
  }

  lemma WriteFailsKeeps(s: Sys, p: Pid, t: Sys)
    requires Invariant(s) && p in s.uploads
    requires t == if s.uploads[p].pc.Writing? then Set(s, p, s.uploads[p].(pc := Ready, lost := s.uploads[p].lost + |s.uploads[p].pc.rest|)) else s
    ensures Invariant(t)
  {
    var u := s.uploads[p];
    if u.pc.Writing? {
      assert UploadSound(s, u);
      AccountKeeps(s, p, u.(pc := Ready, lost := u.lost + |u.pc.rest|), t);
    }
  }

  lemma WriteSomeOwn(s: Sys, p: Pid, n: nat, t: Sys)
    requires p in s.uploads && UploadSound(s, s.uploads[p]) && s.uploads[p].pc.Writing?
    requires t == ApplyWriteSome(s, p, n)
    ensures UploadSound(t, t.uploads[p])
  {
    var rest := s.uploads[p].pc.rest;
    var k := if n <= |rest| then n else |rest|;
    assert rest == rest[..k] + rest[k..];
  }

  lemma WriteSomeOthers(s: Sys, p: Pid, n: nat, t: Sys, q: Pid)
    requires Invariant(s) && p in s.uploads && s.uploads[p].pc.Writing?
    requires t == ApplyWriteSome(s, p, n) && q in s.uploads && q != p
    ensures UploadSound(t, t.uploads[q])
  {
    assert UploadSound(s, s.uploads[q]);
    if s.uploads[q].Owns() {
      OwnersApart(s, p, q);
    }
  }

  /** A write changes the bytes of one file. */
  lemma WriteSomeData(s: Sys, p: Pid, n: nat, t: Sys)
    requires p in s.uploads && t == ApplyWriteSome(s, p, n)
    ensures t.dir == s.dir && t.next == s.next && t.published == s.published && t.downloads == s.downloads
    ensures forall i :: i in t.data <==> i in s.data
    ensures forall i :: i in s.data && i != s.uploads[p].inode ==> t.data[i] == s.data[i]
  {
  }

  lemma FilesStaySound(s: Sys, t: Sys, inode: Inode)
    requires FilesSound(s) && inode !in s.published
    requires t.dir == s.dir && t.next == s.next && t.published == s.published
    requires forall i :: i in t.data <==> i in s.data
    requires forall i :: i in s.data && i != inode ==> t.data[i] == s.data[i]
    ensures FilesSound(t)
  {
  }

  lemma WriteSomeFiles(s: Sys, p: Pid, n: nat, t: Sys)
    requires FilesSound(s) && p in s.uploads && UploadSound(s, s.uploads[p]) && s.uploads[p].pc.Writing?
    requires t == ApplyWriteSome(s, p, n)
    ensures FilesSound(t)
  {
    assert Pending(s.uploads[p].name) in s.dir && s.uploads[p].inode !in s.published;
    WriteSomeData(s, p, n, t);
    FilesStaySound(s, t, s.uploads[p].inode);
  }

  lemma WriteSomeUploads(s: Sys, p: Pid, n: nat, t: Sys)
    requires Invariant(s) && p in s.uploads && s.uploads[p].pc.Writing?
    requires t == ApplyWriteSome(s, p, n)
    ensures UploadsSound(t)
  {
    assert UploadSound(s, s.uploads[p]);
    forall q | q in t.uploads ensures UploadSound(t, t.uploads[q]) {
      if q == p {
        WriteSomeOwn(s, p, n, t);
      } else {
        WriteSomeOthers(s, p, n, t, q);
      }
    }
  }

  lemma WriteSomeOneOwner(s: Sys, p: Pid, n: nat, t: Sys)
    requires OneOwner(s) && p in s.uploads && s.uploads[p].pc.Writing?
    requires t == ApplyWriteSome(s, p, n)
    ensures OneOwner(t)
  {
  }

  lemma WriteSomeKeeps(s: Sys, p: Pid, n: nat, t: Sys)
    requires Invariant(s) && p in s.uploads && t == ApplyWriteSome(s, p, n)
    ensures Invariant(t)
  {
    if s.uploads[p].pc.Writing? {
      assert UploadSound(s, s.uploads[p]);
      WriteSomeUploads(s, p, n, t);
      WriteSomeOneOwner(s, p, n, t);
      WriteSomeFiles(s, p, n, t);
      WriteSomeData(s, p, n, t);
    } else {
      assert t == s;
    }
  }

  lemma RenameFiles(s: Sys, p: Pid, t: Sys)
    requires FilesSound(s) && p in s.uploads && UploadSound(s, s.uploads[p]) && s.uploads[p].pc.Renaming?
    requires t == ApplyRename(s, p, true)
    ensures FilesSound(t) && s.uploads[p].inode !in s.published
    ensures t.published == s.published[s.uploads[p].inode := Publication(s.uploads[p].wrote, s.uploads[p].asked, s.uploads[p].lost)]
  {
  }

  lemma RenamePublications(s: Sys, t: Sys, i: Inode, b: Publication)
    requires PublicationsSound(s) && DownloadsSound(s) && i !in s.published
    requires t.published == s.published[i := b] && t.downloads == s.downloads
    requires |b.asked| == |b.content| + b.lost && (b.lost == 0 ==> b.content == b.asked)
    ensures PublicationsSound(t) && DownloadsSound(t)
  {
    forall d | d in t.downloads ensures DownloadSound(t, t.downloads[d]) {
      assert DownloadSound(s, s.downloads[d]);
    }
  }

  lemma RenameOthers(s: Sys, p: Pid, t: Sys, q: Pid)
    requires Invariant(s) && p in s.uploads && s.uploads[p].pc.Renaming?
    requires t == ApplyRename(s, p, true) && q in s.uploads && q != p
    ensures UploadSound(t, t.uploads[q])
  {
    assert UploadSound(s, s.uploads[q]) && UploadSound(s, s.uploads[p]);
    if s.uploads[q].Owns() {
      OwnersApart(s, p, q);
    }
  }

  lemma RenameKeeps(s: Sys, p: Pid, allowed: bool, t: Sys)
    requires Invariant(s) && p in s.uploads && t == ApplyRename(s, p, allowed)
    ensures Invariant(t)
  {
    if s.uploads[p].pc.Renaming? {
      assert UploadSound(s, s.uploads[p]);
      if !allowed {
        GotoKeeps(s, p, RenameFailed, t);
      } else {
        var u := s.uploads[p];
        RenameFiles(s, p, t);
        assert u.Rest() == [] && u.wrote + [] == u.wrote;
        RenamePublications(s, t, u.inode, Publication(u.wrote, u.asked, u.lost));
        forall q | q in t.uploads && q != p ensures UploadSound(t, t.uploads[q]) {
          RenameOthers(s, p, t, q);
        }
        assert UploadsSound(t);
        assert OneOwner(t);
      }
    }
  }

  lemma ReadKeeps(w: Download, file: Bytes, n: nat)
    requires DeliverySound(w, file)
    ensures DeliverySound(ReadStep(w, file, n), file)
  {
  }

  lemma DownloadChanges(s: Sys, d: Pid, e: Event, t: Sys)
    requires t == ApplyDownload(s, d, e)
    ensures t == s.(downloads := t.downloads) && t.downloads.Keys == s.downloads.Keys
    ensures forall x :: x in s.downloads && x != d ==> t.downloads[x] == s.downloads[x]
  {
  }

  lemma DownloadKeepsOwn(s: Sys, d: Pid, e: Event, t: Sys)
    requires FilesSound(s) && d in s.downloads && DownloadSound(s, s.downloads[d]) && t == ApplyDownload(s, d, e)
    ensures d in t.downloads && DownloadSound(s, t.downloads[d])
  {
    var w := s.downloads[d];
    if e.ReadSome? && w.pc.Reading? && w.inode in s.data {
      ReadKeeps(w, s.data[w.inode], e.n);
    }
  }

  lemma DownloadKeeps(s: Sys, d: Pid, e: Event, t: Sys)
    requires Invariant(s) && t == ApplyDownload(s, d, e)
    ensures Invariant(t)
  {
    DownloadChanges(s, d, e, t);
    forall q | q in t.uploads ensures UploadSound(t, t.uploads[q]) {
      assert UploadSound(s, s.uploads[q]);
    }
    forall x | x in t.downloads ensures DownloadSound(t, t.downloads[x]) {
      assert DownloadSound(s, s.downloads[x]);
      if x == d {
        DownloadKeepsOwn(s, d, e, t);
      }
    }
  }

  lemma RemovalUploads(s: Sys, r: Pid, e: Event, t: Sys)
    requires UploadsSound(s) && OneOwner(s) && t == ApplyRemoval(s, r, e)
    ensures UploadsSound(t) && OneOwner(t)
  {
    forall q | q in t.uploads ensures UploadSound(t, t.uploads[q]) {
      assert UploadSound(s, s.uploads[q]);
    }
  }

  lemma RemovalKeeps(s: Sys, r: Pid, e: Event, t: Sys)
    requires Invariant(s) && t == ApplyRemoval(s, r, e)
    ensures Invariant(t)
  {
    RemovalUploads(s, r, e, t);
    assert t.published == s.published && t.data == s.data && t.next == s.next && t.downloads == s.downloads;
    FewerLinks(s, t);
  }

  lemma StatFinalKeeps(s: Sys, p: Pid, allowed: bool, t: Sys)
    requires Invariant(s) && p in s.uploads && t == ApplyStatFinal(s, p, allowed)
    ensures Invariant(t)
  {
    if s.uploads[p].pc.Created? {
      GotoKeeps(s, p, t.uploads[p].pc, t);
    }
  }

  lemma BeginKeeps(s: Sys, p: Pid, pc: UploadPc, t: Sys)
    requires Invariant(s) && p in s.uploads && (pc == Committing || pc == Aborting)
    requires t == if s.uploads[p].pc.Ready? then Goto(s, p, pc) else s
    ensures Invariant(t)
  {
    if s.uploads[p].pc.Ready? {
      assert UploadSound(s, s.uploads[p]);
      GotoKeeps(s, p, pc, t);
    }
  }

  lemma WritingKeeps(s: Sys, p: Pid, e: Event, t: Sys)
    requires Invariant(s) && p in s.uploads && t == ApplyUpload(s, p, e)
    requires e.BeginWrite? || e.WriteSome? || e.WriteFails? || e.BeginCommit? || e.BeginAbort?
    ensures Invariant(t)
  {
    match e
    case BeginWrite(_, buf) => BeginWriteKeeps(s, p, buf, t);
    case WriteSome(_, n) => WriteSomeKeeps(s, p, n, t);
    case WriteFails(_) => WriteFailsKeeps(s, p, t);
    case BeginCommit(_) => BeginKeeps(s, p, Committing, t);
    case BeginAbort(_) => BeginKeeps(s, p, Aborting, t);
  }

  lemma UploadKeeps(s: Sys, p: Pid, e: Event, t: Sys)
    requires Invariant(s) && t == ApplyUpload(s, p, e)
    ensures Invariant(t)
  {
    if p in s.uploads {
      match e {
        case OpenTemp(_, allowed) => OpenTempKeeps(s, p, allowed, t);
        case StatFinal(_, allowed) => StatFinalKeeps(s, p, allowed, t);
        case UnlinkTemp(_, allowed) => UnlinkTempKeeps(s, p, allowed, t);
        case Close(_) => CloseKeeps(s, p, t);
        case Rename(_, allowed) => RenameKeeps(s, p, allowed, t);
        case OpenFinal(_) => assert t == s;
        case ReadSome(_, _) => assert t == s;
        case ReadFails(_) => assert t == s;
        case DeliverStale(_, _) => assert t == s;
        case StatForRemoval(_) => assert t == s;
        case UnlinkFinal(_, _) => assert t == s;
        case GiveUpRemoval(_) => assert t == s;
        case _ => WritingKeeps(s, p, e, t);
      }
    }
  }

  lemma StepKeeps(s: Sys, e: Event, t: Sys)
    requires Invariant(s) && t == Apply(s, e)
    ensures Invariant(t)
  {
    match e {
      case OpenFinal(d) => DownloadKeeps(s, d, e, t);
      case ReadSome(d, _) => DownloadKeeps(s, d, e, t);
      case ReadFails(d) => DownloadKeeps(s, d, e, t);
      case DeliverStale(d, _) => DownloadKeeps(s, d, e, t);
      case StatForRemoval(r) => RemovalKeeps(s, r, e, t);
      case UnlinkFinal(r, _) => RemovalKeeps(s, r, e, t);
      case GiveUpRemoval(r) => RemovalKeeps(s, r, e, t);
      case _ => UploadKeeps(s, e.p, e, t);
    }
  }

  /** Main result: the invariant holds after every interleaving of system calls. */
  lemma {:induction false} RunKeeps(s: Sys, events: seq<Event>)
    requires Invariant(s)
    ensures Invariant(Run(s, events))
  {
    if events != [] {
      RunKeeps(s, events[..|events| - 1]);
      StepKeeps(Run(s, events[..|events| - 1]), events[|events| - 1], Run(s, events));
    }
  }

  /** A directory of published files and leftover pending files, with nothing under way. */
  ghost predicate Initial(s: Sys) {
    && FilesSound(s) && PublicationsSound(s)
    && (forall p :: p in s.uploads ==> s.uploads[p].pc == Idle)
    && (forall d :: d in s.downloads ==> s.downloads[d].pc == Unopened)
  }

  /** Safety of every run: at most one upload owns a temporary file; a rename finds its own file
      there and nothing at the final path; and what a final path leads to is a published file,
      unchanged, that holds all its upload was given exactly when no write failed. */
  lemma PublishSafety(s0: Sys, events: seq<Event>)
    requires Initial(s0)
    ensures var s := Run(s0, events);
            && OneOwner(s)
            && (forall p :: p in s.uploads && s.uploads[p].pc == Renaming ==>
                  var u := s.uploads[p];
                  && Final(u.name) !in s.dir
                  && Pending(u.name) in s.dir && s.dir[Pending(u.name)] == u.inode
                  && u.inode in s.data && s.data[u.inode] == u.wrote)
            && (forall n :: Final(n) in s.dir ==>
                  var i := s.dir[Final(n)];
                  && i in s.published && i in s.data && s.data[i] == s.published[i].content
                  && (s.data[i] == s.published[i].asked <==> s.published[i].lost == 0))
  {
    RunKeeps(s0, events);
    var s := Run(s0, events);
    forall p | p in s.uploads && s.uploads[p].pc == Renaming ensures UploadSound(s, s.uploads[p]) {}
  }

  /** Once published, a file is never written again, renamed over or not, removed or not. */
  lemma {:induction false} PublishedForever(s: Sys, events: seq<Event>, i: Inode)
    requires Invariant(s) && i in s.published
    ensures StillPublished(s, Run(s, events), i)
  {
    if events != [] {
      var init, e := events[..|events| - 1], events[|events| - 1];
      PublishedForever(s, init, i);
      RunKeeps(s, init);
      PublishedStep(Run(s, init), e, Apply(Run(s, init), e), i);
    }
  }

  ghost predicate StillPublished(s: Sys, t: Sys, i: Inode) {
    && i in s.published && i in t.published && t.published[i] == s.published[i]
    && i in s.data && i in t.data && t.data[i] == s.data[i]
  }

  lemma PublishedOpen(s: Sys, p: Pid, allowed: bool, t: Sys, i: Inode)
    requires Invariant(s) && i in s.published && p in s.uploads && t == ApplyOpenTemp(s, p, allowed)
    ensures StillPublished(s, t, i)
  {
    assert i in s.data && i < s.next;
  }

  lemma PublishedWrite(s: Sys, p: Pid, n: nat, t: Sys, i: Inode)
    requires Invariant(s) && i in s.published && p in s.uploads && t == ApplyWriteSome(s, p, n)
    ensures StillPublished(s, t, i)
  {
    assert i in s.data;
    if s.uploads[p].pc.Writing? {
      assert UploadSound(s, s.uploads[p]);
      assert s.uploads[p].inode != i;
      WriteSomeData(s, p, n, t);
    } else {
      assert t == s;
    }
  }

  lemma PublishedRename(s: Sys, p: Pid, allowed: bool, t: Sys, i: Inode)
    requires Invariant(s) && i in s.published && p in s.uploads && t == ApplyRename(s, p, allowed)
    ensures StillPublished(s, t, i)
  {
    assert i in s.data && UploadSound(s, s.uploads[p]);
  }

  /** The other calls of an upload touch no bytes and publish nothing. */
  lemma QuietCalls(s: Sys, p: Pid, e: Event, t: Sys)
    requires t == ApplyUpload(s, p, e) && !e.OpenTemp? && !e.WriteSome? && !e.Rename?
    ensures t.data == s.data && t.published == s.published
  {
  }

  /** Nor do the calls of downloads and removals. */
  lemma QuietReaders(s: Sys, e: Event, t: Sys)
    requires t == Apply(s, e)
    requires !OfUpload(e)
    ensures t.data == s.data && t.published == s.published
  {
  }

  lemma PublishedUpload(s: Sys, p: Pid, e: Event, t: Sys, i: Inode)
    requires Invariant(s) && i in s.published && p in s.uploads && t == ApplyUpload(s, p, e)
    ensures StillPublished(s, t, i)
  {
    match e
    case OpenTemp(_, allowed) => PublishedOpen(s, p, allowed, t, i);
    case WriteSome(_, n) => PublishedWrite(s, p, n, t, i);
    case Rename(_, allowed) => PublishedRename(s, p, allowed, t, i);
    case _ =>
      QuietCalls(s, p, e, t);
      assert i in s.data;
  }

  lemma PublishedStep(s: Sys, e: Event, t: Sys, i: Inode)
    requires Invariant(s) && i in s.published && t == Apply(s, e)
    ensures StillPublished(s, t, i)
  {
    assert i in s.data;
    if !OfUpload(e) {
      QuietReaders(s, e, t);
    } else if e.p in s.uploads {
      PublishedUpload(s, e.p, e, t, i);
    }
  }

  /** A rename that the kernel allows links the very bytes the upload's writes got through. */
  lemma CommitPublishes(s: Sys, p: Pid)
    requires Invariant(s) && p in s.uploads && s.uploads[p].pc == Renaming
    ensures var (u, t) := (s.uploads[p], Apply(s, Rename(p, true)));
            && Final(u.name) in t.dir && t.dir[Final(u.name)] == u.inode && Pending(u.name) !in t.dir
            && t.data == s.data && t.data[u.inode] == u.wrote
            && t.published[u.inode] == Publication(u.wrote, u.asked, u.lost)
            && forall x :: x != Final(u.name) && x != Pending(u.name) ==>
                 (x in t.dir <==> x in s.dir) && (x in s.dir ==> t.dir[x] == s.dir[x])
  {
    assert UploadSound(s, s.uploads[p]);
  }

  /** The bytes of no file that one event has a download deliver, and those of a run. */
  function NoiseBy(s: Sys, e: Event, d: Pid): nat {
    if e.DeliverStale? && e.d == d && d in s.downloads && s.downloads[d].pc.Reading? && s.downloads[d].stale then e.n else 0
  }

  function Noise(s: Sys, events: seq<Event>, d: Pid): nat {
    if events == [] then 0
    else
      var init := events[..|events| - 1];
      Noise(s, init, d) + NoiseBy(Run(s, init), events[|events| - 1], d)
  }

  lemma UploadsLeaveDownloads(s: Sys, e: Event, t: Sys)
    requires t == Apply(s, e) && (OfUpload(e) || e.StatForRemoval? || e.UnlinkFinal? || e.GiveUpRemoval?)
    ensures t.downloads == s.downloads
  {
  }

  predicate NoiseIs(w: Download, noise: nat) { if w.pc.Unopened? then noise == 0 else w.noise == noise }

  lemma NoiseStep(s: Sys, e: Event, t: Sys, d: Pid, noise: nat)
    requires d in s.downloads && t == Apply(s, e) && NoiseIs(s.downloads[d], noise)
    ensures d in t.downloads && NoiseIs(t.downloads[d], noise + NoiseBy(s, e, d))
  {
    if OfUpload(e) || e.StatForRemoval? || e.UnlinkFinal? || e.GiveUpRemoval? {
      UploadsLeaveDownloads(s, e, t);
    } else if e.d == d {
      NoiseOwn(s, e, t, d, noise);
    } else {
      DownloadChanges(s, e.d, e, t);
    }
  }

  lemma NoiseOwn(s: Sys, e: Event, t: Sys, d: Pid, noise: nat)
    requires d in s.downloads && t == ApplyDownload(s, d, e) && NoiseIs(s.downloads[d], noise)
    requires e.DeliverStale? ==> e.d == d
    ensures d in t.downloads && NoiseIs(t.downloads[d], noise + NoiseBy(s, e, d))
  {
  }

  lemma {:induction false} NoiseAccounts(s: Sys, events: seq<Event>, d: Pid)
    requires d in s.downloads && s.downloads[d].pc.Unopened?
    ensures d in Run(s, events).downloads && NoiseIs(Run(s, events).downloads[d], Noise(s, events, d))
  {
    if events != [] {
      var init, e := events[..|events| - 1], events[|events| - 1];
      NoiseAccounts(s, init, d);
      NoiseStep(Run(s, init), e, Run(s, events), d, Noise(s, init, d));
    }
  }

  /** A download that reaches the end has read one published file entirely, even if the blob was
      removed or replaced meanwhile; it has delivered exactly that file if and only if no stale
      buffer was delivered with it. */
  lemma DownloadIsWhole(s0: Sys, events: seq<Event>, d: Pid, s: Sys)
    requires Initial(s0) && d in s0.downloads && s == Run(s0, events)
    requires d in s.downloads && s.downloads[d].pc == AtEof
    ensures var w := s.downloads[d];
            && w.inode in s.published
            && |w.got| == |s.published[w.inode].content| + Noise(s0, events, d)
            && (w.got == s.published[w.inode].content <==> Noise(s0, events, d) == 0)
            && (s.published[w.inode].content == s.published[w.inode].asked <==> s.published[w.inode].lost == 0)
  {
    RunKeeps(s0, events);
    NoiseAccounts(s0, events, d);
    assert DownloadSound(s, s.downloads[d]);
  }

  /** Every temporary file has its owner. */
  ghost predicate NoOrphan(s: Sys) {
    forall n :: Pending(n) in s.dir ==> Owned(s, n)
  }

  ghost predicate Owned(s: Sys, n: Bytes) {
    exists p :: p in s.uploads && s.uploads[p].Owns() && s.uploads[p].name == n
  }

  /** An upload only gives its file up by unlinking or renaming it. */
  lemma OwnershipEnds(s: Sys, p: Pid, e: Event, t: Sys)
    requires p in s.uploads && s.uploads[p].Owns() && t == ApplyUpload(s, p, e)
    requires !e.UnlinkTemp? && !e.Rename?
    ensures t.uploads[p].Owns()
  {
    if e.Close? {
      CloseKeepsOwner(s, p, t);
    } else if e.WriteSome? || e.StatFinal? || e.OpenTemp? {
      CallKeepsOwner(s, p, e, t);
    }
  }

  lemma CloseKeepsOwner(s: Sys, p: Pid, t: Sys)
    requires p in s.uploads && s.uploads[p].Owns() && t == ApplyClose(s, p)
    ensures p in t.uploads && t.uploads[p].Owns()
  {
  }

  lemma CallKeepsOwner(s: Sys, p: Pid, e: Event, t: Sys)
    requires p in s.uploads && s.uploads[p].Owns() && (e.WriteSome? || e.StatFinal? || e.OpenTemp?)
    requires e.WriteSome? ==> t == ApplyWriteSome(s, p, e.n)
    requires e.StatFinal? ==> t == ApplyStatFinal(s, p, e.allowed)
    requires e.OpenTemp? ==> t == ApplyOpenTemp(s, p, e.allowed)
    ensures p in t.uploads && t.uploads[p].Owns()
  {
  }

  lemma UnlinkOrRename(s: Sys, p: Pid, e: Event, t: Sys)
    requires p in s.uploads && s.uploads[p].Owns()
    requires (e.UnlinkTemp? && t == ApplyUnlinkTemp(s, p, true)) || (e.Rename? && t == ApplyRename(s, p, e.allowed))
    ensures p in t.uploads && t.uploads[p].name == s.uploads[p].name
    ensures t.uploads[p].Owns() || Pending(s.uploads[p].name) !in t.dir
  {
  }

  lemma OwnerStaysUpload(s: Sys, q: Pid, e: Event, t: Sys, p: Pid)
    requires t == ApplyUpload(s, q, e) && p in s.uploads && s.uploads[p].Owns()
    requires Pending(s.uploads[p].name) in t.dir && !(e.UnlinkTemp? && !e.allowed)
    ensures p in t.uploads && t.uploads[p].Owns() && t.uploads[p].name == s.uploads[p].name
  {
    if q != p {
      assert t.uploads[p] == s.uploads[p];
    } else if e.UnlinkTemp? || e.Rename? {
      UnlinkOrRename(s, p, e, t);
    } else {
      OwnershipEnds(s, p, e, t);
    }
  }

  /** An owner stays one as long as its file does. */
  lemma OwnerStays(s: Sys, e: Event, t: Sys, p: Pid)
    requires t == Apply(s, e) && p in s.uploads && s.uploads[p].Owns()
    requires Pending(s.uploads[p].name) in t.dir && !(e.UnlinkTemp? && !e.allowed)
    ensures p in t.uploads && t.uploads[p].Owns() && t.uploads[p].name == s.uploads[p].name
  {
    if !OfUpload(e) {
      assert t.uploads == s.uploads;
    } else {
      OwnerStaysUpload(s, e.p, e, t, p);
    }
  }

  /** Four calls touch the directory; the others do not. */
  lemma QuietDir(s: Sys, e: Event, t: Sys)
    requires t == Apply(s, e)
    requires !e.OpenTemp? && !e.UnlinkTemp? && !e.Rename? && !e.UnlinkFinal?
    ensures t.dir == s.dir
  {
  }

  /** Three of them create no temporary file. */
  lemma NoNewTemp(s: Sys, e: Event, t: Sys, n: Bytes)
    requires t == Apply(s, e) && (e.UnlinkTemp? || e.Rename? || e.UnlinkFinal?) && Pending(n) !in s.dir
    ensures Pending(n) !in t.dir
  {
  }

  /** A file that appears has been created by its owner. */
  lemma NewOwner(s: Sys, e: Event, t: Sys, n: Bytes)
    requires t == Apply(s, e) && Pending(n) in t.dir && Pending(n) !in s.dir
    ensures Owned(t, n)
  {
    if e.OpenTemp? {
      assert e.p in t.uploads && t.uploads[e.p].Owns() && t.uploads[e.p].name == n;
    } else if e.UnlinkTemp? || e.Rename? || e.UnlinkFinal? {
      NoNewTemp(s, e, t, n);
      assert false;
    } else {
      QuietDir(s, e, t);
      assert false;
    }
  }

  lemma StillOwned(s: Sys, e: Event, t: Sys, n: Bytes)
    requires t == Apply(s, e) && Pending(n) in t.dir
    requires Pending(n) in s.dir ==> Owned(s, n)
    requires !(e.UnlinkTemp? && !e.allowed)
    ensures Owned(t, n)
  {
    if Pending(n) in s.dir {
      var p :| p in s.uploads && s.uploads[p].Owns() && s.uploads[p].name == n;
      OwnerStays(s, e, t, p);
    } else {
      NewOwner(s, e, t, n);
    }
  }

  /** Unless an unlink fails, no run leaves a temporary file behind: a name is pending if and only
      if an upload owns it, and then exactly one does. */
  lemma {:induction false} PendingIffOwned(s0: Sys, events: seq<Event>)
    requires Invariant(s0) && NoOrphan(s0)
    requires forall e :: e in events ==> !(e.UnlinkTemp? && !e.allowed)
    ensures var s := Run(s0, events);
            NoOrphan(s) && OneOwner(s) && forall n :: Pending(n) in s.dir <==> Owned(s, n)
  {
    RunKeeps(s0, events);
    if events != [] {
      var init, e := events[..|events| - 1], events[|events| - 1];
      PendingIffOwned(s0, init);
      RunKeeps(s0, init);
      forall n | Pending(n) in Run(s0, events).dir ensures Owned(Run(s0, events), n) {
        assert e in events;
        StillOwned(Run(s0, init), e, Run(s0, events), n);
      }
    }
    OwnersPending(Run(s0, events));
  }

  lemma OwnersPending(s: Sys)
    requires Invariant(s)
    ensures forall n :: Owned(s, n) ==> Pending(n) in s.dir
  {
    forall p | p in s.uploads && s.uploads[p].Owns() ensures Pending(s.uploads[p].name) in s.dir {
      assert UploadSound(s, s.uploads[p]);
    }
  }

  /** A final path changes in two ways only: a rename fills it when it is free, and the unlink of
      a removal of that name, which had seen it there, frees it. */
  lemma FinalChangesOnlyBy(s: Sys, e: Event, n: Bytes)
    requires Invariant(s)
    ensures var t := Apply(s, e);
            || ((Final(n) in s.dir <==> Final(n) in t.dir) && (Final(n) in s.dir ==> t.dir[Final(n)] == s.dir[Final(n)]))
            || (e.Rename? && Final(n) !in s.dir && e.p in s.uploads && s.uploads[e.p].name == n && s.uploads[e.p].pc == Renaming)
            || (e.UnlinkFinal? && Final(n) !in t.dir && e.r in s.removals && s.removals[e.r] == Removal(n, Prepared))
  {
    var t := Apply(s, e);
    if e.Rename? {
      if e.p in s.uploads {
        assert UploadSound(s, s.uploads[e.p]) && t == ApplyRename(s, e.p, e.allowed);
      }
    } else if e.OpenTemp? || e.UnlinkTemp? {
      TempCallsKeepFinals(s, e, t, n);
    } else if !e.UnlinkFinal? {
      QuietDir(s, e, t);
    }
  }

  lemma TempCallsKeepFinals(s: Sys, e: Event, t: Sys, n: Bytes)
    requires t == Apply(s, e) && (e.OpenTemp? || e.UnlinkTemp?)
    ensures (Final(n) in s.dir <==> Final(n) in t.dir) && (Final(n) in s.dir ==> t.dir[Final(n)] == s.dir[Final(n)])
  {
  }

  /** The event unlinks the final path of the name. */
  predicate Unlinks(s: Sys, e: Event, n: Bytes) {
    e.UnlinkFinal? && e.allowed && e.r in s.removals && s.removals[e.r] == Removal(n, Prepared)
  }

  ghost predicate UnlinksAt(s: Sys, events: seq<Event>, n: Bytes, k: nat)
    requires k < |events|
  {
    Unlinks(Run(s, events[..k]), events[k], n)
  }

  predicate LeadsTo(s: Sys, n: Bytes, i: Inode) { Final(n) in s.dir && s.dir[Final(n)] == i }

  /** A final path leads to a published file until it is unlinked, and never again after that. */
  lemma LeadsStep(s: Sys, e: Event, t: Sys, n: Bytes, i: Inode)
    requires Invariant(s) && i in s.published && t == Apply(s, e)
    ensures LeadsTo(t, n, i) <==> LeadsTo(s, n, i) && !Unlinks(s, e, n)
  {
    FinalChangesOnlyBy(s, e, n);
    if e.Rename? && e.p in s.uploads {
      assert UploadSound(s, s.uploads[e.p]) && t == ApplyRename(s, e.p, e.allowed);
    } else if e.UnlinkFinal? {
      assert t == ApplyRemoval(s, e.r, e);
    }
  }

  /** When a removal unlinks, the file it unlinks is the one its stat had found if and only if no
      removal of the same name has unlinked since: publications cannot replace it. */
  lemma {:induction false} UnlinksWhatItSaw(s: Sys, events: seq<Event>, n: Bytes, i: Inode)
    requires Invariant(s) && LeadsTo(s, n, i)
    ensures LeadsTo(Run(s, events), n, i) <==> forall k :: 0 <= k < |events| ==> !UnlinksAt(s, events, n, k)
  {
    if events != [] {
      var last := |events| - 1;
      UnlinksWhatItSaw(s, events[..last], n, i);
      RunKeeps(s, events[..last]);
      PublishedForever(s, events[..last], i);
      LeadsStep(Run(s, events[..last]), events[last], Run(s, events), n, i);
      forall k | 0 <= k < last ensures UnlinksAt(s, events[..last], n, k) <==> UnlinksAt(s, events, n, k) {
        assert events[..last][..k] == events[..k];
      }
      assert UnlinksAt(s, events, n, last) <==> Unlinks(Run(s, events[..last]), events[last], n);
    }
  }

  /** A temporary file that no upload owns. */
  ghost predicate Orphan(s: Sys, n: Bytes, i: Inode) {
    Pending(n) in s.dir && s.dir[Pending(n)] == i && !Owned(s, n)
  }

  /** That is what an unlink leaves behind exactly when it fails. */
  lemma OrphanIff(s: Sys, p: Pid, allowed: bool, t: Sys)
    requires Invariant(s) && p in s.uploads && t == Apply(s, UnlinkTemp(p, allowed))
    requires s.uploads[p].pc.Refusing? || s.uploads[p].pc.RenameFailed? || s.uploads[p].pc.Unlinking?
    ensures Orphan(t, s.uploads[p].name, s.uploads[p].inode) <==> !allowed
  {
    assert t == ApplyUnlinkTemp(s, p, allowed) && UploadSound(s, s.uploads[p]);
    forall q | q in t.uploads && t.uploads[q].Owns() ensures t.uploads[q].name != s.uploads[p].name {
      if q != p && t.uploads[q].name == s.uploads[p].name {
        OwnersApart(s, p, q);
        assert false;
      }
    }
  }

  lemma OrphanKept(s: Sys, e: Event, t: Sys, n: Bytes, i: Inode)
    requires Orphan(s, n, i) && t == Apply(s, e)
    ensures Pending(n) in t.dir && t.dir[Pending(n)] == i
  {
    if !e.UnlinkTemp? && !e.Rename? && !e.OpenTemp? && !e.UnlinkFinal? {
      QuietDir(s, e, t);
    } else if !e.UnlinkFinal? && e.p in s.uploads {
      assert s.uploads[e.p].name == n ==> !s.uploads[e.p].Owns();
    }
  }

  lemma OrphanUnowned(s: Sys, e: Event, t: Sys, n: Bytes, i: Inode)
    requires Orphan(s, n, i) && t == Apply(s, e) && OfUpload(e) && e.p in s.uploads
    ensures !Owned(t, n)
  {
    if s.uploads[e.p].name == n {
      assert !s.uploads[e.p].Owns();
      NotOwning(s, e, t);
    }
    forall q | q in t.uploads && t.uploads[q].Owns() ensures t.uploads[q].name != n {
      if q != e.p {
        assert t.uploads[q] == s.uploads[q];
      }
    }
  }

  /** Only creating the temporary file makes an owner. */
  lemma NotOwning(s: Sys, e: Event, t: Sys)
    requires OfUpload(e) && e.p in s.uploads && !s.uploads[e.p].Owns() && t == ApplyUpload(s, e.p, e)
    requires Pending(s.uploads[e.p].name) in s.dir
    ensures e.p in t.uploads && !t.uploads[e.p].Owns()
  {
  }

  /** An orphan blocks its name for ever: whatever the others do, it stays, no upload of that name
      is ever prepared again, and nothing more is published under it. */
  lemma {:induction false} OrphanBlocks(s: Sys, events: seq<Event>, n: Bytes, i: Inode)
    requires Invariant(s) && Orphan(s, n, i)
    ensures var t := Run(s, events);
            && Orphan(t, n, i)
            && (forall p :: p in t.uploads && t.uploads[p].name == n ==> !t.uploads[p].Owns() && t.uploads[p].pc != Ready)
            && (Final(n) in t.dir ==> Final(n) in s.dir && t.dir[Final(n)] == s.dir[Final(n)])
  {
    if events != [] {
      var init, e := events[..|events| - 1], events[|events| - 1];
      OrphanBlocks(s, init, n, i);
      RunKeeps(s, init);
      OrphanStep(Run(s, init), e, Run(s, events), n, i);
    }
  }

  lemma OrphanStep(s: Sys, e: Event, t: Sys, n: Bytes, i: Inode)
    requires Invariant(s) && Orphan(s, n, i) && t == Apply(s, e)
    ensures Orphan(t, n, i)
    ensures Final(n) in t.dir ==> LeadsTo(s, n, t.dir[Final(n)])
  {
    OrphanKept(s, e, t, n, i);
    if OfUpload(e) && e.p in s.uploads {
      OrphanUnowned(s, e, t, n, i);
    } else {
      OthersLeaveUploads(s, e, t);
    }
    OrphanUnpublished(s, e, t, n, i);
  }

  lemma OthersLeaveUploads(s: Sys, e: Event, t: Sys)
    requires t == Apply(s, e) && !(OfUpload(e) && e.p in s.uploads)
    ensures t.uploads == s.uploads
  {
  }

  lemma OrphanUnpublished(s: Sys, e: Event, t: Sys, n: Bytes, i: Inode)
    requires Invariant(s) && Orphan(s, n, i) && t == Apply(s, e)
    ensures Final(n) in t.dir ==> LeadsTo(s, n, t.dir[Final(n)])
  {
    FinalChangesOnlyBy(s, e, n);
    if e.Rename? && e.p in s.uploads && s.uploads[e.p].name == n {
      assert !s.uploads[e.p].Owns();
    }
  }

  /** An upload of nothing, from its creation to its rename. */
  function Publishing(p: Pid): seq<Event> {
    [] + [OpenTemp(p, true)] + [StatFinal(p, true)] + [BeginCommit(p)] + [Close(p)] + [Rename(p, true)]
  }

  lemma PublishingRun(s: Sys, p: Pid)
    requires p in s.uploads && s.uploads[p].pc == Idle
    requires Pending(s.uploads[p].name) !in s.dir && Final(s.uploads[p].name) !in s.dir
    ensures var t := Run(s, Publishing(p));
            LeadsTo(t, s.uploads[p].name, s.next) && s.next in t.published && t.removals == s.removals
  {
    var s1 := Apply(s, OpenTemp(p, true));
    var s2 := Apply(s1, StatFinal(p, true));
    var s3 := Apply(s2, BeginCommit(p));
    var s4 := Apply(s3, Close(p));
    PrepareFreeName(s, p, s1, s2);
    OthersKeepRemovals(s, OpenTemp(p, true), s1);
    OthersKeepRemovals(s1, StatFinal(p, true), s2);
    EmptyCommit(s2, p, s3, s4, Apply(s4, Rename(p, true)));
    var run := [] + [OpenTemp(p, true)];
    RunOne(s, [], OpenTemp(p, true));
    RunOne(s, run, StatFinal(p, true));
    RunOne(s, run + [StatFinal(p, true)], BeginCommit(p));
    RunOne(s, run + [StatFinal(p, true)] + [BeginCommit(p)], Close(p));
    RunOne(s, run + [StatFinal(p, true)] + [BeginCommit(p)] + [Close(p)], Rename(p, true));
  }

  lemma UnlinkFrees(s: Sys, r: Pid, n: Bytes, t: Sys)
    requires r in s.removals && s.removals[r] == Removal(n, Prepared) && t == Apply(s, UnlinkFinal(r, true))
    ensures t.dir == s.dir - {Final(n)} && t.uploads == s.uploads && t.next == s.next
    ensures t.removals == s.removals[r := Removal(n, Done)]
  {
  }

  /** And it may be another: of two removals that saw the same file, the second unlinks whatever
      was published under the name after the first had unlinked it. */
  lemma RemovalTakesAnother(s: Sys, n: Bytes, i: Inode, r: Pid, r': Pid, p: Pid, s1: Sys, t: Sys, u: Sys)
    requires Invariant(s) && LeadsTo(s, n, i) && r != r'
    requires r in s.removals && s.removals[r] == Removal(n, Prepared) && r' in s.removals && s.removals[r'] == Removal(n, Prepared)
    requires p in s.uploads && s.uploads[p].name == n && s.uploads[p].pc == Idle && Pending(n) !in s.dir
    requires s1 == Apply(s, UnlinkFinal(r', true)) && t == Run(s1, Publishing(p)) && u == Apply(t, UnlinkFinal(r, true))
    ensures LeadsTo(t, n, s.next) && s.next != i && s.next in t.published && Final(n) !in u.dir
  {
    UnlinkFrees(s, r', n, s1);
    PublishingRun(s1, p);
    UnlinkFrees(t, r, n, u);
  }

  lemma OthersKeepRemovals(s: Sys, e: Event, t: Sys)
    requires OfUpload(e) && t == Apply(s, e)
    ensures t.removals == s.removals
  {
  }

  lemma EmptyCommit(s: Sys, p: Pid, s1: Sys, s2: Sys, t: Sys)
    requires p in s.uploads && s.uploads[p].pc == Ready && Pending(s.uploads[p].name) in s.dir
    requires s1 == Apply(s, BeginCommit(p)) && s2 == Apply(s1, Close(p)) && t == Apply(s2, Rename(p, true))
    ensures var (n, i) := (s.uploads[p].name, s.dir[Pending(s.uploads[p].name)]);
            LeadsTo(t, n, i) && i in t.published && t.removals == s.removals
  {
    assert s1 == Goto(s, p, Committing);
    assert s2 == Goto(s1, p, Renaming);
    assert t == ApplyRename(s2, p, true);
  }

  lemma RunOne(s: Sys, events: seq<Event>, e: Event)
    ensures Run(s, events + [e]) == Apply(Run(s, events), e)
  {
    assert (events + [e])[..|events|] == events;
  }

  /** Giving up a write, then committing up to the rename. */
  lemma FailThenCommit(s: Sys, p: Pid, s1: Sys, s2: Sys, s3: Sys)
    requires p in s.uploads && s.uploads[p].pc.Writing?
    requires s1 == Apply(s, WriteFails(p)) && s2 == Apply(s1, BeginCommit(p)) && s3 == Apply(s2, Close(p))
    ensures s3.dir == s.dir && s3.data == s.data && s3.published == s.published && p in s3.uploads
    ensures s3.uploads[p] == s.uploads[p].(pc := Renaming, lost := s.uploads[p].lost + |s.uploads[p].pc.rest|)
  {
    assert s1 == Set(s, p, s.uploads[p].(pc := Ready, lost := s.uploads[p].lost + |s.uploads[p].pc.rest|));
    assert s2 == Set(s1, p, s1.uploads[p].(pc := Committing));
  }

  /** What one event gives an upload to write, and what it makes it lose: a failing write drops
      whatever the kernel has not taken yet. */
  function GivenBy(s: Sys, e: Event, p: Pid): Bytes {
    if e.BeginWrite? && e.p == p && p in s.uploads && s.uploads[p].pc.Ready? then e.buf else []
  }

  function LostBy(s: Sys, e: Event, p: Pid): nat {
    if e == WriteFails(p) && p in s.uploads && s.uploads[p].pc.Writing? then |s.uploads[p].pc.rest| else 0
  }

  /** The same over a run. */
  function Given(s: Sys, events: seq<Event>, p: Pid): Bytes {
    if events == [] then []
    else
      var init := events[..|events| - 1];
      Given(s, init, p) + GivenBy(Run(s, init), events[|events| - 1], p)
  }

  function LostBytes(s: Sys, events: seq<Event>, p: Pid): nat {
    if events == [] then 0
    else
      var init := events[..|events| - 1];
      LostBytes(s, init, p) + LostBy(Run(s, init), events[|events| - 1], p)
  }

  /** The i-th event is a write that fails with bytes left to write. */
  ghost predicate LosesAt(s: Sys, events: seq<Event>, p: Pid, i: nat)
    requires i < |events|
  {
    LostBy(Run(s, events[..i]), events[i], p) > 0
  }

  lemma LosesBefore(s: Sys, events: seq<Event>, p: Pid, n: nat, i: nat)
    requires i < n <= |events|
    ensures LosesAt(s, events[..n], p, i) <==> LosesAt(s, events, p, i)
  {
    assert events[..n][..i] == events[..i];
  }

  /** Nothing is lost exactly when no write fails with bytes left to write. */
  lemma {:induction false} LostNothing(s: Sys, events: seq<Event>, p: Pid)
    ensures LostBytes(s, events, p) == 0 <==> forall i :: 0 <= i < |events| ==> !LosesAt(s, events, p, i)
  {
    if events != [] {
      var n := |events| - 1;
      LostNothing(s, events[..n], p);
      forall i | 0 <= i < n ensures LosesAt(s, events[..n], p, i) <==> LosesAt(s, events, p, i) {
        LosesBefore(s, events, p, n, i);
      }
      assert LosesAt(s, events, p, n) <==> LostBy(Run(s, events[..n]), events[n], p) > 0;
    }
  }

  /** Not prepared yet. */
  predicate Early(u: Upload) { u.pc.Idle? || u.pc.Created? || u.pc.Refusing? || u.pc.RefusedClosing? }

  /** The accounts of an upload are right; before it is prepared there is nothing in them. */
  predicate Accounted(u: Upload, given: Bytes, lost: nat) {
    (u.pc.Idle? || (u.asked == given && u.lost == lost)) && (Early(u) ==> given == [] && lost == 0)
  }

  predicate SameAccount(u: Upload, v: Upload) {
    v.asked == u.asked && v.lost == u.lost && (u.pc.Idle? ==> v.pc.Idle?) && (Early(v) ==> Early(u))
  }

  // The calls that leave the accounts alone.

  lemma StatFinalAccount(s: Sys, p: Pid, allowed: bool, t: Sys)
    requires p in s.uploads && t == ApplyStatFinal(s, p, allowed)
    ensures p in t.uploads && SameAccount(s.uploads[p], t.uploads[p])
  {
  }

  lemma UnlinkTempAccount(s: Sys, p: Pid, allowed: bool, t: Sys)
    requires p in s.uploads && t == ApplyUnlinkTemp(s, p, allowed)
    ensures p in t.uploads && SameAccount(s.uploads[p], t.uploads[p])
  {
  }

  lemma CloseAccount(s: Sys, p: Pid, t: Sys)
    requires p in s.uploads && t == ApplyClose(s, p)
    ensures p in t.uploads && SameAccount(s.uploads[p], t.uploads[p])
  {
  }

  lemma RenameAccount(s: Sys, p: Pid, allowed: bool, t: Sys)
    requires p in s.uploads && t == ApplyRename(s, p, allowed)
    ensures p in t.uploads && SameAccount(s.uploads[p], t.uploads[p])
  {
  }

  lemma WriteSomeAccount(s: Sys, p: Pid, n: nat, t: Sys)
    requires p in s.uploads && t == ApplyWriteSome(s, p, n)
    ensures p in t.uploads && SameAccount(s.uploads[p], t.uploads[p])
  {
  }

  lemma QuietAccount(s: Sys, e: Event, t: Sys, p: Pid)
    requires p in s.uploads && t == ApplyUpload(s, p, e)
    requires !e.OpenTemp? && !e.BeginWrite? && !e.WriteFails?
    ensures p in t.uploads && SameAccount(s.uploads[p], t.uploads[p])
  {
    match e
    case StatFinal(_, allowed) => StatFinalAccount(s, p, allowed, t);
    case UnlinkTemp(_, allowed) => UnlinkTempAccount(s, p, allowed, t);
    case Close(_) => CloseAccount(s, p, t);
    case Rename(_, allowed) => RenameAccount(s, p, allowed, t);
    case WriteSome(_, n) => WriteSomeAccount(s, p, n, t);
    case BeginCommit(_) => assert t == if s.uploads[p].pc.Ready? then Goto(s, p, Committing) else s;
    case BeginAbort(_) => assert t == if s.uploads[p].pc.Ready? then Goto(s, p, Aborting) else s;
    case _ =>
  }

  // The calls that change them.

  lemma OpenTempAccount(s: Sys, p: Pid, allowed: bool, t: Sys, given: Bytes, lost: nat)
    requires p in s.uploads && t == ApplyOpenTemp(s, p, allowed) && Accounted(s.uploads[p], given, lost)
    ensures p in t.uploads && Accounted(t.uploads[p], given, lost)
  {
  }

  lemma BeginWriteAccount(s: Sys, p: Pid, buf: Bytes, t: Sys, given: Bytes, lost: nat)
    requires p in s.uploads && t == ApplyUpload(s, p, BeginWrite(p, buf)) && Accounted(s.uploads[p], given, lost)
    ensures p in t.uploads && Accounted(t.uploads[p], given + GivenBy(s, BeginWrite(p, buf), p), lost)
  {
    assert given + [] == given;
  }

  lemma WriteFailsAccount(s: Sys, p: Pid, t: Sys, given: Bytes, lost: nat)
    requires p in s.uploads && t == ApplyUpload(s, p, WriteFails(p)) && Accounted(s.uploads[p], given, lost)
    ensures p in t.uploads && Accounted(t.uploads[p], given, lost + LostBy(s, WriteFails(p), p))
  {
  }

  lemma AccountUpload(s: Sys, e: Event, t: Sys, p: Pid, given: Bytes, lost: nat)
    requires p in s.uploads && t == ApplyUpload(s, p, e) && Accounted(s.uploads[p], given, lost)
    requires (e.BeginWrite? || e.WriteFails?) ==> e.p == p
    ensures p in t.uploads && Accounted(t.uploads[p], given + GivenBy(s, e, p), lost + LostBy(s, e, p))
  {
    assert given + [] == given;
    if e.OpenTemp? {
      OpenTempAccount(s, p, e.allowed, t, given, lost);
    } else if e.BeginWrite? {
      BeginWriteAccount(s, p, e.buf, t, given, lost);
    } else if e.WriteFails? {
      WriteFailsAccount(s, p, t, given, lost);
    } else {
      QuietAccount(s, e, t, p);
    }
  }

  lemma OtherUpload(s: Sys, e: Event, t: Sys, p: Pid)
    requires t == Apply(s, e) && OfUpload(e) && e.p != p && p in s.uploads
    ensures p in t.uploads && t.uploads[p] == s.uploads[p]
  {
    assert t == ApplyUpload(s, e.p, e);
  }

  lemma AccountStep(s: Sys, e: Event, t: Sys, p: Pid, given: Bytes, lost: nat)
    requires p in s.uploads && t == Apply(s, e) && Accounted(s.uploads[p], given, lost)
    ensures p in t.uploads && Accounted(t.uploads[p], given + GivenBy(s, e, p), lost + LostBy(s, e, p))
  {
    if !OfUpload(e) {
      OthersLeaveUploads(s, e, t);
    } else if e.p == p {
      AccountUpload(s, e, t, p, given, lost);
    } else {
      OtherUpload(s, e, t, p);
    }
    assert given + [] == given;
  }

  /** An upload that starts idle has been given what the writes of the run give it, and has lost
      what the failing ones drop, whatever the others do. */
  lemma {:induction false} Accounts(s: Sys, events: seq<Event>, p: Pid)
    requires p in s.uploads && s.uploads[p].pc.Idle?
    ensures p in Run(s, events).uploads
    ensures Accounted(Run(s, events).uploads[p], Given(s, events, p), LostBytes(s, events, p))
  {
    if events != [] {
      var init, e := events[..|events| - 1], events[|events| - 1];
      Accounts(s, init, p);
      AccountStep(Run(s, init), e, Run(s, events), p, Given(s, init, p), LostBytes(s, init, p));
    }
  }

  /** What is published, over a whole life: whatever run led to the rename and whatever run follows
      it, the file linked at the final path holds for ever exactly what the upload was given to
      write, if and only if no write failed with bytes left to write. */
  lemma PublishedIsGiven(s0: Sys, before: seq<Event>, p: Pid, after: seq<Event>, s: Sys, t: Sys, z: Sys)
    requires Initial(s0) && p in s0.uploads && s == Run(s0, before)
    requires p in s.uploads && s.uploads[p].pc == Renaming
    requires t == Apply(s, Rename(p, true)) && z == Run(t, after)
    ensures var n := s.uploads[p].name;
            && Final(n) !in s.dir && Final(n) in t.dir && t.dir[Final(n)] in z.data
            && (z.data[t.dir[Final(n)]] == Given(s0, before, p) <==> LostBytes(s0, before, p) == 0)
  {
    RunKeeps(s0, before);
    Accounts(s0, before, p);
    assert UploadSound(s, s.uploads[p]);
    CommitPublishes(s, p);
    StepKeeps(s, Rename(p, true), t);
    PublishedForever(t, after, s.uploads[p].inode);
  }

  /** An upload that prepares, is given its bytes, fails to write any, and commits up to the
      rename. */
  function FailingUpload(p: Pid, buf: Bytes): seq<Event> {
    [] + [OpenTemp(p, true)] + [StatFinal(p, true)] + [BeginWrite(p, buf)] + [WriteFails(p)] + [BeginCommit(p)] + [Close(p)]
  }

  lemma PrepareFreeName(s: Sys, p: Pid, s1: Sys, s2: Sys)
    requires p in s.uploads && s.uploads[p].pc == Idle
    requires Pending(s.uploads[p].name) !in s.dir && Final(s.uploads[p].name) !in s.dir
    requires s1 == Apply(s, OpenTemp(p, true)) && s2 == Apply(s1, StatFinal(p, true))
    ensures var n := s.uploads[p].name;
            && s2.uploads == s.uploads[p := Upload(n, Ready, s.next, [], [], 0)]
            && s2.dir == s.dir[Pending(n) := s.next] && s2.data == s.data[s.next := []]
  {
    var n := s.uploads[p].name;
    assert s1.uploads == s.uploads[p := Upload(n, Created, s.next, [], [], 0)];
    assert Final(n) !in s1.dir;
  }

  lemma FailingRun(s: Sys, p: Pid, buf: Bytes)
    requires p in s.uploads && s.uploads[p].pc == Idle
    requires Pending(s.uploads[p].name) !in s.dir && Final(s.uploads[p].name) !in s.dir
    ensures var (n, t) := (s.uploads[p].name, Run(s, FailingUpload(p, buf)));
            && p in t.uploads && t.uploads[p] == Upload(n, Renaming, s.next, buf, [], |buf|)
            && t.dir == s.dir[Pending(n) := s.next] && t.data == s.data[s.next := []]
  {
    var s1 := Apply(s, OpenTemp(p, true));
    var s2 := Apply(s1, StatFinal(p, true));
    var s3 := Apply(s2, BeginWrite(p, buf));
    var s4 := Apply(s3, WriteFails(p));
    var s5 := Apply(s4, BeginCommit(p));
    PrepareFreeName(s, p, s1, s2);
    assert s3 == Set(s2, p, s2.uploads[p].(pc := Writing(buf), asked := [] + buf));
    assert [] + buf == buf;
    FailThenCommit(s3, p, s4, s5, Apply(s5, Close(p)));
    var run := [] + [OpenTemp(p, true)];
    RunOne(s, [], OpenTemp(p, true));
    RunOne(s, run, StatFinal(p, true));
    RunOne(s, run + [StatFinal(p, true)], BeginWrite(p, buf));
    RunOne(s, run + [StatFinal(p, true)] + [BeginWrite(p, buf)], WriteFails(p));
    RunOne(s, run + [StatFinal(p, true)] + [BeginWrite(p, buf)] + [WriteFails(p)], BeginCommit(p));
    RunOne(s, run + [StatFinal(p, true)] + [BeginWrite(p, buf)] + [WriteFails(p)] + [BeginCommit(p)], Close(p));
  }

  /** A write that fails is reported to nobody: from any start where the name is free, an upload
      whose only write fails at once is committed all the same, and publishes an empty file. */
  lemma FailedWriteIsPublished(s0: Sys, p: Pid, buf: Bytes, events: seq<Event>, s: Sys, t: Sys)
    requires Initial(s0) && p in s0.uploads
    requires Pending(s0.uploads[p].name) !in s0.dir && Final(s0.uploads[p].name) !in s0.dir
    requires events == FailingUpload(p, buf) && s == Run(s0, events) && t == Apply(s, Rename(p, true))
    ensures var n := s0.uploads[p].name;
            && Final(n) in t.dir && t.dir[Final(n)] in t.data && t.data[t.dir[Final(n)]] == []
            && Given(s0, events, p) == buf && LostBytes(s0, events, p) == |buf|
  {
    FailingRun(s0, p, buf);
    Accounts(s0, events, p);
    EmptyRename(s0, s, p, buf, t);
  }

  lemma EmptyRename(s0: Sys, s: Sys, p: Pid, buf: Bytes, t: Sys)
    requires p in s.uploads && s.uploads[p].pc == Renaming && t == Apply(s, Rename(p, true))
    requires s.dir == s0.dir[Pending(s.uploads[p].name) := s0.next] && s.data == s0.data[s0.next := []]
    ensures var n := s.uploads[p].name;
            Final(n) in t.dir && t.dir[Final(n)] in t.data && t.data[t.dir[Final(n)]] == []
  {
    assert t == ApplyRename(s, p, true);
  }
}
