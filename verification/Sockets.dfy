/** Sending and receiving whole byte strings through a socket whose system calls move as many
    bytes as they please (src/utils/net.cpp:347-492). */
module Sockets {
  import opened Basics

  /** What waiting for the socket gives after EAGAIN: the deadline had already passed, nothing
      happened, an error was signalled, or the socket became ready. */
  datatype Poll = Expired | NoEvent | Signalled | Usable

  /** The result of one read, write or writev. */
  datatype SysResult = Moved(n: nat) | Interrupted | WouldBlock(poll: Poll) | Broken

  datatype Errno = Success | EAGAIN | ETIMEDOUT | ECONNRESET | EBADMSG | E2BIG | Raised

  /** No call fails and no wait is in vain. */
  ghost predicate Patient(script: seq<SysResult>) {
    forall r :: r in script ==> Calm(r)
  }

  ghost predicate Calm(r: SysResult) {
    r != Broken && (r.WouldBlock? ==> r.poll == Signalled || r.poll == Usable)
  }

  /** Moreover the peer does not close. */
  ghost predicate Flowing(script: seq<SysResult>) {
    Patient(script) && forall r :: r in script ==> r != Moved(0)
  }

  function Least(a: nat, b: nat): nat { if a <= b then a else b }

  /** The result of the next call, which can move `limit` bytes at most, and those to come. */
  function Served(script: seq<SysResult>, limit: nat): (r: SysResult)
    ensures r.Moved? ==> r.n <= limit
  {
    if script == [] then Moved(limit) else if script[0].Moved? then Moved(Least(script[0].n, limit)) else script[0]
  }

  function After(script: seq<SysResult>): seq<SysResult> { if script == [] then [] else script[1..] }

  predicate Vain(r: SysResult) { r.WouldBlock? && (r.poll == Expired || r.poll == NoEvent) }

  /** How a read ended, how many bytes it left in the stream, and the results still to come. */
  datatype Outcome = Outcome(errno: Errno, unread: nat, script: seq<SysResult>)

  /** Reading `left` more bytes when `avail` are there to be read; `untouched` says that none of the
      bytes asked for has been read yet. */
  function Take(script: seq<SysResult>, left: nat, avail: nat, untouched: bool): (o: Outcome)
    ensures o.errno in {Success, EAGAIN, ETIMEDOUT, ECONNRESET, Raised} && o.unread <= avail
    ensures if o.errno == Success then avail - o.unread == left else avail - o.unread < left
    ensures o.errno == ETIMEDOUT ==> !untouched || o.unread < avail
    decreases |script|, left
  {
    if left == 0 then Outcome(Success, avail, script)
    else
      match Served(script, Least(left, avail))
      case Moved(n) =>
        if n == 0 then Outcome(ECONNRESET, avail, After(script)) else Take(After(script), left - n, avail - n, false)
      case Interrupted => Take(After(script), left, avail, untouched)
      case WouldBlock(poll) =>
        if poll == Expired || poll == NoEvent then Outcome(if untouched then EAGAIN else ETIMEDOUT, avail, After(script))
        else Take(After(script), left, avail, untouched)
      case Broken => Outcome(Raised, avail, After(script))
  }

  /** The first result that is not to be retried is a wait in vain: the deadline passes before
      any byte can be read. */
  predicate Stalls(script: seq<SysResult>) {
    script != [] && (Vain(script[0]) || (!script[0].Moved? && script[0] != Broken && Stalls(script[1..])))
  }

  lemma {:induction false} NeverEagainLater(script: seq<SysResult>, left: nat, avail: nat)
    ensures Take(script, left, avail, false).errno != EAGAIN
    decreases |script|, left
  {
    if left > 0 {
      match Served(script, Least(left, avail))
      case Moved(n) =>
        if n > 0 {
          NeverEagainLater(After(script), left - n, avail - n);
        }
      case Interrupted => NeverEagainLater(After(script), left, avail);
      case WouldBlock(poll) =>
        if poll != Expired && poll != NoEvent {
          NeverEagainLater(After(script), left, avail);
        }
      case Broken =>
    }
  }

  /** EAGAIN is the answer exactly when the wait for the very first byte is in vain; then no byte
      has been taken. */
  lemma {:induction false} EagainIff(script: seq<SysResult>, left: nat, avail: nat)
    requires left > 0
    ensures var o := Take(script, left, avail, true);
            && (o.errno == EAGAIN <==> Stalls(script))
            && (o.errno == EAGAIN ==> o.unread == avail)
  {
    match Served(script, Least(left, avail))
    case Moved(n) =>
      if n > 0 {
        NeverEagainLater(After(script), left - n, avail - n);
      }
    case Interrupted => EagainIff(script[1..], left, avail);
    case WouldBlock(poll) =>
      if poll != Expired && poll != NoEvent {
        EagainIff(script[1..], left, avail);
      }
    case Broken =>
  }

  lemma FlowingTail(script: seq<SysResult>)
    requires Flowing(script)
    ensures Flowing(After(script))
    ensures script != [] ==> Calm(script[0]) && script[0] != Moved(0)
  {
    assert script != [] ==> script[0] in script;
    assert forall r :: r in After(script) ==> r in script;
  }

  /** While bytes flow, a read gets all it asks for exactly if all of it is there, and otherwise
      finds the end of the stream. */
  lemma {:induction false} FlowingTake(script: seq<SysResult>, left: nat, avail: nat, untouched: bool)
    requires Flowing(script)
    ensures var o := Take(script, left, avail, untouched);
            Flowing(o.script) && o.errno == if left <= avail then Success else ECONNRESET
    decreases |script|, left
  {
    if left > 0 {
      FlowingTail(script);
      match Served(script, Least(left, avail))
      case Moved(n) =>
        if n > 0 {
          FlowingTake(After(script), left - n, avail - n, false);
        }
      case Interrupted => FlowingTake(After(script), left, avail, untouched);
      case WouldBlock(poll) =>
        if poll != Expired && poll != NoEvent {
          FlowingTake(After(script), left, avail, untouched);
        }
      case Broken =>
    }
  }

  /** Writing `left` more bytes: how it ends, how many are not written, the results to come. */
  function Give(script: seq<SysResult>, left: nat): (o: Outcome)
    ensures o.errno in {Success, ETIMEDOUT, Raised} && o.unread <= left && (o.errno == Success <==> o.unread == 0)
    decreases |script|, left
  {
    if left == 0 then Outcome(Success, 0, script)
    else
      match Served(script, left)
      case Moved(n) => Give(After(script), left - n)
      case Interrupted => Give(After(script), left)
      case WouldBlock(poll) =>
        if poll == Expired || poll == NoEvent then Outcome(ETIMEDOUT, left, After(script)) else Give(After(script), left)
      case Broken => Outcome(Raised, left, After(script))
  }

  // The laws of Give and Take, over the results of the kernel.

  /** The bytes that the results move. */
  function Moves(script: seq<SysResult>): nat {
    if script == [] then 0 else (if script[0].Moved? then script[0].n else 0) + Moves(script[1..])
  }

  /** A hard error, or a wait in vain. */
  predicate Halts(r: SysResult) { r == Broken || Vain(r) }

  /** For a read, the end of the stream too. */
  predicate Stops(r: SysResult) { Halts(r) || r == Moved(0) }

  lemma MovesTail(script: seq<SysResult>, i: nat)
    requires 0 < i <= |script|
    ensures Moves(script[..i]) == (if script[0].Moved? then script[0].n else 0) + Moves(script[1..][..i - 1])
  {
    assert script[..i][1..] == script[1..][..i - 1];
  }

  /** A write halts at the first hard error or wait in vain that comes before its last byte is
      taken, with the errno of that, and then has written what was moved before. */
  lemma {:induction false} GiveHalts(script: seq<SysResult>, left: nat, i: nat)
    requires i < |script| && Halts(script[i]) && Moves(script[..i]) < left
    requires forall j :: 0 <= j < i ==> !Halts(script[j])
    ensures Give(script, left) ==
            Outcome(if script[i] == Broken then Raised else ETIMEDOUT, left - Moves(script[..i]), script[i + 1..])
  {
    if i > 0 {
      MovesTail(script, i);
      assert forall j :: 0 <= j < i - 1 ==> script[1..][j] == script[j + 1];
      GiveHalts(script[1..], left - if script[0].Moved? then script[0].n else 0, i - 1);
      assert script[1..][i..] == script[i + 1..];
    }
  }

  lemma {:induction false} GiveSucceeds(script: seq<SysResult>, left: nat)
    requires forall i :: 0 <= i < |script| && Halts(script[i]) ==> Moves(script[..i]) >= left
    ensures Give(script, left).errno == Success
    decreases |script|, left
  {
    if left > 0 && script != [] {
      assert Moves(script[..0]) == 0;
      var n := if script[0].Moved? then script[0].n else 0;
      if n < left {
        forall i | 0 <= i < |script| - 1 && Halts(script[1..][i]) ensures Moves(script[1..][..i]) >= left - n {
          MovesTail(script, i + 1);
          assert script[1..][i] == script[i + 1];
        }
        GiveSucceeds(script[1..], left - n);
      }
    }
  }

  /** So it fails exactly when there is one. */
  lemma GiveFailsIff(script: seq<SysResult>, left: nat)
    ensures Give(script, left).errno != Success <==>
            exists i :: 0 <= i < |script| && Halts(script[i]) && Moves(script[..i]) < left
  {
    if i :| 0 <= i < |script| && Halts(script[i]) && Moves(script[..i]) < left {
      var k := FirstHalt(script, i);
      MovesGrow(script, k, i);
      GiveHalts(script, left, k);
    } else {
      GiveSucceeds(script, left);
    }
  }

  function FirstHalt(script: seq<SysResult>, i: nat): (k: nat)
    requires i < |script| && Halts(script[i])
    ensures k <= i && Halts(script[k]) && forall j :: 0 <= j < k ==> !Halts(script[j])
  {
    if Halts(script[0]) then 0 else 1 + FirstHalt(script[1..], i - 1)
  }

  lemma {:induction false} MovesGrow(script: seq<SysResult>, k: nat, i: nat)
    requires k <= i <= |script|
    ensures Moves(script[..k]) <= Moves(script[..i])
  {
    if k > 0 {
      MovesTail(script, k);
      MovesTail(script, i);
      MovesGrow(script[1..], k - 1, i - 1);
    } else {
      assert script[..0] == [];
    }
  }

  /** No call fails and no wait is in vain: everything is written. */
  lemma {:induction false} PatientGive(script: seq<SysResult>, left: nat)
    requires Patient(script)
    ensures Give(script, left).errno == Success && Patient(Give(script, left).script)
    decreases |script|, left
  {
    if left > 0 {
      assert script != [] ==> script[0] in script;
      assert forall r :: r in After(script) ==> r in script;
      var n := if script == [] then left else if script[0].Moved? then Least(script[0].n, left) else 0;
      PatientGive(After(script), left - n);
    }
  }

  function StopErrno(r: SysResult, untouched: bool): Errno
    requires Stops(r)
  {
    if r == Broken then Raised else if r == Moved(0) then ECONNRESET else if untouched then EAGAIN else ETIMEDOUT
  }

  /** A read stops at the first hard error, wait in vain or end of the stream that comes before its
      last byte. */
  lemma {:induction false} TakeStops(script: seq<SysResult>, left: nat, avail: nat, untouched: bool, i: nat)
    requires i < |script| && Stops(script[i]) && Moves(script[..i]) < left && Moves(script[..i]) <= avail
    requires forall j :: 0 <= j < i ==> !Stops(script[j])
    ensures Take(script, left, avail, untouched) ==
            Outcome(StopErrno(script[i], untouched && Moves(script[..i]) == 0), avail - Moves(script[..i]), script[i + 1..])
  {
    if i > 0 {
      MovesTail(script, i);
      assert forall j :: 0 <= j < i - 1 ==> script[1..][j] == script[j + 1];
      var n := if script[0].Moved? then script[0].n else 0;
      TakeStops(script[1..], left - n, avail - n, untouched && n == 0, i - 1);
      assert script[1..][i..] == script[i + 1..];
    }
  }

  lemma {:induction false} TakeSucceeds(script: seq<SysResult>, left: nat, avail: nat, untouched: bool)
    requires left <= avail
    requires forall i :: 0 <= i < |script| && Stops(script[i]) ==> Moves(script[..i]) >= left
    ensures Take(script, left, avail, untouched).errno == Success
    decreases |script|, left
  {
    if left > 0 && script != [] {
      assert Moves(script[..0]) == 0;
      var n := if script[0].Moved? then script[0].n else 0;
      if n < left {
        forall i | 0 <= i < |script| - 1 && Stops(script[1..][i]) ensures Moves(script[1..][..i]) >= left - n {
          MovesTail(script, i + 1);
          assert script[1..][i] == script[i + 1];
        }
        TakeSucceeds(script[1..], left - n, avail - n, untouched && n == 0);
      }
    }
  }

  /** When the bytes are there, a read fails exactly when there is one. */
  lemma TakeFailsIff(script: seq<SysResult>, left: nat, avail: nat)
    requires left <= avail
    ensures Take(script, left, avail, true).errno != Success <==>
            exists i :: 0 <= i < |script| && Stops(script[i]) && Moves(script[..i]) < left
  {
    if i :| 0 <= i < |script| && Stops(script[i]) && Moves(script[..i]) < left {
      var k := FirstStop(script, i);
      MovesGrow(script, k, i);
      TakeStops(script, left, avail, true, k);
    } else {
      TakeSucceeds(script, left, avail, true);
    }
  }

  function FirstStop(script: seq<SysResult>, i: nat): (k: nat)
    requires i < |script| && Stops(script[i])
    ensures k <= i && Stops(script[k]) && forall j :: 0 <= j < k ==> !Stops(script[j])
  {
    if Stops(script[0]) then 0 else 1 + FirstStop(script[1..], i - 1)
  }

  /** A connected socket: what was written to it, what is there to be read, and the results the
      kernel will give to the next calls. Once they are used up, every call is served in full. */
  class Socket {
    var script: seq<SysResult>
    var wire: Bytes
    var incoming: Bytes
    var errno: Errno

    method SysWrite(data: Bytes) returns (r: SysResult)
      modifies this`script, this`wire
      ensures script == After(old(script)) && r == Served(old(script), |data|)
      ensures wire == old(wire) + if r.Moved? then data[..r.n] else []
    {
      r, script := Served(script, |data|), After(script);
      if r.Moved? {
        wire := wire + data[..r.n];
      }
    }

    /** A result of no byte is the end of the stream. */
    method SysRead(len: nat) returns (r: SysResult, data: Bytes)
      modifies this`script, this`incoming
      ensures script == After(old(script)) && r == Served(old(script), Least(len, |old(incoming)|))
      ensures r.Moved? ==> r.n <= |old(incoming)| && data == old(incoming)[..r.n] && incoming == old(incoming)[r.n..]
      ensures !r.Moved? ==> incoming == old(incoming)
    {
      r, script, data := Served(script, Least(len, |incoming|)), After(script), [];
      if r.Moved? {
        data := incoming[..r.n];
        incoming := incoming[r.n..];
      }
    }

    /** One read into the buffer, behind the bytes already there. */
    method ReadInto(buf: array<byte>, done: nat) returns (r: SysResult)
      requires done < buf.Length
      modifies this`script, this`incoming, buf
      ensures script == After(old(script)) && r == Served(old(script), Least(buf.Length - done, |old(incoming)|))
      ensures var n := if r.Moved? then r.n else 0;
              incoming == old(incoming)[n..] && buf[..done + n] == old(buf[..done]) + old(incoming)[..n]
    {
      var data;
      r, data := SysRead(buf.Length - done);
      if r.Moved? {
        forall k | 0 <= k < r.n { buf[done + k] := data[k]; }
      }
    }

    /** With `len` bytes still to read out of `all`, the reading goes on towards its outcome. */
    ghost predicate Reading(buf: array<byte>, len: nat, all: Bytes, goal: Outcome)
      reads this, buf
    {
      && len <= buf.Length && buf.Length - len <= |all|
      && incoming == all[buf.Length - len..] && buf[..buf.Length - len] == all[..buf.Length - len]
      && Take(script, len, |incoming|, len == buf.Length) == goal
    }

    /** One turn of the loop of ReadExactly. */
    method ReadOnce(buf: array<byte>, len0: nat, ghost all: Bytes, ghost goal: Outcome) returns (go: bool, len: nat)
      requires len0 > 0 && Reading(buf, len0, all, goal)
      modifies this`script, this`incoming, this`errno, buf
      ensures go ==> Reading(buf, len, all, goal) && len <= len0 && |script| <= |old(script)|
      ensures go ==> len < len0 || |script| < |old(script)|
      ensures !go ==> Outcome(errno, |incoming|, script) == goal && errno != Success && incoming == old(incoming)
    {
      len := len0;
      var r := ReadInto(buf, buf.Length - len);
      match r {
        case Moved(n) =>
          if n == 0 {
            errno := ECONNRESET;
            return false, len;
          }
          Splice(all, buf.Length - len, n);
          len := len - n;
        case Interrupted =>
        case WouldBlock(poll) =>
          if poll == Expired || poll == NoEvent {
            errno := if len == buf.Length then EAGAIN else ETIMEDOUT;
            return false, len;
          }
        case Broken =>
          errno := Raised;
          return false, len;
      }
      go := true;
    }

    /** Reads as many bytes as the buffer holds, or fails having read fewer: how it ends, what it
        takes and what it leaves are those of Take. */
    method ReadExactly(buf: array<byte>) returns (ok: bool)
      modifies this`script, this`incoming, this`errno, buf
      ensures var o := Take(old(script), buf.Length, |old(incoming)|, true);
              && (if ok then Success else errno) == o.errno && script == o.script && (!ok ==> errno != Success)
              && o.unread <= |old(incoming)| && incoming == old(incoming)[|old(incoming)| - o.unread..]
      ensures ok ==> |old(incoming)| - |incoming| == buf.Length && buf[..] == old(incoming)[..buf.Length]
    {
      ghost var all := incoming;
      ghost var goal := Take(script, buf.Length, |all|, true);
      var len: nat, go := buf.Length, true;
      while go && len > 0
        invariant go ==> Reading(buf, len, all, goal)
        invariant !go ==> Outcome(errno, |incoming|, script) == goal && errno != Success
        invariant |incoming| <= |all| && incoming == all[|all| - |incoming|..]
        decreases go, |script|, len
      {
        go, len := ReadOnce(buf, len, all, goal);
      }
      ok := go;
    }

    /** One turn of the loop of SendFlat: `n` bytes of the buffer are written. */
    method SendFlatOnce(buf: Bytes) returns (go: bool, n: nat)
      requires buf != []
      modifies this`script, this`wire, this`errno
      ensures n <= |buf| && wire == old(wire) + buf[..n]
      ensures go ==> Give(script, |buf| - n) == Give(old(script), |buf|)
      ensures go ==> |script| < |old(script)| || (script == old(script) && n > 0)
      ensures !go ==> Outcome(errno, |buf| - n, script) == Give(old(script), |buf|) && errno != Success
    {
      n, go := 0, true;
      var r := SysWrite(buf);
      match r {
        case Moved(k) => n := k;
        case Interrupted =>
        case WouldBlock(poll) =>
          if poll == Expired || poll == NoEvent {
            errno := ETIMEDOUT;
            go := false;
          }
        case Broken =>
          errno := Raised;
          go := false;
      }
    }

    /** The flat form of send. */
    method SendFlat(data: Bytes) returns (ok: bool)
      modifies this`script, this`wire, this`errno
      ensures var o := Give(old(script), |data|);
              && (if ok then Success else errno) == o.errno && (!ok ==> errno != Success) && script == o.script
              && wire == old(wire) + data[..|data| - o.unread]
      ensures old(wire) <= wire <= old(wire) + data
      ensures ok <==> wire == old(wire) + data
      ensures Patient(old(script)) ==> ok && Patient(script)
    {
      ghost var goal := Give(script, |data|);
      if Patient(script) {
        PatientGive(script, |data|);
      }
      ghost var sent: nat := 0;
      var buf := data;
      ok := true;
      while ok && buf != []
        invariant sent <= |data| && buf == data[sent..] && wire == old(wire) + data[..sent]
        invariant if ok then Give(script, |buf|) == goal else Outcome(errno, |buf|, script) == goal && errno != Success
        decreases ok, |script|, |buf|
      {
        var n;
        ok, n := SendFlatOnce(buf);
        Splice(data, sent, n);
        Associative(old(wire), data[..sent], buf[..n]);
        buf := buf[n..];
        sent := sent + n;
      }
      PrefixSent(old(wire), data, sent);
    }

    /** One writev on what is left of the vectors, which then steps over what was taken. */
    method Gather(iov: array<Bytes>, first0: nat) returns (r: SysResult, first: nat)
      requires first0 <= iov.Length
      modifies this`script, this`wire, iov
      ensures first <= iov.Length
      ensures r.Moved? ==> r.n <= |old(Flatten(iov[first0..]))|
      ensures var n := if r.Moved? then r.n else 0;
              && wire == old(wire) + old(Flatten(iov[first0..]))[..n]
              && Flatten(iov[first..]) == old(Flatten(iov[first0..]))[n..]
      ensures script == After(old(script)) && r == Served(old(script), |old(Flatten(iov[first0..]))|)
    {
      r := SysWrite(Flatten(iov[first0..]));
      first := first0;
      if r.Moved? {
        first := Advance(iov, first0, r.n);
      }
    }

    /** The first `sent` bytes are on the wire, and the vectors hold the others. */
    ghost predicate Sending(iov: array<Bytes>, first: nat, sent: nat, before: Bytes, whole: Bytes)
      reads this, iov
    {
      && first <= iov.Length && sent <= |whole|
      && Flatten(iov[first..]) == whole[sent..] && wire == before + whole[..sent]
    }

    /** One turn of the loop of Send, on its way to its outcome. */
    method SendOnce(iov: array<Bytes>, first0: nat, sent0: nat, ghost before: Bytes, ghost whole: Bytes)
      returns (go: bool, first: nat, sent: nat)
      requires sent0 < |whole| && Sending(iov, first0, sent0, before, whole)
      modifies this`script, this`wire, this`errno, iov
      ensures Sending(iov, first, sent, before, whole)
      ensures go ==> Give(script, |whole| - sent) == Give(old(script), |whole| - sent0)
      ensures go ==> |script| < |old(script)| || (script == old(script) && sent > sent0)
      ensures !go ==> Outcome(errno, |whole| - sent, script) == Give(old(script), |whole| - sent0) && errno != Success
    {
      var r;
      sent, go := sent0, true;
      r, first := Gather(iov, first0);
      match r {
        case Moved(n) =>
          Splice(whole, sent0, n);
          sent := sent0 + n;
        case Interrupted =>
        case WouldBlock(poll) =>
          if poll == Expired || poll == NoEvent {
            errno := ETIMEDOUT;
            go := false;
          }
        case Broken =>
          errno := Raised;
          go := false;
      }
    }

    /** The gathered form: whatever the kernel takes of each writev, the bytes on the wire are a
        prefix of the concatenated vectors, the whole of them exactly on success; how it ends and
        how far it goes are those of Give. */
    method Send(iov: array<Bytes>) returns (ok: bool)
      modifies this`script, this`wire, this`errno, iov
      ensures var (whole, o) := (Flatten(old(iov[..])), Give(old(script), |Flatten(old(iov[..]))|));
              && (if ok then Success else errno) == o.errno && (!ok ==> errno != Success) && script == o.script
              && wire == old(wire) + whole[..|whole| - o.unread]
      ensures old(wire) <= wire <= old(wire) + Flatten(old(iov[..]))
      ensures ok <==> wire == old(wire) + Flatten(old(iov[..]))
      ensures Patient(old(script)) ==> ok && Patient(script)
    {
      ghost var whole := Flatten(iov[..]);
      ghost var goal := Give(script, |whole|);
      if Patient(script) {
        PatientGive(script, |whole|);
      }
      var total := TotalLength(iov);
      var sent: nat, first: nat := 0, 0;
      assert iov[..] == iov[0..];
      ok := true;
      while ok && sent < total
        invariant sent <= total == |whole| && Sending(iov, first, sent, old(wire), whole)
        invariant if ok then Give(script, total - sent) == goal else Outcome(errno, total - sent, script) == goal && errno != Success
        decreases ok, |script|, total - sent
      {
        ok, first, sent := SendOnce(iov, first, sent, old(wire), whole);
      }
      PrefixSent(old(wire), whole, sent);
    }
  }

  lemma PrefixSent(before: Bytes, whole: Bytes, sent: nat)
    requires sent <= |whole|
    ensures before <= before + whole[..sent] <= before + whole
    ensures before + whole[..sent] == before + whole <==> sent == |whole|
  {
  }

  lemma Splice(whole: Bytes, sent: nat, n: nat)
    requires sent + n <= |whole|
    ensures whole[..sent] + whole[sent..][..n] == whole[..sent + n]
    ensures whole[sent..][n..] == whole[sent + n..]
  {
  }

  method TotalLength(iov: array<Bytes>) returns (total: nat)
    ensures total == |Flatten(iov[..])|
  {
    total := 0;
    for i := 0 to iov.Length
      invariant total == |Flatten(iov[..i])|
    {
      FlattenSnoc(iov[..i], iov[i]);
      assert iov[..i + 1] == iov[..i] + [iov[i]];
      total := total + |iov[i]|;
    }
    assert iov[..iov.Length] == iov[..];
  }

  /** Steps over the bytes just written. A vector used up is only left behind when more bytes
      follow; there is always one to step into. */
  method Advance(iov: array<Bytes>, first0: nat, n: nat) returns (first: nat)
    requires first0 <= iov.Length && n <= |Flatten(iov[first0..])|
    modifies iov
    ensures first0 <= first <= iov.Length
    ensures Flatten(iov[first..]) == Flatten(old(iov[first0..]))[n..]
  {
    first := first0;
    var rc := n;
    while rc > 0
      invariant first0 <= first <= iov.Length && 0 <= rc <= |Flatten(iov[first..])|
      invariant Flatten(iov[first..])[rc..] == Flatten(old(iov[first0..]))[n..]
      decreases rc, iov.Length - first
    {
      assert first < iov.Length;
      assert iov[first..] == [iov[first]] + iov[first + 1..];
      if rc > |iov[first]| {
        rc := rc - |iov[first]|;
        first := first + 1;
      } else {
        ghost var tail := iov[first + 1..];
        iov[first] := iov[first][rc..];
        assert iov[first..] == [iov[first]] + tail;
        rc := 0;
      }
    }
  }
}
