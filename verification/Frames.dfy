/** The frames exchanged with a Kinetic drive: a magic byte, two big-endian lengths, a message and
    a value (src/oio/blob/kinetic/coro/RPC.cpp:80-153). */
module Frames {
  import opened Basics
  import opened Sockets

  const MAGIC: byte := 70

  const TWO32: nat := 0x1_0000_0000

  datatype Frame = Frame(msg: Bytes, val: Bytes)

  /** htonl, after the conversion of the size to 32 bits: the most significant byte first. */
  function Be32(n: nat): (b: Bytes)
    ensures |b| == 4
  {
    [n / 0x100_0000 % 0x100, n / 0x1_0000 % 0x100, n / 0x100 % 0x100, n % 0x100]
  }

  /** A number in four bytes, the most significant first. */
  predicate BigEndian(n: nat, b0: int, b1: int, b2: int, b3: int) {
    n == 0x100_0000 * b0 + 0x1_0000 * b1 + 0x100 * b2 + b3
  }

  lemma Be32IsBigEndian(n: nat)
    requires n < TWO32
    ensures BigEndian(n, Be32(n)[0], Be32(n)[1], Be32(n)[2], Be32(n)[3])
  {
    var a, b, c := n / 0x100, n / 0x1_0000, n / 0x100_0000;
    assert a / 0x100 == b && b / 0x100 == c;
    assert n == 0x100 * a + n % 0x100 && a == 0x100 * b + a % 0x100 && b == 0x100 * c + b % 0x100;
  }

  function FromBe32(b: Bytes): (n: nat)
    requires |b| == 4
    ensures n < TWO32
  {
    var x: int, y: int, z: int, t: int := b[0], b[1], b[2], b[3];
    0x100_0000 * x + 0x1_0000 * y + 0x100 * z + t
  }

  lemma Be32RoundTrip(n: nat)
    ensures FromBe32(Be32(n)) == if n < TWO32 then n else n % TWO32
  {
    var a, b, c := n / 0x100, n / 0x1_0000, n / 0x100_0000;
    assert a / 0x100 == b && b / 0x100 == c && c / 0x100 == n / TWO32;
  }

  function Header(f: Frame): (h: Bytes)
    ensures |h| == 9
  {
    [MAGIC] + Be32(|f.msg|) + Be32(|f.val|)
  }

  function Encode(f: Frame): Bytes { Header(f) + f.msg + f.val }

  /** What a drive expects to read: an 'F', the length of the message, that of the value, then both. */
  predicate IsFrame(s: Bytes, msg: Bytes, val: Bytes) {
    && |s| == 9 + |msg| + |val| && s[0] == 70
    && BigEndian(|msg|, s[1], s[2], s[3], s[4]) && BigEndian(|val|, s[5], s[6], s[7], s[8])
    && s[9..9 + |msg|] == msg && s[9 + |msg|..] == val
  }

  lemma EncodeIsFrame(f: Frame)
    requires |f.msg| < TWO32 && |f.val| < TWO32
    ensures IsFrame(Encode(f), f.msg, f.val)
  {
    var s, m, v := Encode(f), Be32(|f.msg|), Be32(|f.val|);
    Be32IsBigEndian(|f.msg|);
    Be32IsBigEndian(|f.val|);
    assert s[1..5] == m && s[5..9] == v;
    assert s[1..5] == [s[1], s[2], s[3], s[4]] && s[5..9] == [s[5], s[6], s[7], s[8]];
  }

  /** There is only one way to lay a frame out. */
  lemma FrameIsUnique(s: Bytes, f: Frame)
    requires |f.msg| < TWO32 && |f.val| < TWO32
    ensures s == Encode(f) <==> IsFrame(s, f.msg, f.val)
  {
    EncodeIsFrame(f);
    var t := Encode(f);
    if IsFrame(s, f.msg, f.val) {
      assert s == s[..9] + s[9..9 + |f.msg|] + s[9 + |f.msg|..];
      assert t == t[..9] + t[9..9 + |f.msg|] + t[9 + |f.msg|..];
      SameFour(|f.msg|, s[1], s[2], s[3], s[4], t[1], t[2], t[3], t[4]);
      SameFour(|f.val|, s[5], s[6], s[7], s[8], t[5], t[6], t[7], t[8]);
      assert s[..9] == t[..9];
    }
  }

  lemma SameFour(n: nat, a0: byte, a1: byte, a2: byte, a3: byte, b0: byte, b1: byte, b2: byte, b3: byte)
    requires BigEndian(n, a0, a1, a2, a3) && BigEndian(n, b0, b1, b2, b3)
    ensures a0 == b0 && a1 == b1 && a2 == b2 && a3 == b3
  {
  }

  predicate Fits(f: Frame, limit: nat) { |f.msg| <= limit && |f.val| <= limit }

  /** Reads one frame off a byte string, as Frame::Read does when every byte is there: the error,
      or the frame and what follows it. */
  datatype Decoded = Bad(errno: Errno) | Short | Good(frame: Frame, rest: Bytes)

  function Decode(s: Bytes, limit: nat): Decoded {
    if |s| < 9 then Short
    else if s[0] != MAGIC then Bad(EBADMSG)
    else
      var m, v := FromBe32(s[1..5]), FromBe32(s[5..9]);
      if v > limit || m > limit then Bad(E2BIG)
      else if |s| < 9 + m + v then Short
      else Good(Frame(s[9..9 + m], s[9 + m..9 + m + v]), s[9 + m + v..])
  }

  lemma HeaderFields(m: Bytes, v: Bytes, body: Bytes)
    requires |m| == |v| == 4
    ensures var s := [MAGIC] + m + v + body;
            && |s| >= 9 && s[0] == MAGIC && s[9..] == body
            && FromBe32(s[1..5]) == FromBe32(m) && FromBe32(s[5..9]) == FromBe32(v)
  {
    var s := [MAGIC] + m + v + body;
    assert s[1..5] == m && s[5..9] == v;
  }

  lemma HeaderReadsBack(f: Frame, rest: Bytes, s: Bytes)
    requires |f.msg| < TWO32 && |f.val| < TWO32
    requires s == Encode(f) + rest
    ensures |s| >= 9 && s[0] == MAGIC && s[9..] == f.msg + f.val + rest
    ensures FromBe32(s[1..5]) == |f.msg| && FromBe32(s[5..9]) == |f.val|
  {
    Be32RoundTrip(|f.msg|);
    Be32RoundTrip(|f.val|);
    Regroup(Header(f), f.msg, f.val, rest);
    HeaderFields(Be32(|f.msg|), Be32(|f.val|), f.msg + f.val + rest);
  }

  lemma Regroup(h: Bytes, a: Bytes, b: Bytes, c: Bytes)
    ensures h + a + b + c == h + (a + b + c)
  {
  }

  /** Encode then decode: the frame comes back with exactly what followed it. */
  lemma DecodeEncode(f: Frame, rest: Bytes, limit: nat)
    requires Fits(f, limit) && limit < TWO32
    ensures Decode(Encode(f) + rest, limit) == Good(f, rest)
  {
    var s, m, v := Encode(f) + rest, |f.msg|, |f.val|;
    HeaderReadsBack(f, rest, s);
    assert s[9..9 + m] == f.msg;
    assert s[9 + m..9 + m + v] == f.val;
    assert s[9 + m + v..] == rest;
  }

  lemma Unshift(n: nat, m: nat, low: byte)
    requires n == 0x100 * m + low
    ensures n / 0x100 == m && n % 0x100 == low
  {
  }

  /** What a stream must start with to be refused, and with which error. */
  lemma RefusedIff(s: Bytes, limit: nat)
    requires |s| >= 9
    ensures Decode(s, limit) == Bad(EBADMSG) <==> s[0] != 70
    ensures forall m: nat, v: nat :: s[0] == 70 && BigEndian(m, s[1], s[2], s[3], s[4]) && BigEndian(v, s[5], s[6], s[7], s[8]) ==>
              (Decode(s, limit) == Bad(E2BIG) <==> m > limit || v > limit)
  {
    assert s[1..5] == [s[1], s[2], s[3], s[4]] && s[5..9] == [s[5], s[6], s[7], s[8]];
  }

  /** Whatever lays out as a frame within the limit is read as that frame. */
  lemma FrameIsRead(s: Bytes, f: Frame, rest: Bytes, limit: nat)
    requires Fits(f, limit) && limit < TWO32 && IsFrame(s, f.msg, f.val)
    ensures Decode(s + rest, limit) == Good(f, rest)
  {
    FrameIsUnique(s, f);
    DecodeEncode(f, rest, limit);
  }

  lemma Be32Injective(a: Bytes, n: nat)
    requires |a| == 4 && n == FromBe32(a)
    ensures Be32(n) == a
  {
    var x: int, y: int, z: int := a[0], a[1], a[2];
    var n1, n2 := 0x1_0000 * x + 0x100 * y + z, 0x100 * x + y;
    Unshift(n, n1, a[3]);
    Unshift(n1, n2, z);
    Unshift(n2, x, y);
    assert n / 0x1_0000 == n2 && n / 0x100_0000 == x;
  }

  /** Decode then encode: a frame that decodes took exactly its own encoding off the string. */
  lemma EncodeDecode(s: Bytes, limit: nat)
    requires Decode(s, limit).Good?
    ensures var d := Decode(s, limit);
            Fits(d.frame, limit) && Encode(d.frame) + d.rest == s
  {
    var d := Decode(s, limit);
    Be32Injective(s[1..5], |d.frame.msg|);
    Be32Injective(s[5..9], |d.frame.val|);
    assert Header(d.frame) == s[..9];
  }

  function EncodeAll(fs: seq<Frame>): Bytes {
    if fs == [] then [] else Encode(fs[0]) + EncodeAll(fs[1..])
  }

  function DecodeAll(s: Bytes, limit: nat): Option<seq<Frame>> {
    if s == [] then Some([])
    else
      match Decode(s, limit)
      case Bad(_) => None
      case Short => None
      case Good(f, rest) =>
        match DecodeAll(rest, limit)
        case None => None
        case Some(fs) => Some([f] + fs)
  }

  /** A stream of frames decodes to the same frames with nothing left over. */
  lemma {:induction false} StreamRoundTrip(fs: seq<Frame>, limit: nat)
    requires limit < TWO32 && forall f :: f in fs ==> Fits(f, limit)
    ensures DecodeAll(EncodeAll(fs), limit) == Some(fs)
  {
    if fs != [] {
      assert fs[0] in fs;
      DecodeEncode(fs[0], EncodeAll(fs[1..]), limit);
      StreamRoundTrip(fs[1..], limit);
      assert fs == [fs[0]] + fs[1..];
    }
  }

  /** How Frame::Read ends on a stream, as far as the header goes. */
  function HeaderOutcome(script: seq<SysResult>, s: Bytes, limit: nat): (o: Outcome)
    ensures o.unread <= |s| && (o.errno == Success ==> o.unread == |s| - 9)
  {
    var o := Take(script, 9, |s|, true);
    if o.errno != Success then o
    else if s[0] != MAGIC then o.(errno := EBADMSG)
    else if FromBe32(s[5..9]) > limit || FromBe32(s[1..5]) > limit then o.(errno := E2BIG)
    else o
  }

  /** How the message, then the value, are read: each can miss the deadline. */
  function BodyOutcome(script: seq<SysResult>, lenmsg: nat, lenval: nat, avail: nat): (o: Outcome)
    ensures o.unread <= avail && (o.errno == Success ==> avail == lenmsg + lenval + o.unread)
    ensures o.errno != EBADMSG && o.errno != E2BIG
  {
    var m := Take(script, lenmsg, avail, true);
    if m.errno != Success then m else Take(m.script, lenval, m.unread, true)
  }

  /** How it ends in all. */
  function FrameOutcome(script: seq<SysResult>, s: Bytes, limit: nat): (o: Outcome)
    ensures o.unread <= |s|
  {
    var h := HeaderOutcome(script, s, limit);
    if h.errno != Success then h else BodyOutcome(h.script, FromBe32(s[1..5]), FromBe32(s[5..9]), h.unread)
  }

  /** What the decoder says of a stream whose bytes keep flowing. */
  function ErrnoOf(d: Decoded): Errno {
    match d
    case Good(_, _) => Success
    case Bad(errno) => errno
    case Short => ECONNRESET
  }

  /** While bytes flow, a frame is read exactly as it is decoded. */
  lemma FlowingFrame(script: seq<SysResult>, s: Bytes, limit: nat)
    requires Flowing(script)
    ensures var o := FrameOutcome(script, s, limit);
            Flowing(o.script) && o.errno == ErrnoOf(Decode(s, limit))
  {
    FlowingTake(script, 9, |s|, true);
    var h := HeaderOutcome(script, s, limit);
    if h.errno == Success {
      var lenmsg, lenval := FromBe32(s[1..5]), FromBe32(s[5..9]);
      FlowingTake(h.script, lenmsg, h.unread, true);
      var m := Take(h.script, lenmsg, h.unread, true);
      if m.errno == Success {
        FlowingTake(m.script, lenval, m.unread, true);
      }
    }
  }

  /** Whatever the calls do, a frame is only ever the one that is decoded, and a refusal is only
      ever the decoder's. */
  lemma OutcomeDecodes(script: seq<SysResult>, s: Bytes, limit: nat)
    ensures var o := FrameOutcome(script, s, limit);
            && (o.errno == Success ==> Decode(s, limit).Good? && |Decode(s, limit).rest| == o.unread)
            && (o.errno == EBADMSG || o.errno == E2BIG ==> Decode(s, limit) == Bad(o.errno))
  {
  }

  /** After the header of a frame, the message then the value: where the wait for the first byte
      of a part that is not empty can be in vain. */
  ghost predicate StallsInBody(script: seq<SysResult>, s: Bytes, limit: nat) {
    var h := HeaderOutcome(script, s, limit);
    h.errno == Success &&
    var lenmsg, lenval := FromBe32(s[1..5]), FromBe32(s[5..9]);
    var m := Take(h.script, lenmsg, h.unread, true);
    (lenmsg > 0 && Stalls(h.script)) || (m.errno == Success && lenval > 0 && Stalls(m.script))
  }

  /** Frame::Read gives EAGAIN in two cases only: nothing came at all, and nothing is consumed; or
      a part of the body is waited for in vain, and what precedes it is gone. */
  lemma FrameEagainIff(script: seq<SysResult>, s: Bytes, limit: nat)
    ensures var o := FrameOutcome(script, s, limit);
            && (o.errno == EAGAIN && o.unread == |s| <==> Stalls(script))
            && (o.errno == EAGAIN && o.unread < |s| <==> StallsInBody(script, s, limit))
            && (StallsInBody(script, s, limit) ==> o.unread <= |s| - 9)
  {
    EagainIff(script, 9, |s|);
    var h := HeaderOutcome(script, s, limit);
    if h.errno == Success {
      var lenmsg, lenval := FromBe32(s[1..5]), FromBe32(s[5..9]);
      if lenmsg > 0 {
        EagainIff(h.script, lenmsg, h.unread);
      }
      var m := Take(h.script, lenmsg, h.unread, true);
      if m.errno == Success && lenval > 0 {
        EagainIff(m.script, lenval, m.unread);
      }
    }
  }

  /** It does happen: the header comes in, then nothing before the deadline. */
  lemma EagainAfterHeader(f: Frame, rest: Bytes, limit: nat)
    requires Fits(f, limit) && limit < TWO32 && f.msg != []
    ensures FrameOutcome([Moved(9), WouldBlock(NoEvent)], Encode(f) + rest, limit) ==
            Outcome(EAGAIN, |f.msg| + |f.val| + |rest|, [])
  {
    var s, script := Encode(f) + rest, [Moved(9), WouldBlock(NoEvent)];
    HeaderReadsBack(f, rest, s);
    assert After(script) == [WouldBlock(NoEvent)];
    assert After(After(script)) == [];
  }

  /** Reading again after an EAGAIN, as the consumer does, finds the frame and leaves what follows
      it exactly when the first wait of the first call was in vain: a stall anywhere inside the
      frame loses it. */
  lemma RetryIff(script: seq<SysResult>, f: Frame, rest: Bytes, limit: nat)
    requires Fits(f, limit) && limit < TWO32
    requires FrameOutcome(script, Encode(f) + rest, limit).errno == EAGAIN
    requires Flowing(FrameOutcome(script, Encode(f) + rest, limit).script)
    ensures var s := Encode(f) + rest;
            var o := FrameOutcome(script, s, limit);
            var left := s[|s| - o.unread..];
            FrameOutcome(o.script, left, limit).errno == Success && Decode(left, limit) == Good(f, rest) <==> Stalls(script)
  {
    var s := Encode(f) + rest;
    var o := FrameOutcome(script, s, limit);
    var left := s[|s| - o.unread..];
    FrameEagainIff(script, s, limit);
    FlowingFrame(o.script, left, limit);
    DecodeEncode(f, rest, limit);
    if o.unread == |s| {
      assert left == s;
    } else if Decode(left, limit) == Good(f, rest) {
      EncodeDecode(left, limit);
      assert false;
    }
  }

  /** Exchange::Write: the header, the message and, if there is one, the payload, gathered in one
      send. */
  method WriteFrame(sock: Socket, f: Frame) returns (ok: bool)
    modifies sock`script, sock`wire, sock`errno
    ensures old(sock.wire) <= sock.wire <= old(sock.wire) + Encode(f)
    ensures ok <==> sock.wire == old(sock.wire) + Encode(f)
    ensures !ok ==> sock.errno == Give(old(sock.script), |Encode(f)|).errno
    ensures ok && |f.msg| < TWO32 && |f.val| < TWO32 ==> IsFrame(sock.wire[|old(sock.wire)|..], f.msg, f.val)
    ensures Patient(old(sock.script)) ==> ok && Patient(sock.script)
  {
    if |f.msg| < TWO32 && |f.val| < TWO32 {
      EncodeIsFrame(f);
    }
    var hdr := Header(f);
    var iov: array<Bytes>;
    if f.val != [] {
      iov := new Bytes[3][hdr, f.msg, f.val];
      assert iov[..] == [hdr, f.msg, f.val];
      FlattenThree(hdr, f.msg, f.val);
    } else {
      iov := new Bytes[2][hdr, f.msg];
      assert iov[..] == [hdr, f.msg];
      FlattenTwo(hdr, f.msg);
      assert Encode(f) == hdr + f.msg;
    }
    ok := sock.Send(iov);
  }

  /** Frame::Read: the outcome is that of its three reads. It succeeds only on the encoding of a
      frame within the limit, which it takes off the stream whole. */
  method ReadFrame(sock: Socket, limit: nat) returns (err: Errno, f: Frame)
    modifies sock`script, sock`incoming, sock`errno
    ensures Reads(old(sock.script), old(sock.incoming), limit, err, f, sock.script, sock.incoming)
    ensures err == EBADMSG || err == E2BIG ==> Decode(old(sock.incoming), limit) == Bad(err)
    ensures Flowing(old(sock.script)) ==> Flowing(sock.script) && err == ErrnoOf(Decode(old(sock.incoming), limit))
  {
    ghost var script, all := sock.script, sock.incoming;
    f := Frame([], []);
    var lenmsg, lenval;
    err, lenmsg, lenval := ReadHeader(sock, limit);
    if err == Success {
      err, f := ReadBody(sock, lenmsg, lenval);
      PartsDecode(script, all, limit, f, sock.incoming, err);
    }
    OutcomeDecodes(script, all, limit);
    if Flowing(script) {
      FlowingFrame(script, all, limit);
    }
  }

  lemma PartsDecode(script: seq<SysResult>, s: Bytes, limit: nat, f: Frame, after: Bytes, err: Errno)
    requires HeaderOutcome(script, s, limit).errno == Success && FrameOutcome(script, s, limit).errno == err
    requires LeavesLast(s, FrameOutcome(script, s, limit).unread, after)
    requires err == Success ==> f.msg + f.val + after == s[9..] && |f.msg| == FromBe32(s[1..5]) && |f.val| == FromBe32(s[5..9])
    ensures err == Success ==> Decode(s, limit) == Good(f, after)
  {
    if err == Success {
      var m, v := |f.msg|, |f.val|;
      assert s[9..][..m] == f.msg && s[9..][m..m + v] == f.val && s[9..][m + v..] == after;
    }
  }

  /** What one call does: its outcome, and the frame if there is one. */
  ghost predicate Reads(script: seq<SysResult>, s: Bytes, limit: nat, err: Errno, f: Frame, script': seq<SysResult>, s': Bytes) {
    var o := FrameOutcome(script, s, limit);
    && err == o.errno && script' == o.script && LeavesLast(s, o.unread, s')
    && (err == Success ==> Decode(s, limit) == Good(f, s'))
  }

  ghost predicate LeavesLast(before: Bytes, unread: nat, after: Bytes) {
    unread <= |before| && after == before[|before| - unread..]
  }

  method ReadHeader(sock: Socket, limit: nat) returns (err: Errno, lenmsg: nat, lenval: nat)
    modifies sock`script, sock`incoming, sock`errno
    ensures var o := HeaderOutcome(old(sock.script), old(sock.incoming), limit);
            err == o.errno && sock.script == o.script && LeavesLast(old(sock.incoming), o.unread, sock.incoming)
    ensures err == Success ==>
              var s := old(sock.incoming);
              |s| >= 9 && lenmsg == FromBe32(s[1..5]) && lenval == FromBe32(s[5..9])
  {
    ghost var all := sock.incoming;
    var hdr := new byte[9];
    var ok := sock.ReadExactly(hdr);
    if !ok {
      return sock.errno, 0, 0;
    }
    assert hdr[..] == all[..9];
    assert hdr[1..5] == all[1..5] && hdr[5..9] == all[5..9] && hdr[0] == all[0];
    if hdr[0] != MAGIC {
      return EBADMSG, 0, 0;
    }
    lenmsg, lenval := FromBe32(hdr[1..5]), FromBe32(hdr[5..9]);
    err := if lenval > limit || lenmsg > limit then E2BIG else Success;
  }

  /** The message, then the value. */
  method ReadBody(sock: Socket, lenmsg: nat, lenval: nat) returns (err: Errno, f: Frame)
    modifies sock`script, sock`incoming, sock`errno
    ensures var o := BodyOutcome(old(sock.script), lenmsg, lenval, |old(sock.incoming)|);
            err == o.errno && sock.script == o.script && LeavesLast(old(sock.incoming), o.unread, sock.incoming)
    ensures err == Success ==>
              |f.msg| == lenmsg && |f.val| == lenval && f.msg + f.val + sock.incoming == old(sock.incoming)
  {
    f := Frame([], []);
    var part;
    err, part := ReadPart(sock, lenmsg);
    if err != Success {
      return;
    }
    f := f.(msg := part);
    err, part := ReadPart(sock, lenval);
    if err != Success {
      return;
    }
    f := f.(val := part);
  }

  /** A part of the body, skipped when its length is zero. */
  method ReadPart(sock: Socket, len: nat) returns (err: Errno, part: Bytes)
    modifies sock`script, sock`incoming, sock`errno
    ensures var o := Take(old(sock.script), len, |old(sock.incoming)|, true);
            err == o.errno && sock.script == o.script && LeavesLast(old(sock.incoming), o.unread, sock.incoming)
    ensures err == Success ==> |part| == len && part + sock.incoming == old(sock.incoming)
  {
    err, part := Success, [];
    if len > 0 {
      var buf := new byte[len];
      var ok := sock.ReadExactly(buf);
      if !ok {
        return sock.errno, [];
      }
      part := buf[..];
    }
  }

  /** Two calls in a row, the first of which ends with EAGAIN, on a socket that serves the second
      in full. */
  method ReadAgain(sock: Socket, limit: nat, ghost sent: Frame, ghost rest: Bytes) returns (err: Errno, f: Frame)
    requires Fits(sent, limit) && limit < TWO32 && sock.incoming == Encode(sent) + rest
    requires FrameOutcome(sock.script, sock.incoming, limit).errno == EAGAIN
    requires Flowing(FrameOutcome(sock.script, sock.incoming, limit).script)
    modifies sock`script, sock`incoming, sock`errno
    ensures err == Success && f == sent && sock.incoming == rest <==> Stalls(old(sock.script))
  {
    ghost var script := sock.script;
    err, f := ReadFrame(sock, limit);
    ghost var left := sock.incoming;
    err, f := ReadFrame(sock, limit);
    SecondRead(script, sent, rest, limit, left, err, f, sock.script, sock.incoming);
  }

  lemma SecondRead(script: seq<SysResult>, sent: Frame, rest: Bytes, limit: nat, left: Bytes,
                   err: Errno, f: Frame, script': seq<SysResult>, s': Bytes)
    requires Fits(sent, limit) && limit < TWO32
    requires var o := FrameOutcome(script, Encode(sent) + rest, limit);
             && o.errno == EAGAIN && Flowing(o.script) && LeavesLast(Encode(sent) + rest, o.unread, left)
             && Reads(o.script, left, limit, err, f, script', s')
    ensures err == Success && f == sent && s' == rest <==> Stalls(script)
  {
    RetryIff(script, sent, rest, limit);
  }

  /** Frames sent back to back arrive as they were, under any fragmentation. */
  method ReadStream(sock: Socket, limit: nat, ghost sent: seq<Frame>, n: nat) returns (got: seq<Frame>)
    requires n == |sent| && limit < TWO32 && forall f :: f in sent ==> Fits(f, limit)
    requires sock.incoming == EncodeAll(sent) && Flowing(sock.script)
    modifies sock`script, sock`incoming, sock`errno
    ensures got == sent && sock.incoming == []
  {
    got := [];
    for i := 0 to n
      invariant got == sent[..i] && sock.incoming == EncodeAll(sent[i..]) && Flowing(sock.script)
    {
      assert sent[i..][1..] == sent[i + 1..] && sent[i..][0] == sent[i] && sent[i] in sent;
      DecodeEncode(sent[i], EncodeAll(sent[i + 1..]), limit);
      var err, f := ReadFrame(sock, limit);
      got := got + [f];
    }
  }

  /** A frame cut short is not a frame: whatever part of it is missing, the decoder asks for more. */
  lemma PrefixIsShort(f: Frame, part: Bytes, limit: nat)
    requires Fits(f, limit) && limit < TWO32 && part < Encode(f)
    ensures Decode(part, limit) == Short
  {
    var s := Encode(f);
    assert s + [] == s;
    HeaderReadsBack(f, [], s);
    if |part| >= 9 {
      assert part[0] == s[0] && part[1..5] == s[1..5] && part[5..9] == s[5..9];
    }
  }

  /** Sends frames one after the other, until one fails. */
  method WriteStream(sock: Socket, frames: seq<Frame>) returns (sent: nat, ghost part: Bytes)
    modifies sock`script, sock`wire, sock`errno
    ensures sent <= |frames| && sock.wire == old(sock.wire) + EncodeAll(frames[..sent]) + part
    ensures if sent < |frames| then part < Encode(frames[sent]) else part == []
    ensures Patient(old(sock.script)) ==> sent == |frames|
  {
    sent, part := 0, [];
    ghost var before := sock.wire;
    while sent < |frames|
      invariant sent <= |frames| && sock.wire == before + EncodeAll(frames[..sent])
      invariant Patient(old(sock.script)) ==> Patient(sock.script)
    {
      ghost var wire := sock.wire;
      var ok := WriteFrame(sock, frames[sent]);
      if !ok {
        part := sock.wire[|wire|..];
        PartSent(wire, sock.wire, Encode(frames[sent]), part);
        return;
      }
      EncodeSnoc(before, frames, sent);
      sent := sent + 1;
    }
  }

  lemma PartSent(before: Bytes, after: Bytes, whole: Bytes, part: Bytes)
    requires before <= after <= before + whole && after != before + whole && part == after[|before|..]
    ensures after == before + part && part < whole
  {
    assert after == after[..|before|] + part;
    assert (before + whole)[|before|..] == whole;
    assert part == (before + whole)[|before|..|after|];
  }

  lemma {:induction false} EncodeAllAppend(a: seq<Frame>, b: seq<Frame>)
    ensures EncodeAll(a + b) == EncodeAll(a) + EncodeAll(b)
  {
    if a == [] {
      assert a + b == b;
    } else {
      EncodeAllAppend(a[1..], b);
      assert (a + b)[1..] == a[1..] + b;
      Associative(Encode(a[0]), EncodeAll(a[1..]), EncodeAll(b));
    }
  }

  lemma EncodeSnoc(before: Bytes, frames: seq<Frame>, i: nat)
    requires i < |frames|
    ensures before + EncodeAll(frames[..i]) + Encode(frames[i]) == before + EncodeAll(frames[..i + 1])
  {
    assert frames[..i + 1] == frames[..i] + [frames[i]];
    EncodeAllAppend(frames[..i], [frames[i]]);
    assert EncodeAll([frames[i]]) == Encode(frames[i]) + EncodeAll([]);
    Associative(before, EncodeAll(frames[..i]), Encode(frames[i]));
  }

  /** Reads frames until one does not come whole. */
  method ReadUntilError(sock: Socket, limit: nat, ghost sent: seq<Frame>, ghost part: Bytes) returns (got: seq<Frame>, err: Errno)
    requires limit < TWO32 && Flowing(sock.script)
    requires forall f :: f in sent ==> Fits(f, limit)
    requires sock.incoming == EncodeAll(sent) + part && Decode(part, limit) == Short
    modifies sock`script, sock`incoming, sock`errno
    ensures got == sent && err == ECONNRESET
  {
    got, err := [], Success;
    var i := 0;
    while err == Success
      invariant i == |got| <= |sent| && got == sent[..i] && err in {Success, ECONNRESET}
      invariant err == Success ==> sock.incoming == EncodeAll(sent[i..]) + part && Flowing(sock.script)
      invariant err != Success ==> i == |sent|
      decreases |sent| - i, err == Success
    {
      var f;
      NextInStream(sent, i, part, limit);
      err, f := ReadFrame(sock, limit);
      if err == Success {
        got := got + [f];
        i := i + 1;
      }
    }
  }

  lemma NextInStream(sent: seq<Frame>, i: nat, part: Bytes, limit: nat)
    requires i <= |sent| && limit < TWO32 && Decode(part, limit) == Short
    requires forall f :: f in sent ==> Fits(f, limit)
    ensures var d := Decode(EncodeAll(sent[i..]) + part, limit);
            if i < |sent| then d == Good(sent[i], EncodeAll(sent[i + 1..]) + part) else d == Short
  {
    if i < |sent| {
      assert sent[i] in sent && sent[i..][1..] == sent[i + 1..];
      Associative(Encode(sent[i]), EncodeAll(sent[i + 1..]), part);
      DecodeEncode(sent[i], EncodeAll(sent[i + 1..]) + part, limit);
    } else {
      assert EncodeAll(sent[i..]) + part == part;
    }
  }

  /** The whole way, over any partial writes and any partial reads: the other end gets exactly the
      frames that were sent whole, in order, then the end of the stream; all of them if no write
      fails. */
  method StreamFrames(out: Socket, into: Socket, limit: nat, frames: seq<Frame>) returns (sent: nat, got: seq<Frame>, err: Errno)
    requires out != into && out.wire == [] && into.incoming == [] && Flowing(into.script)
    requires limit < TWO32 && forall f :: f in frames ==> Fits(f, limit)
    modifies out`script, out`wire, out`errno, into`script, into`incoming, into`errno
    ensures sent <= |frames| && got == frames[..sent] && err == ECONNRESET
    ensures Patient(old(out.script)) ==> got == frames
  {
    ghost var part;
    sent, part := WriteStream(out, frames);
    if sent < |frames| {
      assert frames[sent] in frames;
      PrefixIsShort(frames[sent], part, limit);
    }
    into.incoming := out.wire;
    assert [] + EncodeAll(frames[..sent]) == EncodeAll(frames[..sent]);
    got, err := ReadUntilError(into, limit, frames[..sent], part);
    assert frames[..|frames|] == frames;
  }
}
