/** The body of an HTTP request, sent inline or in chunks (src/utils/http.cpp:253-318), and the
    decoder of section 4.1 of RFC 7230 it is meant for, without extensions or trailers. */
module ChunkedHttp {
  import opened Basics
  import opened Digits
  import opened Sockets

  const CRLF: Bytes := [13, 10]

  function Chunk(data: Bytes): Bytes { Hex(|data|) + CRLF + data + CRLF }

  const LAST_CHUNK: Bytes := [48, 13, 10, 13, 10]

  /** Empty writes emit nothing. */
  function Chunks(pieces: seq<Bytes>): Bytes {
    if pieces == [] then []
    else (if pieces[0] == [] then [] else Chunk(pieces[0])) + Chunks(pieces[1..])
  }

  /** The longest prefix of hexadecimal digits, either case. */
  function HexPrefix(s: Bytes): (p: Bytes)
    ensures p <= s
  {
    if s != [] && HexValue(s[0]).Some? then [s[0]] + HexPrefix(s[1..]) else []
  }

  /** A chunk size line: one or more digits, then CRLF. */
  function SizeLine(s: Bytes): (r: Option<(nat, Bytes)>)
    ensures r.Some? ==> |r.value.1| < |s|
  {
    var digits := HexPrefix(s);
    var after := s[|digits|..];
    if digits == [] || |after| < 2 || after[..2] != CRLF then None
    else Some((Value(digits, Hexadecimal), after[2..]))
  }

  /** The decoded body, and what follows the message. */
  function DecodeChunked(s: Bytes): Option<(Bytes, Bytes)>
    decreases |s|
  {
    match SizeLine(s)
    case None => None
    case Some((size, after)) =>
      if |after| < size + 2 || after[size..size + 2] != CRLF then None
      else if size == 0 then Some(([], after[2..]))
      else
        match DecodeChunked(after[size + 2..])
        case None => None
        case Some((body, rest)) => Some((after[..size] + body, rest))
  }

  lemma {:induction false} HexPrefixOf(digits: Bytes, rest: Bytes)
    requires forall c :: c in digits ==> HexValue(c).Some?
    requires rest != [] && HexValue(rest[0]).None?
    ensures HexPrefix(digits + rest) == digits
  {
    if digits == [] {
      assert digits + rest == rest;
    } else {
      assert digits[0] in digits;
      assert (digits + rest)[1..] == digits[1..] + rest;
      HexPrefixOf(digits[1..], rest);
    }
  }

  lemma SizeLineOf(digits: Bytes, rest: Bytes)
    requires digits != [] && forall c :: c in digits ==> HexValue(c).Some?
    ensures SizeLine(digits + CRLF + rest) == Some((Value(digits, Hexadecimal), rest))
  {
    var s := digits + CRLF + rest;
    assert s == digits + (CRLF + rest);
    HexPrefixOf(digits, CRLF + rest);
    var after := s[|digits|..];
    assert after == CRLF + rest;
    assert after[..2] == CRLF && after[2..] == rest;
  }

  lemma DecodeOneChunk(data: Bytes, rest: Bytes)
    requires data != []
    ensures DecodeChunked(Chunk(data) + rest) ==
            match DecodeChunked(rest)
            case None => None
            case Some((body, tail)) => Some((data + body, tail))
  {
    var after := data + CRLF + rest;
    assert Chunk(data) + rest == Hex(|data|) + CRLF + after;
    SizeLineOf(Hex(|data|), after);
    ValueOfPrint(|data|, Hexadecimal);
    assert after[|data|..|data| + 2] == CRLF;
    assert after[|data| + 2..] == rest;
    assert after[..|data|] == data;
  }

  lemma DecodeLastChunk(rest: Bytes)
    ensures DecodeChunked(LAST_CHUNK + rest) == Some(([], rest))
  {
    assert LAST_CHUNK + rest == [48] + CRLF + (CRLF + rest);
    SizeLineOf([48], CRLF + rest);
    assert Value([48], Hexadecimal) == 0 by {
      assert [48][..0] == [];
    }
    assert (CRLF + rest)[..2] == CRLF && (CRLF + rest)[2..] == rest;
  }

  lemma DecodePiece(piece: Bytes, tail: Bytes, body: Bytes, rest: Bytes, s: Bytes)
    requires DecodeChunked(tail) == Some((body, rest))
    requires s == (if piece == [] then [] else Chunk(piece)) + tail
    ensures DecodeChunked(s) == Some((piece + body, rest))
  {
    if piece == [] {
      assert s == tail && piece + body == body;
    } else {
      DecodeOneChunk(piece, tail);
    }
  }

  lemma StreamHead(pieces: seq<Bytes>, rest: Bytes)
    requires pieces != []
    ensures Chunks(pieces) + LAST_CHUNK + rest ==
            (if pieces[0] == [] then [] else Chunk(pieces[0])) + (Chunks(pieces[1..]) + LAST_CHUNK + rest)
  {
  }

  /** The round trip: any writes followed by the last chunk decode to the concatenated body, and
      leave exactly what follows. */
  lemma {:induction false} DecodeChunks(pieces: seq<Bytes>, rest: Bytes, s: Bytes)
    requires s == Chunks(pieces) + LAST_CHUNK + rest
    ensures DecodeChunked(s) == Some((Flatten(pieces), rest))
  {
    if pieces == [] {
      assert s == LAST_CHUNK + rest;
      DecodeLastChunk(rest);
    } else {
      var tail := Chunks(pieces[1..]) + LAST_CHUNK + rest;
      StreamHead(pieces, rest);
      DecodeChunks(pieces[1..], rest, tail);
      DecodePiece(pieces[0], tail, Flatten(pieces[1..]), rest, s);
    }
  }

  lemma {:induction false} ChunksSnoc(pieces: seq<Bytes>, last: Bytes)
    ensures Chunks(pieces + [last]) == Chunks(pieces) + if last == [] then [] else Chunk(last)
  {
    if pieces == [] {
      assert (pieces + [last])[1..] == [];
    } else {
      assert (pieces + [last])[1..] == pieces[1..] + [last];
      ChunksSnoc(pieces[1..], last);
    }
  }

  datatype Code = Fine | ClientError | NetworkError

  class Request {
    const socket: Socket
    /** Negative for a chunked body. */
    const contentLength: int
    var sent: nat

    constructor (socket: Socket, contentLength: int)
      ensures this.socket == socket && this.contentLength == contentLength && sent == 0
    {
      this.socket, this.contentLength := socket, contentLength;
      sent := 0;
    }

    /** What one Write puts on the wire. A declared length of zero still selects chunks. */
    function Encoded(buf: Bytes): Bytes {
      if buf == [] then [] else if contentLength > 0 then buf else Chunk(buf)
    }

    /** `None` is a null buffer. */
    method Write(buf: Option<Bytes>) returns (rc: Code)
      modifies this`sent, socket`script, socket`wire, socket`errno
      ensures buf == None ==> rc == ClientError && sent == old(sent) && socket.wire == old(socket.wire)
      ensures buf.Some? ==>
                && old(socket.wire) <= socket.wire <= old(socket.wire) + Encoded(buf.value)
                && (rc == Fine <==> socket.wire == old(socket.wire) + Encoded(buf.value))
                && (rc != Fine ==> rc == Code.NetworkError)
                && sent == old(sent) + if rc == Fine then |buf.value| else 0
      ensures buf.Some? && Patient(old(socket.script)) ==> rc == Fine
      ensures Patient(old(socket.script)) ==> Patient(socket.script)
    {
      if buf == None {
        return ClientError;
      }
      var data := buf.value;
      if data == [] {
        return Fine;
      }
      var ok;
      if contentLength > 0 {
        ok := socket.SendFlat(data);
      } else {
        var hdr := Hex(|data|) + CRLF;
        var iov := new Bytes[3][hdr, data, CRLF];
        assert iov[..] == [hdr, data, CRLF];
        FlattenThree(hdr, data, CRLF);
        ok := socket.Send(iov);
      }
      if !ok {
        return Code.NetworkError;
      }
      sent := sent + |data|;
      rc := Fine;
    }

    /** Ends a chunked body, or checks that an inline one had its declared length. There are no
        trailers, so the second send has nothing to do. */
    method FinishRequest() returns (rc: Code)
      modifies socket`script, socket`wire, socket`errno
      ensures contentLength >= 0 ==>
                socket.wire == old(socket.wire) && rc == if sent == contentLength then Fine else ClientError
      ensures contentLength < 0 ==>
                && old(socket.wire) <= socket.wire <= old(socket.wire) + LAST_CHUNK
                && (rc == Fine <==> socket.wire == old(socket.wire) + LAST_CHUNK)
                && (rc != Fine ==> rc == Code.NetworkError)
      ensures contentLength < 0 && Patient(old(socket.script)) ==> rc == Fine
    {
      if contentLength >= 0 {
        return if sent == contentLength then Fine else ClientError;
      }
      var ok := socket.SendFlat(LAST_CHUNK);
      if !ok {
        return Code.NetworkError;
      }
      var iov := new Bytes[0];
      ghost var wire := socket.wire;
      ok := socket.Send(iov);
      assert socket.wire == wire;
      if !ok {
        return Code.NetworkError;
      }
      rc := Fine;
    }
  }

  lemma ChunkText(data: Bytes)
    ensures Chunk(data) == Hex(|data|) + [13, 10] + data + [13, 10]
    ensures LAST_CHUNK == [48] + [13, 10] + [] + [13, 10]
  {
  }

  /** A declared length of zero does not select an inline body. */
  lemma OnlyPositiveIsInline(request: Request, buf: Bytes)
    requires buf != []
    ensures request.contentLength <= 0 ==> request.Encoded(buf) == Hex(|buf|) + [13, 10] + buf + [13, 10]
    ensures request.contentLength > 0 ==> request.Encoded(buf) == buf
  {
    ChunkText(buf);
  }

  /** A whole inline body over a patient socket: exactly the pieces, and the request is complete if
      and only if they add up to the declared length. */
  method SendInline(request: Request, pieces: seq<Bytes>) returns (rc: Code)
    requires request.contentLength > 0 && request.sent == 0
    requires Patient(request.socket.script)
    modifies request`sent, request.socket`script, request.socket`wire, request.socket`errno
    ensures request.socket.wire == old(request.socket.wire) + Flatten(pieces)
    ensures rc == if |Flatten(pieces)| == request.contentLength then Fine else ClientError
  {
    ghost var before := request.socket.wire;
    for i := 0 to |pieces|
      invariant request.socket.wire == before + Flatten(pieces[..i]) && Patient(request.socket.script)
      invariant request.sent == |Flatten(pieces[..i])|
    {
      var code := request.Write(Some(pieces[i]));
      FlattenSnoc(pieces[..i], pieces[i]);
      Associative(before, Flatten(pieces[..i]), pieces[i]);
      assert pieces[..i + 1] == pieces[..i] + [pieces[i]];
    }
    assert pieces[..|pieces|] == pieces;
    rc := request.FinishRequest();
  }

  /** A whole chunked body over a patient socket: what is on the wire decodes to what was
      written, and nothing is left. */
  method SendBody(request: Request, pieces: seq<Bytes>) returns (rc: Code)
    requires request.contentLength < 0 && request.sent == 0
    requires request.socket.wire == [] && Patient(request.socket.script)
    modifies request`sent, request.socket`script, request.socket`wire, request.socket`errno
    ensures rc == Fine && request.sent == |Flatten(pieces)|
    ensures DecodeChunked(request.socket.wire) == Some((Flatten(pieces), []))
  {
    for i := 0 to |pieces|
      invariant request.socket.wire == Chunks(pieces[..i]) && Patient(request.socket.script)
      invariant request.sent == |Flatten(pieces[..i])|
    {
      var code := request.Write(Some(pieces[i]));
      ChunksSnoc(pieces[..i], pieces[i]);
      FlattenSnoc(pieces[..i], pieces[i]);
      assert pieces[..i + 1] == pieces[..i] + [pieces[i]];
    }
    assert pieces[..|pieces|] == pieces;
    rc := request.FinishRequest();
    DecodeChunks(pieces, [], request.socket.wire);
  }
}
