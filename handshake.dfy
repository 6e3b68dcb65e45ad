/**
 * The server side of the WebSocket opening handshake (`http_handshake`):
 * read the client's request into a 16384-byte buffer until it ends with an
 * empty line, check the Upgrade, Connection and Sec-WebSocket-Key fields,
 * and write the 101 response carrying the accept key.
 *
 * The socket is an oracle: `read` and `write` results are given as sequences
 * of events, consumed one per call.
 */
module Handshake {
  import opened Wrappers
  import opened HttpHeader
  import AcceptKey
  import Base64

  /** The size of the request buffer. */
  const BufferSize: nat := 16384

  /** The length a Sec-WebSocket-Key value must have. */
  const KeyLength: nat := 24

  /** The name of the field carrying the client's key. */
  const KeyField: string := "Sec-WebSocket-Key"

  /** The CR LF CR LF that ends an HTTP request head. */
  const BlankLine: seq<byte> := [13, 10, 13, 10]

  /** One result of `read` on the connection. */
  datatype ReadEvent =
    | Received(data: seq<byte>)  // `read` returned |data| bytes; none means end of stream
    | ReadInterrupted            // -1 with EINTR: retried
    | ReadFailed                 // -1 with any other errno

  /** One result of `write` on the connection. */
  datatype WriteEvent =
    | Wrote(count: nat)          // `write` accepted `count` bytes (at most what was offered)
    | WriteInterrupted           // -1 with EINTR: retried
    | WriteFailed                // -1 with any other errno

  /** Why a handshake request is refused. */
  datatype RequestError = MissingFields | InvalidKey

  /** `h` ends with an empty line. */
  predicate EndsWithBlankLine(h: seq<byte>)
  {
    |h| >= 4 && h[|h| - 4..] == BlankLine
  }

  /** Every byte the connection delivers, in order. */
  function Incoming(events: seq<ReadEvent>): seq<byte>
  {
    if events == [] then []
    else (if events[0].Received? then events[0].data else []) + Incoming(events[1..])
  }

  /** What one `read` stores: the chunk, cut to the room left in the buffer. */
  function Clip(data: seq<byte>, room: nat): (got: seq<byte>)
    ensures |got| <= room && got <= data
    ensures |data| <= room ==> got == data
  {
    if |data| <= room then data else data[..room]
  }

  /**
   * The read loop: append each chunk (clipped to the room left) to `acc`,
   * succeed as soon as the bytes end with an empty line, fail on end of
   * stream, on a read error, or when the buffer is full.  Running out of
   * events is end of stream.
   */
  function Accumulate(events: seq<ReadEvent>, acc: seq<byte>): (r: Option<seq<byte>>)
    requires |acc| < BufferSize
    decreases |events|
    ensures r.Some? ==> |acc| < |r.value| <= BufferSize && EndsWithBlankLine(r.value)
  {
    if events == [] then None
    else match events[0]
      case ReadFailed => None
      case ReadInterrupted => Accumulate(events[1..], acc)
      case Received(data) =>
        if data == [] then None
        else
          var next := acc + Clip(data, BufferSize - |acc|);
          if EndsWithBlankLine(next) then Some(next)
          else if |next| == BufferSize then None
          else Accumulate(events[1..], next)
  }

  /** The request is a prefix of what the connection delivered, after what was already buffered. */
  lemma {:induction false} AccumulatePrefix(events: seq<ReadEvent>, acc: seq<byte>)
    requires |acc| < BufferSize
    decreases |events|
    ensures Accumulate(events, acc).Some? ==> Accumulate(events, acc).value <= acc + Incoming(events)
  {
    if events != [] && Accumulate(events, acc).Some? {
      var r := Accumulate(events, acc).value;
      var rest := events[1..];
      match events[0]
      case ReadFailed =>
      case ReadInterrupted =>
        AccumulatePrefix(rest, acc);
      case Received(data) =>
        var got := Clip(data, BufferSize - |acc|);
        assert Incoming(events) == data + Incoming(rest);
        assert acc + Incoming(events) == acc + data + Incoming(rest);
        if EndsWithBlankLine(acc + got) {
          assert r == acc + got;
          PrefixGrows(acc, got, data, Incoming(rest));
        } else {
          assert got == data;
          AccumulatePrefix(rest, acc + data);
          assert r <= acc + data + Incoming(rest);
        }
    }
  }

  /** Appending a prefix of `data` gives a prefix of the whole delivery. */
  lemma PrefixGrows(acc: seq<byte>, got: seq<byte>, data: seq<byte>, tail: seq<byte>)
    requires got <= data
    ensures acc + got <= acc + data + tail
  {
    assert (acc + data + tail)[..|acc + got|] == acc + got;
  }

  /** A chunk of data either completes the request, fills the buffer, or is appended. */
  lemma TakeChunk(events: seq<ReadEvent>, next: nat, acc: seq<byte>)
    requires next < |events| && events[next].Received? && events[next].data != []
    requires |acc| < BufferSize
    ensures var got := acc + Clip(events[next].data, BufferSize - |acc|);
      Accumulate(events[next..], acc) ==
        if EndsWithBlankLine(got) then Some(got)
        else if |got| == BufferSize then None
        else Accumulate(events[next + 1..], got)
  {
    assert events[next..][1..] == events[next + 1..];
  }

  /** A read error, the end of the stream, or running out of events ends the loop without a request. */
  lemma EndOfRequest(events: seq<ReadEvent>, next: nat, acc: seq<byte>)
    requires next <= |events| && |acc| < BufferSize
    requires next == |events| || events[next].ReadFailed? || events[next] == Received([])
    ensures Accumulate(events[next..], acc) == None
  {
  }

  /** Copy `got` into `buffer` at `length`, as `read` does. */
  method Store(buffer: array<byte>, length: nat, got: seq<byte>)
    requires length + |got| <= buffer.Length
    modifies buffer
    ensures buffer[..length + |got|] == old(buffer[..length]) + got
    ensures forall k :: length + |got| <= k < buffer.Length ==> buffer[k] == old(buffer[k])
  {
    forall i | 0 <= i < |got| {
      buffer[length + i] := got[i];
    }
    assert buffer[..length + |got|] == old(buffer[..length]) + got by {
      assert forall k :: 0 <= k < length ==> buffer[k] == old(buffer[k]);
    }
  }

  /** The index of the first event at or after `next` that is not an interrupted read. */
  method SkipInterrupted(events: seq<ReadEvent>, next: nat, ghost acc: seq<byte>) returns (n: nat)
    requires next <= |events| && |acc| < BufferSize
    ensures next <= n <= |events| && (n < |events| ==> !events[n].ReadInterrupted?)
    ensures Accumulate(events[n..], acc) == Accumulate(events[next..], acc)
  {
    n := next;
    while n < |events| && events[n].ReadInterrupted?
      invariant next <= n <= |events|
      invariant Accumulate(events[n..], acc) == Accumulate(events[next..], acc)
    {
      assert events[n..][1..] == events[n + 1..];
      n := n + 1;
    }
  }

  /** The buffer's first `length` bytes end with an empty line. */
  method BlankLineAt(buffer: array<byte>, length: nat) returns (b: bool)
    requires length <= buffer.Length
    ensures b == EndsWithBlankLine(buffer[..length])
  {
    if length < 4 {
      return false;
    }
    assert buffer[..length][length - 4..] == buffer[length - 4..length];
    b := buffer[length - 4..length] == BlankLine;
  }

  /**
   * The first loop of `http_handshake`: the bytes are read into a buffer of
   * `BufferSize` bytes at `header_length`, retrying interrupted reads.
   */
  method ReadRequest(events: seq<ReadEvent>) returns (header: Option<seq<byte>>)
    ensures header == Accumulate(events, [])
  {
    var buffer := new byte[BufferSize];
    var length := 0;
    var next := 0;
    ghost var acc: seq<byte> := [];
    while true
      invariant 0 <= length < BufferSize && next <= |events|
      invariant acc == buffer[..length]
      invariant Accumulate(events[next..], acc) == Accumulate(events, [])
      decreases |events| - next
    {
      next := SkipInterrupted(events, next, acc);
      if next == |events| || events[next].ReadFailed? || events[next].data == [] {
        EndOfRequest(events, next, acc);
        return None;
      }
      TakeChunk(events, next, acc);
      var got := Clip(events[next].data, BufferSize - length);
      Store(buffer, length, got);
      acc := acc + got;
      length := length + |got|;
      next := next + 1;
      var done := BlankLineAt(buffer, length);
      if done {
        return Some(buffer[..length]);
      } else if length == BufferSize {
        return None;
      }
    }
  }

  /** The first position at or after `i` that is not a space (the NUL past the end stops it). */
  function KeyStart(s: string, i: nat): (j: nat)
    requires i <= |s|
    decreases |s| - i
    ensures i <= j <= |s| && CharAt(s, j) != ' '
    ensures forall m :: i <= m < j ==> s[m] == ' '
  {
    if i < |s| && s[i] == ' ' then KeyStart(s, i + 1) else i
  }

  /** The first position at or after `i` holding a CR or a space, or the end. */
  function KeyEnd(s: string, i: nat): (j: nat)
    requires i <= |s|
    decreases |s| - i
    ensures i <= j <= |s| && (j < |s| ==> s[j] == '\r' || s[j] == ' ')
    ensures forall m :: i <= m < j ==> s[m] != '\r' && s[m] != ' '
  {
    if i < |s| && s[i] != '\r' && s[i] != ' ' then KeyEnd(s, i + 1) else i
  }

  /**
   * The key trim of `http_handshake`: skip the spaces after the colon, then
   * scan to the first CR or space.  The scan relies on a CR further on.
   */
  method TrimKey(s: string, from: nat) returns (start: nat, end: nat)
    requires from <= |s| && exists c :: from <= c < |s| && s[c] == '\r'
    ensures start == KeyStart(s, from) && end == KeyEnd(s, start)
    ensures from <= start <= end < |s|
  {
    ghost var c :| from <= c < |s| && s[c] == '\r';
    start := from;
    while s[start] == ' '
      invariant from <= start <= c
      invariant KeyStart(s, start) == KeyStart(s, from)
      decreases c - start
    {
      start := start + 1;
    }
    end := start;
    while s[end] != '\r' && s[end] != ' '
      invariant start <= end <= c
      invariant KeyEnd(s, end) == KeyEnd(s, start)
      decreases c - end
    {
      end := end + 1;
    }
  }

  /** No character of `name` is a carriage return. */
  predicate NoCr(name: string)
  {
    forall i :: 0 <= i < |name| ==> name[i] != '\r'
  }

  /** A byte the key trim keeps: not the NUL that ends the text, not a CR, not a space. */
  predicate IsKeyByte(b: byte)
  {
    b != 0 && b != 13 && b != 32
  }

  /** The bytes between the trim bounds are key bytes. */
  lemma KeyBytes(h: seq<byte>, start: nat, end: nat)
    requires start <= end <= |Text(h)|
    requires forall m :: start <= m < end ==> Text(h)[m] != '\r' && Text(h)[m] != ' '
    ensures forall i :: 0 <= i < end - start ==> IsKeyByte(h[start..end][i])
  {
    var s := Text(h);
    forall i | 0 <= i < end - start
      ensures IsKeyByte(h[start..end][i])
    {
      assert h[start + i] == s[start + i] as int;
    }
  }

  /**
   * The request checks of `http_handshake` on the received bytes: the
   * Upgrade and Connection fields must carry their tokens, the
   * Sec-WebSocket-Key field must exist, and its value, after leading spaces
   * and up to a CR or space, must be exactly 24 bytes long.
   */
  function ParseRequest(h: seq<byte>): (r: Result<seq<byte>, RequestError>)
    ensures r.Ok? ==> |r.value| == KeyLength
    ensures r.Ok? ==> forall i :: 0 <= i < KeyLength ==> IsKeyByte(r.value[i])
    ensures r == Err(MissingFields) <==>
      FindFieldValue(Text(h), "Upgrade", Some("websocket")).None?
      || FindFieldValue(Text(h), "Connection", Some("Upgrade")).None?
      || FindFieldValue(Text(h), KeyField, None).None?
    ensures r == Err(InvalidKey) <==>
      var s := Text(h);
      var p := FindFieldValue(s, KeyField, None);
      FindFieldValue(s, "Upgrade", Some("websocket")).Some?
      && FindFieldValue(s, "Connection", Some("Upgrade")).Some?
      && p.Some? && KeyEnd(s, KeyStart(s, p.value)) - KeyStart(s, p.value) != KeyLength
    ensures r.Ok? ==>
      var s := Text(h);
      var p := FindFieldValue(s, KeyField, None);
      p.Some? && r.value == h[KeyStart(s, p.value)..KeyEnd(s, KeyStart(s, p.value))]
  {
    var s := Text(h);
    if FindFieldValue(s, "Upgrade", Some("websocket")).None?
      || FindFieldValue(s, "Connection", Some("Upgrade")).None?
    then Err(MissingFields)
    else
      match FindFieldValue(s, KeyField, None)
      case None => Err(MissingFields)
      case Some(p) =>
        var start := KeyStart(s, p);
        var end := KeyEnd(s, start);
        if end - start != KeyLength then Err(InvalidKey)
        else
          KeyBytes(h, start, end);
          Ok(h[start..end])
  }

  /** The fixed part of the 101 response before the accept key. */
  const ResponseHead: string :=
    "HTTP/1.1 101 Switching Protocols\r\nUpgrade: websocket\r\nConnection: Upgrade\r\nSec-WebSocket-Accept: "

  /** The 101 response for an accept key; 129 characters for a 28-character key, within the 256-byte buffer. */
  function Response(acceptKey: string): (r: string)
    ensures |r| == |acceptKey| + 101
  {
    ResponseHead + acceptKey + "\r\n\r\n"
  }

  /** The accept key sits between the fixed head and the empty line. */
  lemma ResponseLayout(accept: string)
    ensures var r := Response(accept);
      r[..97] == ResponseHead && r[97..97 + |accept|] == accept && r[97 + |accept|..] == "\r\n\r\n"
  {
    var r := Response(accept);
    assert |ResponseHead| == 97;
    assert r[..97] == ResponseHead;
    assert r[97..97 + |accept|] == accept;
  }

  /**
   * The write loop succeeds in delivering `pending` more bytes: each write
   * advances by what it accepted, interrupted writes are retried, a failure
   * or running out of events ends it.
   */
  function Delivers(writes: seq<WriteEvent>, pending: nat): bool
    decreases |writes|
  {
    if pending == 0 then true
    else if writes == [] then false
    else match writes[0]
      case WriteFailed => false
      case WriteInterrupted => Delivers(writes[1..], pending)
      case Wrote(n) => Delivers(writes[1..], pending - (if n <= pending then n else pending))
  }

  /** The total the connection accepts before its first failure. */
  function Accepted(writes: seq<WriteEvent>): nat
  {
    if writes == [] then 0
    else match writes[0]
      case WriteFailed => 0
      case WriteInterrupted => Accepted(writes[1..])
      case Wrote(n) => n + Accepted(writes[1..])
  }

  /** The response is delivered exactly when the connection accepts at least that many bytes before failing. */
  lemma {:induction false} DeliversIff(writes: seq<WriteEvent>, pending: nat)
    ensures Delivers(writes, pending) <==> pending <= Accepted(writes)
  {
    if pending > 0 && writes != [] && !writes[0].WriteFailed? {
      var step := if writes[0].Wrote? then (if writes[0].count <= pending then writes[0].count else pending) else 0;
      DeliversIff(writes[1..], pending - step);
    }
  }

  /**
   * The second loop of `http_handshake`: partial writes advance the sent
   * count, interrupted writes are retried; `wire` is what reached the peer.
   */
  method WriteResponse(res: string, writes: seq<WriteEvent>) returns (ok: bool, wire: string)
    ensures ok == Delivers(writes, |res|)
    ensures wire <= res && (ok ==> wire == res)
  {
    var sent := 0;
    var next := 0;
    wire := [];
    while sent < |res|
      invariant 0 <= sent <= |res| && next <= |writes|
      invariant wire == res[..sent]
      invariant Delivers(writes[next..], |res| - sent) == Delivers(writes, |res|)
      decreases |writes| - next
    {
      while next < |writes| && writes[next].WriteInterrupted?
        invariant next <= |writes| && 0 <= sent < |res| && wire == res[..sent]
        invariant Delivers(writes[next..], |res| - sent) == Delivers(writes, |res|)
      {
        assert writes[next..][1..] == writes[next + 1..];
        next := next + 1;
      }
      if next == |writes| || writes[next].WriteFailed? {
        return false, wire;
      }
      var n := writes[next].count;
      var r := if n <= |res| - sent then n else |res| - sent;
      assert writes[next..][1..] == writes[next + 1..];
      wire := wire + res[sent..sent + r];
      sent := sent + r;
      next := next + 1;
    }
    assert wire == res;
    return true, wire;
  }

  /**
   * The response `http_handshake` sends for a received request, if it
   * accepts it: the accept key is printed with `%s`, so up to its NUL.
   */
  function Reply(sha1: seq<byte> -> AcceptKey.Digest, events: seq<ReadEvent>): Option<string>
  {
    match Accumulate(events, [])
    case None => None
    case Some(h) =>
      match ParseRequest(h)
      case Err(_) => None
      case Ok(key) => Some(Response(AcceptKey.CreateAcceptKey(sha1, key)[..28]))
  }

  /**
   * An accepted request is answered with 129 bytes: the fixed head, the
   * Base64 form of the digest of the key and the GUID, and an empty line.
   */
  lemma ReplyCarriesAcceptKey(sha1: seq<byte> -> AcceptKey.Digest, events: seq<ReadEvent>, h: seq<byte>, key: seq<byte>)
    requires Accumulate(events, []) == Some(h) && ParseRequest(h) == Ok(key)
    ensures Reply(sha1, events).Some?
    ensures var r := Reply(sha1, events).value;
      |r| == 129 && r[..97] == ResponseHead && r[125..] == "\r\n\r\n"
      && Base64.Decode(r[97..125]) == Option<seq<byte>>.Some(sha1(AcceptKey.KeySource(key)))
  {
    ResponseLayout(AcceptKey.CreateAcceptKey(sha1, key)[..28]);
  }

  lemma KeyFieldHasNoCr()
    ensures NoCr(KeyField)
  {
  }

  /**
   * The checks of `http_handshake` on the received request, with the key
   * trimmed by the scanning loops of `TrimKey`.
   */
  method CheckRequest(h: seq<byte>) returns (r: Result<seq<byte>, RequestError>)
    ensures r == ParseRequest(h)
  {
    var s := Text(h);
    if FindFieldValue(s, "Upgrade", Some("websocket")).None?
      || FindFieldValue(s, "Connection", Some("Upgrade")).None?
    {
      return Err(MissingFields);
    }
    var field := FindFieldValue(s, KeyField, None);
    if field.None? {
      return Err(MissingFields);
    }
    KeyFieldHasNoCr();
    CrAfterValues(s, KeyField, field.value);
    var start, end := TrimKey(s, field.value);
    if end - start != KeyLength {
      return Err(InvalidKey);
    }
    return Ok(h[start..end]);
  }

  /**
   * `http_handshake`: 0 when the request was read, accepted and the whole
   * response written; -1 otherwise.  `wire` is what the peer received.
   */
  method HttpHandshake(sha1: seq<byte> -> AcceptKey.Digest, events: seq<ReadEvent>, writes: seq<WriteEvent>)
    returns (result: int, wire: string)
    ensures result == (if Reply(sha1, events).Some? && Delivers(writes, |Reply(sha1, events).value|) then 0 else -1)
    ensures Reply(sha1, events).None? ==> wire == []
    ensures Reply(sha1, events).Some? ==> wire <= Reply(sha1, events).value
    ensures result == 0 ==> Reply(sha1, events).Some? && wire == Reply(sha1, events).value
  {
    var header := ReadRequest(events);
    if header.None? {
      return -1, [];
    }
    var request := CheckRequest(header.value);
    if request.Err? {
      return -1, [];
    }
    var acceptKey := AcceptKey.CreateAcceptKey(sha1, request.value);
    var ok;
    ok, wire := WriteResponse(Response(acceptKey[..28]), writes);
    result := if ok then 0 else -1;
  }
}
