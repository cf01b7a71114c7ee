/**
 * The frame protocol between render/renderer.go and render/python/main.py: each message is a big-endian 32-bit length
 * followed by that many bytes.
 */
module Frames {
  import opened Text

  type Byte = n: nat | n < 256

  type Bytes = seq<Byte>

  const LIMIT: nat := 0x1_0000_0000

  // ---------- The codec ----------

  /** binary.BigEndian.PutUint32 of the length converted to uint32. */
  function Header(length: nat): (h: Bytes)
    ensures |h| == 4
  {
    var n := length % LIMIT;
    [n / 0x100_0000, n / 0x1_0000 % 256, n / 0x100 % 256, n % 256]
  }

  /** binary.BigEndian.Uint32, struct.unpack(">I"). */
  function HeaderValue(h: Bytes): (n: nat)
    requires |h| == 4
    ensures n < LIMIT
  {
    h[0] as int * 0x100_0000 + h[1] as int * 0x1_0000 + h[2] as int * 0x100 + h[3]
  }

  lemma HeaderRoundTrip(length: nat)
    ensures HeaderValue(Header(length)) == length % LIMIT
  {
    var n := length % LIMIT;
    var a, b, c := n / 0x100_0000, n / 0x1_0000, n / 0x100;
    assert b / 256 == a && c / 256 == b;
    assert b == 256 * a + b % 256 && c == 256 * b + c % 256 && n == 256 * c + n % 256;
  }

  /** The number whose base-256 digits are these bytes, the most significant first. */
  function BigEndian(bytes: Bytes): nat {
    if bytes == [] then 0 else 256 * BigEndian(bytes[..|bytes| - 1]) + bytes[|bytes| - 1]
  }

  /** A header is the big-endian text of the length on 32 bits. */
  lemma HeaderBigEndian(length: nat)
    ensures BigEndian(Header(length)) == length % LIMIT
    ensures Header(0x0102_0304) == [1, 2, 3, 4]
  {
    var h := Header(length);
    HeaderRoundTrip(length);
    BigEndianOfFour(h[0], h[1], h[2], h[3]);
    assert h == [h[0], h[1], h[2], h[3]];
  }

  lemma BigEndianSnoc(bytes: Bytes, last: Byte)
    ensures BigEndian(bytes + [last]) == 256 * BigEndian(bytes) + last
  {
    assert (bytes + [last])[..|bytes|] == bytes;
  }

  lemma BigEndianOfFour(a: Byte, b: Byte, c: Byte, d: Byte)
    ensures BigEndian([a, b, c, d]) == HeaderValue([a, b, c, d])
  {
    BigEndianSnoc([], a);
    BigEndianSnoc([a], b);
    BigEndianSnoc([a, b], c);
    BigEndianSnoc([a, b, c], d);
    assert [] + [a] == [a] && [a] + [b] == [a, b] && [a, b] + [c] == [a, b, c] && [a, b, c] + [d] == [a, b, c, d];
  }

  function Frame(payload: Bytes): (f: Bytes)
    ensures |f| == |payload| + 4
  {
    Header(|payload|) + payload
  }

  /** The first frame of a byte sequence and what follows it; None when the bytes end before the frame does. */
  function FirstFrame(s: Bytes): (r: Option<(Bytes, Bytes)>)
    ensures r.Some? ==> |s| == 4 + |r.value.0| + |r.value.1|
  {
    if |s| < 4 then None
    else
      var n := HeaderValue(s[..4]);
      if |s| - 4 < n then None else Some((s[4..4 + n], s[4 + n..]))
  }

  predicate Fits(payload: Bytes) {
    |payload| < LIMIT
  }

  /** A written frame is read back, and nothing beyond it, exactly when the payload is shorter than 2^32 bytes. */
  lemma FrameRoundTrip(payload: Bytes, rest: Bytes)
    ensures FirstFrame(Frame(payload) + rest) == Some((payload, rest)) <==> Fits(payload)
  {
    var s := Frame(payload) + rest;
    HeaderRoundTrip(|payload|);
    assert s[..4] == Header(|payload|);
    assert s[4..] == payload + rest;
    if Fits(payload) {
      assert s[4..4 + |payload|] == payload && s[4 + |payload|..] == rest;
    }
  }

  /** A cut frame yields nothing. */
  lemma TruncatedFrame(payload: Bytes, k: nat)
    requires Fits(payload) && k < |Frame(payload)|
    ensures FirstFrame(Frame(payload)[..k]) == None
  {
    var s := Frame(payload)[..k];
    if k >= 4 {
      HeaderRoundTrip(|payload|);
      assert s[..4] == Header(|payload|);
    }
  }

  function AllFrames(payloads: seq<Bytes>): Bytes {
    if payloads == [] then [] else Frame(payloads[0]) + AllFrames(payloads[1..])
  }

  /** All payloads read until the bytes run out inside a frame, and the bytes left over. */
  function ReadAll(s: Bytes): (seq<Bytes>, Bytes)
    decreases |s|
  {
    match FirstFrame(s)
    case None => ([], s)
    case Some((payload, rest)) =>
      var (payloads, left) := ReadAll(rest);
      ([payload] + payloads, left)
  }

  predicate AllFit(payloads: seq<Bytes>) {
    forall p :: p in payloads ==> Fits(p)
  }

  lemma ReadAllStep(s: Bytes, payload: Bytes, rest: Bytes)
    requires FirstFrame(s) == Some((payload, rest))
    ensures ReadAll(s) == ([payload] + ReadAll(rest).0, ReadAll(rest).1)
  {
  }

  /** Reading the concatenation of written frames gives back the list and consumes every byte. */
  lemma {:induction false} StreamRoundTrip(payloads: seq<Bytes>)
    requires AllFit(payloads)
    ensures ReadAll(AllFrames(payloads)) == (payloads, [])
  {
    if payloads != [] {
      var rest := AllFrames(payloads[1..]);
      assert payloads[0] in payloads;
      FrameRoundTrip(payloads[0], rest);
      StreamRoundTrip(payloads[1..]);
      ReadAllStep(Frame(payloads[0]) + rest, payloads[0], rest);
      assert payloads == [payloads[0]] + payloads[1..];
    }
  }

  lemma CutAfterFrame(payload: Bytes, rest: Bytes, k: nat)
    requires Fits(payload) && |Frame(payload)| <= k <= |Frame(payload)| + |rest|
    ensures var cut := rest[..k - |Frame(payload)|];
      ReadAll((Frame(payload) + rest)[..k]) == ([payload] + ReadAll(cut).0, ReadAll(cut).1)
  {
    var cut := rest[..k - |Frame(payload)|];
    assert (Frame(payload) + rest)[..k] == Frame(payload) + cut;
    FrameRoundTrip(payload, cut);
    ReadAllStep(Frame(payload) + cut, payload, cut);
  }

  /** A stream cut anywhere yields the first payloads, unaltered, and never a partial one. */
  lemma {:induction false} TruncatedStream(payloads: seq<Bytes>, k: nat) returns (n: nat)
    requires AllFit(payloads) && k <= |AllFrames(payloads)|
    ensures n <= |payloads| && ReadAll(AllFrames(payloads)[..k]).0 == payloads[..n]
    ensures k < |AllFrames(payloads)| ==> n < |payloads|
  {
    n := 0;
    if payloads != [] {
      var first, rest := Frame(payloads[0]), AllFrames(payloads[1..]);
      var s := (first + rest)[..k];
      if k < |first| {
        assert s == first[..k];
        TruncatedFrame(payloads[0], k);
      } else {
        var m := TruncatedStream(payloads[1..], k - |first|);
        n := m + 1;
        CutAfterFrame(payloads[0], rest, k);
        assert payloads[..n] == [payloads[0]] + payloads[1..][..m];
      }
    }
  }

  // ---------- Writing ----------

  /** A pipe that accepts so many more bytes and then fails, as a pipe to a dying process does. */
  class Pipe {
    var data: Bytes
    var room: nat

    constructor (room: nat)
      ensures data == [] && this.room == room
    {
      this.data, this.room := [], room;
    }

    /** io.Writer: everything is written, or an error comes after a part of it. */
    method Write(b: Bytes) returns (ok: bool)
      modifies this
      ensures ok <==> |b| <= old(room)
      ensures data == old(data) + b[..if ok then |b| else old(room)]
      ensures room == if ok then old(room) - |b| else 0
    {
      ok := |b| <= room;
      var n := if ok then |b| else room;
      data, room := data + b[..n], room - n;
    }
  }

  /** writeFrame and _write_frame: header, then payload; a failure leaves a proper prefix of the frame. */
  method WriteFrame(w: Pipe, payload: Bytes) returns (ok: bool)
    modifies w
    ensures ok <==> old(w.room) >= |Frame(payload)|
    ensures ok ==> w.data == old(w.data) + Frame(payload) && w.room == old(w.room) - |Frame(payload)|
    ensures !ok ==> w.room == 0 && w.data == old(w.data) + Frame(payload)[..old(w.room)]
  {
    var hdr := Header(|payload|);
    ok := w.Write(hdr);
    if !ok {
      assert Frame(payload)[..old(w.room)] == hdr[..old(w.room)];
      return;
    }
    label headerWritten:
    ok := w.Write(payload);
    assert hdr[..|hdr|] == hdr && payload[..|payload|] == payload;
    if !ok {
      assert Frame(payload)[..old(w.room)] == hdr + payload[..old@headerWritten(w.room)];
    }
  }

  // ---------- Reading ----------

  /** A byte stream whose reads come back in pieces of the writer's and the kernel's choosing. */
  class Stream {
    var chunks: seq<Bytes>

    constructor (chunks: seq<Bytes>)
      requires forall i :: 0 <= i < |chunks| ==> |chunks[i]| > 0
      ensures Valid() && this.chunks == chunks
    {
      this.chunks := chunks;
    }

    ghost predicate Valid()
      reads this
    {
      forall i :: 0 <= i < |chunks| ==> |chunks[i]| > 0
    }

    ghost function Content(): Bytes
      reads this
    {
      Concat(chunks)
    }

    /** stream.read(k): some bytes, at most k; none at the end of the stream. */
    method Read(k: nat) returns (chunk: Bytes)
      requires Valid() && k > 0
      modifies this
      ensures Valid() && |chunk| <= k
      ensures old(Content()) == chunk + Content()
      ensures chunk == [] ==> Content() == []
    {
      if chunks == [] {
        return [];
      }
      var first := chunks[0];
      if |first| <= k {
        chunk, chunks := first, chunks[1..];
      } else {
        chunk := first[..k];
        ghost var rest := chunks[1..];
        chunks := [first[k..]] + chunks[1..];
        assert chunks[1..] == rest;
        assert first == first[..k] + first[k..];
      }
    }
  }

  function Concat(chunks: seq<Bytes>): Bytes {
    if chunks == [] then [] else chunks[0] + Concat(chunks[1..])
  }

  /** _read_exact, and io.ReadFull: exactly n bytes, or None when the stream ends first. */
  method ReadExact(stream: Stream, n: nat) returns (r: Option<Bytes>)
    requires stream.Valid()
    modifies stream
    ensures stream.Valid()
    ensures r.Some? <==> n <= |old(stream.Content())|
    ensures r.Some? ==> r.value == old(stream.Content())[..n] && stream.Content() == old(stream.Content())[n..]
  {
    var buf: Bytes := [];
    while |buf| < n
      invariant stream.Valid() && |buf| <= n
      invariant old(stream.Content()) == buf + stream.Content()
    {
      var chunk := stream.Read(n - |buf|);
      if chunk == [] {
        return None;
      }
      buf := buf + chunk;
    }
    return Some(buf);
  }

  /** readFrame: however the bytes are chunked, the first frame of the content, or an error if there is none. */
  method ReadFrame(stream: Stream) returns (r: Option<Bytes>)
    requires stream.Valid()
    modifies stream
    ensures stream.Valid()
    ensures r.Some? <==> FirstFrame(old(stream.Content())).Some?
    ensures r.Some? ==> FirstFrame(old(stream.Content())) == Some((r.value, stream.Content()))
  {
    ghost var all := stream.Content();
    var header := ReadExact(stream, 4);
    if header.None? {
      return None;
    }
    var length := HeaderValue(header.value);
    r := ReadExact(stream, length);
    if r.Some? {
      assert all[4..][..length] == all[4..4 + length] && all[4..][length..] == all[4 + length..];
    }
  }

  // ---------- Serving ----------

  /** What the worker writes for a request stream: the framed response to each whole request, in order. */
  function ServeOutput(input: Bytes, respond: Bytes -> Bytes): Bytes
    decreases |input|
  {
    match FirstFrame(input)
    case None => []
    case Some((request, rest)) =>
      if Fits(respond(request)) then Frame(respond(request)) + ServeOutput(rest, respond)
      else []   // struct.pack refuses the length and the worker ends
  }

  /** serve: read a request, respond, until the input ends or the output pipe breaks. */
  method Serve(stdin: Stream, stdout: Pipe, respond: Bytes -> Bytes)
    requires stdin.Valid()
    modifies stdin, stdout
    ensures stdin.Valid()
    ensures stdout.data == old(stdout.data) + UpTo(ServeOutput(old(stdin.Content()), respond), old(stdout.room))
  {
    ghost var output := UpTo(ServeOutput(stdin.Content(), respond), stdout.room);
    while true
      invariant stdin.Valid()
      invariant stdout.data + UpTo(ServeOutput(stdin.Content(), respond), stdout.room) == old(stdout.data) + output
      decreases |stdin.Content()|
    {
      var request := ReadFrame(stdin);
      if request.None? {
        assert stdout.data + [] == stdout.data;
        return;
      }
      var response := respond(request.value);
      if !Fits(response) {
        assert stdout.data + [] == stdout.data;
        return;
      }
      ghost var rest := ServeOutput(stdin.Content(), respond);
      UpToConcat(Frame(response), rest, stdout.room);
      if |Frame(response)| <= stdout.room {
        Reassociate(stdout.data, Frame(response), UpTo(rest, stdout.room - |Frame(response)|));
      }
      var ok := WriteFrame(stdout, response);
      if !ok {
        return;
      }
    }
  }

  /** As much of some output as a pipe with this room takes. */
  function UpTo(output: Bytes, room: nat): Bytes {
    if room < |output| then output[..room] else output
  }

  lemma UpToConcat(a: Bytes, b: Bytes, room: nat)
    ensures UpTo(a + b, room) == if |a| <= room then a + UpTo(b, room - |a|) else a[..room]
  {
  }

  function Responses(requests: seq<Bytes>, respond: Bytes -> Bytes): (responses: seq<Bytes>)
    ensures |responses| == |requests| && forall i :: 0 <= i < |requests| ==> responses[i] == respond(requests[i])
  {
    seq(|requests|, i requires 0 <= i < |requests| => respond(requests[i]))
  }

  /** The renderer's side and the worker's side compose: n requests in, their n responses out, in order. */
  lemma {:induction false} ServeRoundTrip(requests: seq<Bytes>, respond: Bytes -> Bytes)
    requires AllFit(requests) && AllFit(Responses(requests, respond))
    ensures ServeOutput(AllFrames(requests), respond) == AllFrames(Responses(requests, respond))
    ensures ReadAll(ServeOutput(AllFrames(requests), respond)) == (Responses(requests, respond), [])
  {
    var responses := Responses(requests, respond);
    if requests != [] {
      FrameRoundTrip(requests[0], AllFrames(requests[1..]));
      assert responses[1..] == Responses(requests[1..], respond);
      assert responses[0] in responses;
      ServeRoundTrip(requests[1..], respond);
    }
    StreamRoundTrip(responses);
  }
}
